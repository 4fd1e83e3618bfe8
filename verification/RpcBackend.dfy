/** Forwarding a batch to a backend and to a group of backends (proxyd/backend.go). */
module RpcBackend {
  import opened RpcTypes
  import opened Multisets

  /** How forwarding fails: a receipts request that cannot be served, two errors that stop the group, or one that lets
      the next backend try (offline, over capacity, bad answers). */
  datatype ForwardError = BadReceiptsRequest | NotWhitelisted | ResponseTooLarge | TryNext | NoBackends

  datatype Reply<+T> = Replied(value: T) | Refused(error: ForwardError)

  /** What a backend sends back for a list of requests. */
  type Transport = seq<Req> -> Reply<seq<Res>>

  /** The backend answers each request once, in any order. */
  ghost predicate IsPermutedAnswer(truth: Truth, reqs: seq<Req>, res: seq<Res>) {
    && multiset(ResIds(res)) == multiset(Ids(reqs))
    && forall i, j | 0 <= i < |reqs| && 0 <= j < |res| && res[j].id == reqs[i].id ::
         Answers(truth, reqs[i], res[j].payload)
  }

  /** When the number of responses is right, they are the answers in some order. */
  ghost predicate Honest(truth: Truth, backend: Transport) {
    forall reqs {:trigger backend(reqs)} | DistinctIds(reqs) && backend(reqs).Replied?
        && |backend(reqs).value| == |reqs| ::
      IsPermutedAnswer(truth, reqs, backend(reqs).value)
  }

  /** The position of an id among the requests; an id that is not there counts as the first, as a missing map entry
      does. */
  function PositionIn(pos: map<string, nat>, id: string): nat {
    if id in pos then pos[id] else 0
  }

  ghost predicate Ordered(pos: map<string, nat>, res: seq<Res>) {
    forall i, j | 0 <= i < j < |res| :: PositionIn(pos, res[i].id) <= PositionIn(pos, res[j].id)
  }

  lemma InsertKeepsOrder(pos: map<string, nat>, s: seq<Res>, k: nat, x: Res)
    requires Ordered(pos, s) && k <= |s|
    requires forall i | 0 <= i < k :: PositionIn(pos, s[i].id) <= PositionIn(pos, x.id)
    requires k < |s| ==> PositionIn(pos, x.id) <= PositionIn(pos, s[k].id)
    ensures Ordered(pos, s[..k] + [x] + s[k..])
  {
    var t := s[..k] + [x] + s[k..];
    forall i, j | 0 <= i < j < |t| ensures PositionIn(pos, t[i].id) <= PositionIn(pos, t[j].id) {
      if i == k {
        assert t[j] == s[j - 1];
      } else if i > k {
        assert t[i] == s[i - 1] && t[j] == s[j - 1];
      } else if j > k {
        assert t[j] == s[j - 1];
      }
    }
  }

  lemma InsertedMultiset(s: seq<Res>, k: nat, x: Res)
    requires k <= |s|
    ensures multiset(s[..k] + [x] + s[k..]) == multiset(s) + multiset{x}
  {
    assert s == s[..k] + s[k..];
  }

  /** Where to insert x: after everything that does not come later. */
  method InsertionPoint(pos: map<string, nat>, sorted: seq<Res>, x: Res) returns (k: nat)
    ensures k <= |sorted| && forall i | 0 <= i < k :: PositionIn(pos, sorted[i].id) <= PositionIn(pos, x.id)
    ensures k < |sorted| ==> PositionIn(pos, x.id) <= PositionIn(pos, sorted[k].id)
  {
    k := 0;
    while k < |sorted| && PositionIn(pos, sorted[k].id) <= PositionIn(pos, x.id)
      invariant k <= |sorted| && forall i | 0 <= i < k :: PositionIn(pos, sorted[i].id) <= PositionIn(pos, x.id)
    {
      k := k + 1;
    }
  }

  /** sort.Slice by position. */
  method SortByPosition(pos: map<string, nat>, res: seq<Res>) returns (sorted: seq<Res>)
    ensures Ordered(pos, sorted) && multiset(sorted) == multiset(res)
  {
    hide Ordered, PositionIn;
    sorted := [];
    EmptyOrdered(pos);
    for n := 0 to |res|
      invariant Ordered(pos, sorted) && multiset(sorted) == multiset(res[..n])
    {
      var k := InsertionPoint(pos, sorted, res[n]);
      assert res[..n + 1] == res[..n] + [res[n]];
      InsertKeepsOrder(pos, sorted, k, res[n]);
      InsertedMultiset(sorted, k, res[n]);
      sorted := sorted[..k] + [res[n]] + sorted[k..];
    }
    assert res[..|res|] == res;
  }

  lemma EmptyOrdered(pos: map<string, nat>)
    ensures Ordered(pos, [])
  {
  }

  /** pos holds each id at its place. */
  ghost predicate IsIndex(pos: map<string, nat>, reqs: seq<Req>) {
    && (forall i | 0 <= i < |reqs| :: reqs[i].id in pos && pos[reqs[i].id] == i)
    && (forall id | id in pos :: pos[id] < |reqs| && reqs[pos[id]].id == id)
  }

  /** Sorts the responses by the positions of their ids; panics on requests with duplicate ids. */
  method SortBatchRPCResponse(reqs: seq<Req>, res: seq<Res>) returns (sorted: seq<Res>, panicked: bool)
    ensures panicked <==> !DistinctIds(reqs)
    ensures !panicked ==> multiset(sorted) == multiset(res)
    ensures !panicked && multiset(ResIds(res)) == multiset(Ids(reqs)) ==> ResIds(sorted) == Ids(reqs)
  {
    var pos: map<string, nat> := map[];
    for i := 0 to |reqs|
      invariant IsIndex(pos, reqs[..i])
    {
      var key := reqs[i].id;
      if key in pos {
        assert reqs[..i][pos[key]] == reqs[pos[key]];
        return res, true;
      }
      pos := pos[key := i];
    }
    assert reqs[..|reqs|] == reqs;
    sorted := SortByPosition(pos, res);
    panicked := false;
    if multiset(ResIds(res)) == multiset(Ids(reqs)) {
      SamePermutedIds(sorted, res);
      OrderedIsAligned(reqs, sorted, pos);
    }
  }

  function Without(s: seq<Res>, j: nat): seq<Res>
    requires j < |s|
  {
    s[..j] + s[j + 1..]
  }

  lemma IdsWithout(s: seq<Res>, j: nat)
    requires j < |s|
    ensures multiset(s) == multiset(Without(s, j)) + multiset{s[j]}
    ensures multiset(ResIds(s)) == multiset(ResIds(Without(s, j))) + multiset{s[j].id}
  {
    hide ResIds;
    var before, after := s[..j], s[j + 1..];
    assert s == before + ([s[j]] + after);
    ResIdsAppend(before, [s[j]] + after);
    ResIdsAppend([s[j]], after);
    ResIdsAppend(before, after);
    assert ResIds([s[j]]) == [s[j].id];
  }

  lemma ResIdsAppend(a: seq<Res>, b: seq<Res>)
    ensures ResIds(a + b) == ResIds(a) + ResIds(b)
  {
  }

  lemma {:induction false} SamePermutedIds(a: seq<Res>, b: seq<Res>)
    requires multiset(a) == multiset(b)
    ensures multiset(ResIds(a)) == multiset(ResIds(b))
    decreases |a|
  {
    hide Without;
    assert |multiset(a)| == |a| && |multiset(b)| == |b|;
    if a != [] {
      assert a[0] in multiset(b);
      var j :| 0 <= j < |b| && b[j] == a[0];
      IdsWithout(a, 0);
      IdsWithout(b, j);
      Cancel(multiset(Without(a, 0)), multiset(Without(b, j)), a[0]);
      WithoutShorter(a, 0);
      SamePermutedIds(Without(a, 0), Without(b, j));
    }
  }

  lemma WithoutShorter(s: seq<Res>, j: nat)
    requires j < |s|
    ensures |Without(s, j)| == |s| - 1
  {
  }

  /** Sorted by position, the answers stand where their requests stand. */
  lemma OrderedIsAligned(reqs: seq<Req>, res: seq<Res>, pos: map<string, nat>)
    requires DistinctIds(reqs) && IsIndex(pos, reqs) && Ordered(pos, res)
    requires multiset(ResIds(res)) == multiset(Ids(reqs))
    ensures ResIds(res) == Ids(reqs)
  {
    SameLength(ResIds(res), Ids(reqs));
    forall i | 0 <= i < |res| ensures res[i].id in pos && pos[res[i].id] < |reqs| {
      assert ResIds(res)[i] in multiset(ResIds(res));
      assert ResIds(res)[i] in Ids(reqs);
    }
    var p := seq(|res|, i requires 0 <= i < |res| => PositionIn(pos, res[i].id));
    PositionsIncrease(reqs, res, pos, p);
    forall i | 0 <= i < |res| ensures res[i].id == reqs[i].id {
      Increasing(p, i);
    }
  }

  lemma PositionsIncrease(reqs: seq<Req>, res: seq<Res>, pos: map<string, nat>, p: seq<nat>)
    requires DistinctIds(reqs) && IsIndex(pos, reqs) && Ordered(pos, res)
    requires multiset(ResIds(res)) == multiset(Ids(reqs))
    requires |p| == |res| && forall i | 0 <= i < |res| :: res[i].id in pos && p[i] == pos[res[i].id]
    ensures forall i, j | 0 <= i < j < |p| :: p[i] < p[j]
  {
    forall i, j | 0 <= i < j < |res| ensures p[i] < p[j] {
      DistinctOf(Ids(reqs), ResIds(res), i, j);
      assert PositionIn(pos, res[i].id) <= PositionIn(pos, res[j].id);
    }
  }

  lemma SameLength(a: seq<string>, b: seq<string>)
    requires multiset(a) == multiset(b)
    ensures |a| == |b|
  {
    assert |multiset(a)| == |a| && |multiset(b)| == |b|;
  }

  /** A permutation of distinct items has distinct items. */
  lemma DistinctOf(a: seq<string>, b: seq<string>, i: nat, j: nat)
    requires forall x, y | 0 <= x < y < |a| :: a[x] != a[y]
    requires multiset(a) == multiset(b) && i < j < |b|
    ensures b[i] != b[j]
  {
    AtMostOnce(a, b[i]);
    assert b == b[..i] + [b[i]] + b[i + 1..j] + [b[j]] + b[j + 1..];
  }

  lemma {:induction false} AtMostOnce(a: seq<string>, x: string)
    requires forall i, j | 0 <= i < j < |a| :: a[i] != a[j]
    ensures multiset(a)[x] <= 1
  {
    if a != [] {
      assert a == [a[0]] + a[1..];
      AtMostOnce(a[1..], x);
      assert a[0] !in a[1..];
    }
  }

  /** n increasing numbers below n are 0, 1, ..., n - 1. */
  lemma {:induction false} Increasing(p: seq<nat>, i: nat)
    requires i < |p| && (forall k | 0 <= k < |p| :: p[k] < |p|) && (forall k, l | 0 <= k < l < |p| :: p[k] < p[l])
    ensures p[i] == i
  {
    AtLeastIndex(p, i);
    AtMostIndex(p, i);
  }

  lemma {:induction false} AtLeastIndex(p: seq<nat>, i: nat)
    requires i < |p| && (forall k, l | 0 <= k < l < |p| :: p[k] < p[l])
    ensures p[i] >= i
  {
    if i > 0 {
      AtLeastIndex(p, i - 1);
    }
  }

  lemma {:induction false} AtMostIndex(p: seq<nat>, i: nat)
    requires i < |p| && (forall k | 0 <= k < |p| :: p[k] < |p|) && (forall k, l | 0 <= k < l < |p| :: p[k] < p[l])
    ensures p[i] <= i
    decreases |p| - i
  {
    if i + 1 < |p| {
      AtMostIndex(p, i + 1);
    }
  }

  const CONSENSUS_GET_RECEIPTS := "consensus_getReceipts"

  /** Response i answers request i. */
  ghost predicate Aligned(truth: Truth, reqs: seq<Req>, res: seq<Res>) {
    |res| == |reqs| && forall i | 0 <= i < |reqs| :: res[i].id == reqs[i].id && Answers(truth, reqs[i], res[i].payload)
  }

  lemma PermutedIsAligned(truth: Truth, reqs: seq<Req>, res: seq<Res>, sorted: seq<Res>)
    requires IsPermutedAnswer(truth, reqs, res) && multiset(sorted) == multiset(res) && ResIds(sorted) == Ids(reqs)
    ensures Aligned(truth, reqs, sorted)
  {
    forall i | 0 <= i < |reqs| ensures sorted[i].id == reqs[i].id && Answers(truth, reqs[i], sorted[i].payload) {
      assert sorted[i].id == ResIds(sorted)[i] == Ids(reqs)[i];
      assert sorted[i] in multiset(res);
    }
  }

  /** A receipts request cannot be sent in a batch. */
  ghost predicate BatchedReceipts(reqs: seq<Req>, isBatch: bool) {
    isBatch && exists r :: r in reqs && r.methodName == CONSENSUS_GET_RECEIPTS
  }

  /** A receipts request is in the way: it is in a batch, or the backend cannot serve it. */
  ghost predicate ReceiptsError(backend: Transport, reqs: seq<Req>, isBatch: bool) {
    BatchedReceipts(reqs, isBatch) || backend(reqs) == Refused(BadReceiptsRequest)
  }

  /** The backend answers with as many responses as there are requests. */
  ghost predicate AnswersAll(backend: Transport, reqs: seq<Req>, isBatch: bool) {
    !BatchedReceipts(reqs, isBatch) && backend(reqs).Replied? && |backend(reqs).value| == |reqs|
  }

  /** The next backend gets its turn: this one miscounts, is offline or over capacity, or fails in some other way that
      does not end the search. */
  ghost predicate LetsNextTry(backend: Transport, reqs: seq<Req>, isBatch: bool) {
    && !BatchedReceipts(reqs, isBatch)
    && match backend(reqs)
       case Replied(res) => |res| != |reqs|
       case Refused(error) => error == TryNext || error == NoBackends
  }

  /** An error that ends the search. */
  ghost predicate Stops(backend: Transport, reqs: seq<Req>, isBatch: bool, e: ForwardError) {
    match e
    case BadReceiptsRequest => ReceiptsError(backend, reqs, isBatch)
    case NotWhitelisted => !BatchedReceipts(reqs, isBatch) && backend(reqs) == Refused(NotWhitelisted)
    case ResponseTooLarge => !BatchedReceipts(reqs, isBatch) && backend(reqs) == Refused(ResponseTooLarge)
    case _ => false
  }

  /** Sends the requests to one backend and puts the responses in their order; a wrong number of responses is an error.
      With distinct ids the sorter does not panic. */
  method DoForward(backend: Transport, reqs: seq<Req>, isBatch: bool, ghost truth: Truth)
    returns (reply: Reply<seq<Res>>)
    requires DistinctIds(reqs) && Honest(truth, backend)
    ensures reply.Replied? ==> Aligned(truth, reqs, reply.value)
    ensures reply == Refused(BadReceiptsRequest) <==> ReceiptsError(backend, reqs, isBatch)
    ensures AnswersAll(backend, reqs, isBatch) ==>
              reply.Replied? && multiset(reply.value) == multiset(backend(reqs).value)
    ensures LetsNextTry(backend, reqs, isBatch) ==> reply == Refused(TryNext) || reply == Refused(NoBackends)
    ensures forall e | Stops(backend, reqs, isBatch, e) :: reply == Refused(e)
  {
    hide IsPermutedAnswer;
    if isBatch {
      for i := 0 to |reqs|
        invariant forall j | 0 <= j < i :: reqs[j].methodName != CONSENSUS_GET_RECEIPTS
      {
        if reqs[i].methodName == CONSENSUS_GET_RECEIPTS {
          return Refused(BadReceiptsRequest);
        }
      }
    }
    reply := backend(reqs);
    if reply.Refused? {
      return;
    }
    var res := reply.value;
    if |res| != |reqs| {
      return Refused(TryNext);
    }
    var sorted, panicked := SortBatchRPCResponse(reqs, res);
    assert !panicked;
    PermutedIds(truth, reqs, res);
    PermutedIsAligned(truth, reqs, res, sorted);
    reply := Replied(sorted);
  }

  lemma PermutedIds(truth: Truth, reqs: seq<Req>, res: seq<Res>)
    requires IsPermutedAnswer(truth, reqs, res)
    ensures multiset(ResIds(res)) == multiset(Ids(reqs))
  {
  }

  /** What the consensus does to a request: it passes, possibly rewritten, or it is answered on the spot. */
  datatype Rewriting = Pass(req: Req) | Override(payload: Payload)

  type Rewriter = Req -> Rewriting

  /** Rewriting keeps ids. */
  ghost predicate KeepsIds(rw: Rewriter) {
    forall r {:trigger rw(r)} | rw(r).Pass? :: rw(r).req.id == r.id
  }

  /** The requests to forward. */
  function Kept(rw: Rewriter, reqs: seq<Req>): seq<Req> {
    if reqs == [] then []
    else
      var n := |reqs| - 1;
      Kept(rw, reqs[..n]) + if rw(reqs[n]).Pass? then [rw(reqs[n]).req] else []
  }

  /** The responses given on the spot, with the places they belong to. */
  function Overrides(rw: Rewriter, reqs: seq<Req>): seq<(nat, Res)> {
    if reqs == [] then []
    else
      var n := |reqs| - 1;
      Overrides(rw, reqs[..n]) + if rw(reqs[n]).Pass? then [] else [(n, Res(reqs[n].id, rw(reqs[n]).payload))]
  }

  /** Each request with its response: from the forwarded ones in order, or on the spot. */
  function Merged(rw: Rewriter, reqs: seq<Req>, res: seq<Res>): (all: seq<Res>)
    requires |res| == |Kept(rw, reqs)|
    ensures |all| == |reqs|
  {
    if reqs == [] then []
    else
      var n := |reqs| - 1;
      if rw(reqs[n]).Pass? then Merged(rw, reqs[..n], res[..|res| - 1]) + [res[|res| - 1]]
      else Merged(rw, reqs[..n], res) + [Res(reqs[n].id, rw(reqs[n]).payload)]
  }

  /** Response i is for request i: given on the spot, or an answer to what was forwarded. */
  ghost predicate Served(truth: Truth, rw: Rewriter, reqs: seq<Req>, res: seq<Res>) {
    |res| == |reqs| && forall i | 0 <= i < |reqs| :: ServedOne(truth, rw, reqs[i], res[i])
  }

  ghost predicate ServedOne(truth: Truth, rw: Rewriter, req: Req, res: Res) {
    && res.id == req.id
    && match rw(req)
       case Override(payload) => res.payload == payload
       case Pass(sent) => Answers(truth, sent, res.payload)
  }

  lemma {:induction false} MergedServes(truth: Truth, rw: Rewriter, reqs: seq<Req>, res: seq<Res>)
    requires KeepsIds(rw) && Aligned(truth, Kept(rw, reqs), res)
    ensures Served(truth, rw, reqs, Merged(rw, reqs, res))
  {
    if reqs != [] {
      var n := |reqs| - 1;
      if rw(reqs[n]).Pass? {
        assert Kept(rw, reqs)[..|res| - 1] == Kept(rw, reqs[..n]);
        MergedServes(truth, rw, reqs[..n], res[..|res| - 1]);
      } else {
        MergedServes(truth, rw, reqs[..n], res);
      }
    }
  }

  lemma {:induction false} KeptPrefix(rw: Rewriter, reqs: seq<Req>, b: nat)
    requires b <= |reqs|
    ensures Kept(rw, reqs[..b]) <= Kept(rw, reqs)
    decreases |reqs|
  {
    if b < |reqs| {
      assert reqs[..|reqs| - 1][..b] == reqs[..b];
      KeptPrefix(rw, reqs[..|reqs| - 1], b);
    } else {
      assert reqs[..b] == reqs;
    }
  }

  /** The responses after the overrides below place b have been inserted. */
  function Inserted(rw: Rewriter, reqs: seq<Req>, res: seq<Res>, b: nat): seq<Res>
    requires b <= |reqs| && |res| == |Kept(rw, reqs)|
  {
    KeptPrefix(rw, reqs, b);
    var k := |Kept(rw, reqs[..b])|;
    Merged(rw, reqs[..b], res[..k]) + res[k..]
  }

  lemma MergedLast(rw: Rewriter, reqs: seq<Req>, res: seq<Res>, b: nat)
    requires b < |reqs| && |res| == |Kept(rw, reqs[..b + 1])|
    ensures Kept(rw, reqs[..b + 1]) == Kept(rw, reqs[..b]) + (if rw(reqs[b]).Pass? then [rw(reqs[b]).req] else [])
    ensures Merged(rw, reqs[..b + 1], res)
         == if rw(reqs[b]).Pass? then Merged(rw, reqs[..b], res[..|res| - 1]) + [res[|res| - 1]]
            else Merged(rw, reqs[..b], res) + [Res(reqs[b].id, rw(reqs[b]).payload)]
  {
    assert reqs[..b + 1][..b] == reqs[..b];
  }

  /** The step over one place: nothing to do for a forwarded request, an insertion for an overridden one. */
  lemma InsertedStep(rw: Rewriter, reqs: seq<Req>, res: seq<Res>, b: nat)
    requires b < |reqs| && |res| == |Kept(rw, reqs)|
    ensures |Inserted(rw, reqs, res, b)| >= b
    ensures var cur := Inserted(rw, reqs, res, b);
            Inserted(rw, reqs, res, b + 1)
            == if rw(reqs[b]).Pass? then cur else cur[..b] + [Res(reqs[b].id, rw(reqs[b]).payload)] + cur[b..]
  {
    hide Merged, Kept;
    KeptPrefix(rw, reqs, b);
    KeptPrefix(rw, reqs, b + 1);
    var k, k' := |Kept(rw, reqs[..b])|, |Kept(rw, reqs[..b + 1])|;
    MergedLast(rw, reqs, res[..k'], b);
    if rw(reqs[b]).Pass? {
      assert res[..k'][..k] == res[..k];
      assert res[k..] == [res[k]] + res[k'..];
    }
  }

  lemma {:induction false} SkipPassed(rw: Rewriter, reqs: seq<Req>, res: seq<Res>, b: nat, m: nat)
    requires b <= m <= |reqs| && |res| == |Kept(rw, reqs)| && forall x | b <= x < m :: rw(reqs[x]).Pass?
    ensures Inserted(rw, reqs, res, m) == Inserted(rw, reqs, res, b)
    decreases m - b
  {
    if b < m {
      InsertedStep(rw, reqs, res, b);
      SkipPassed(rw, reqs, res, b + 1, m);
    }
  }

  lemma OverridesStep(rw: Rewriter, reqs: seq<Req>, b: nat)
    requires b < |reqs|
    ensures Overrides(rw, reqs[..b + 1])
         == Overrides(rw, reqs[..b]) + if rw(reqs[b]).Pass? then [] else [(b, Res(reqs[b].id, rw(reqs[b]).payload))]
  {
    assert reqs[..b + 1][..b] == reqs[..b];
  }

  lemma {:induction false} OverridesPrefix(rw: Rewriter, reqs: seq<Req>, b: nat)
    requires b <= |reqs|
    ensures Overrides(rw, reqs[..b]) <= Overrides(rw, reqs)
    decreases |reqs| - b
  {
    if b < |reqs| {
      OverridesStep(rw, reqs, b);
      OverridesPrefix(rw, reqs, b + 1);
    } else {
      assert reqs[..b] == reqs;
    }
  }

  /** Where the next override belongs: every request before it, from place b on, was forwarded. */
  lemma {:induction false} NextOverride(rw: Rewriter, reqs: seq<Req>, b: nat)
    requires b <= |reqs|
    ensures var j := |Overrides(rw, reqs[..b])|;
            if j < |Overrides(rw, reqs)| then
              var (m, ov) := Overrides(rw, reqs)[j];
              && b <= m < |reqs| && rw(reqs[m]).Override? && ov == Res(reqs[m].id, rw(reqs[m]).payload)
              && (forall x | b <= x < m :: rw(reqs[x]).Pass?) && |Overrides(rw, reqs[..m + 1])| == j + 1
            else forall x | b <= x < |reqs| :: rw(reqs[x]).Pass?
    decreases |reqs| - b
  {
    if b < |reqs| {
      OverridesStep(rw, reqs, b);
      OverridesPrefix(rw, reqs, b + 1);
      if rw(reqs[b]).Pass? {
        NextOverride(rw, reqs, b + 1);
      }
    } else {
      assert reqs[..b] == reqs;
    }
  }

  /** Re-inserts the overridden responses, in order, each at its recorded index; that index is always within bounds. */
  method ReapplyOverrides(overrides: seq<(nat, Res)>, forwarded: seq<Res>, ghost rw: Rewriter, ghost reqs: seq<Req>)
    returns (res: seq<Res>)
    requires overrides == Overrides(rw, reqs) && |forwarded| == |Kept(rw, reqs)|
    ensures res == Merged(rw, reqs, forwarded)
  {
    hide Overrides, Inserted, Merged, Kept;
    res := forwarded;
    ghost var b := 0;
    InsertedEnds(rw, reqs, forwarded);
    for j := 0 to |overrides|
      invariant b <= |reqs| && |Overrides(rw, reqs[..b])| == j && res == Inserted(rw, reqs, forwarded, b)
    {
      NextOverride(rw, reqs, b);
      var (m, ov) := overrides[j];
      SkipPassed(rw, reqs, forwarded, b, m);
      InsertedStep(rw, reqs, forwarded, m);
      if |res| > 0 {
        res := res[..m] + [ov] + res[m..];
      } else {
        res := res + [ov];
      }
      b := m + 1;
    }
    NextOverride(rw, reqs, b);
    SkipPassed(rw, reqs, forwarded, b, |reqs|);
  }

  lemma InsertedEnds(rw: Rewriter, reqs: seq<Req>, res: seq<Res>)
    requires |res| == |Kept(rw, reqs)|
    ensures Inserted(rw, reqs, res, 0) == res && Inserted(rw, reqs, res, |reqs|) == Merged(rw, reqs, res)
    ensures Overrides(rw, reqs[..0]) == []
  {
    assert reqs[..0] == [] && reqs[..|reqs|] == reqs;
    assert res[..|res|] == res;
  }

  lemma {:induction false} KeptIds(rw: Rewriter, reqs: seq<Req>)
    requires KeepsIds(rw) && DistinctIds(reqs)
    ensures DistinctIds(Kept(rw, reqs)) && forall k | k in Kept(rw, reqs) :: HasId(reqs, k.id)
  {
    if reqs != [] {
      var n := |reqs| - 1;
      KeptIds(rw, reqs[..n]);
      LongerIds(reqs, Kept(rw, reqs[..n]), if rw(reqs[n]).Pass? then rw(reqs[n]).req else reqs[n]);
    }
  }

  ghost predicate HasId(reqs: seq<Req>, id: string) {
    exists i :: 0 <= i < |reqs| && reqs[i].id == id
  }

  /** The last request has an id of its own. */
  lemma LongerIds(reqs: seq<Req>, kept: seq<Req>, x: Req)
    requires reqs != [] && DistinctIds(reqs) && DistinctIds(kept) && x.id == reqs[|reqs| - 1].id
    requires forall k | k in kept :: HasId(reqs[..|reqs| - 1], k.id)
    ensures DistinctIds(kept + [x]) && forall k | k in kept + [x] :: HasId(reqs, k.id)
  {
    forall k | k in kept ensures HasId(reqs, k.id) && k.id != x.id {
      var i :| 0 <= i < |reqs| - 1 && reqs[..|reqs| - 1][i].id == k.id;
      assert reqs[i].id == k.id;
    }
  }

  function PassAll(r: Req): Rewriting {
    Pass(r)
  }

  lemma {:induction false} KeptAll(reqs: seq<Req>)
    ensures Kept(PassAll, reqs) == reqs && Overrides(PassAll, reqs) == []
  {
    if reqs != [] {
      KeptAll(reqs[..|reqs| - 1]);
    }
  }

  /** The first backend that does not let the next one try. */
  ghost predicate Decides(backends: seq<Transport>, reqs: seq<Req>, isBatch: bool, i: nat) {
    && i < |backends| && !LetsNextTry(backends[i], reqs, isBatch)
    && forall j | 0 <= j < i :: LetsNextTry(backends[j], reqs, isBatch)
  }

  /** How forwarding what is kept of some requests fails: there are no backends or all of them let the next one try, or
      the first that does not has an error that ends the search. */
  ghost predicate ForwardFails(backends: seq<Transport>, kept: seq<Req>, isBatch: bool, e: ForwardError) {
    if e == NoBackends then backends == [] || (kept != [] && forall b | b in backends :: LetsNextTry(b, kept, isBatch))
    else kept != [] && exists i: nat :: Decides(backends, kept, isBatch, i) && Stops(backends[i], kept, isBatch, e)
  }

  /** The responses are those of the backend in the order of the requests, with the ones given on the spot. */
  ghost predicate Relays(rw: Rewriter, reqs: seq<Req>, res: seq<Res>, all: seq<Res>) {
    exists sorted :: |sorted| == |Kept(rw, reqs)| && multiset(sorted) == multiset(res)
        && all == Merged(rw, reqs, sorted)
  }

  class BackendGroup {
    const backends: seq<Transport>   // in the order they are tried
    const consensusAware: bool

    constructor (backends: seq<Transport>, consensusAware: bool)
      ensures this.backends == backends && this.consensusAware == consensusAware
    {
      this.backends, this.consensusAware := backends, consensusAware;
    }

    /** What really happens to a request. */
    function Effective(rewrite: Rewriter): Rewriter {
      if consensusAware then rewrite else PassAll
    }

    /** Splits off what the consensus answers on the spot. */
    method Split(reqs: seq<Req>, rewrite: Rewriter) returns (overrides: seq<(nat, Res)>, rewritten: seq<Req>)
      ensures overrides == Overrides(Effective(rewrite), reqs) && rewritten == Kept(Effective(rewrite), reqs)
    {
      overrides, rewritten := [], [];
      if !consensusAware {
        KeptAll(reqs);
        return [], reqs;
      }
      for i := 0 to |reqs|
        invariant overrides == Overrides(rewrite, reqs[..i]) && rewritten == Kept(rewrite, reqs[..i])
      {
        assert reqs[..i + 1][..i] == reqs[..i];
        match rewrite(reqs[i])
        case Override(payload) => overrides := overrides + [(i, Res(reqs[i].id, payload))];
        case Pass(req) => rewritten := rewritten + [req];
      }
      assert reqs[..|reqs|] == reqs;
    }

    /** Forwards a batch to the first backend that takes it: response i is for request i, whether it was forwarded,
        rewritten or answered on the spot, and also when all of them were. */
    method Forward(reqs: seq<Req>, isBatch: bool, rewrite: Rewriter, ghost truth: Truth)
      returns (reply: Reply<seq<Res>>)
      requires DistinctIds(reqs) && KeepsIds(rewrite) && forall b | b in backends :: Honest(truth, b)
      ensures reply.Replied? ==> Served(truth, Effective(rewrite), reqs, reply.value)
      ensures reqs == [] ==> reply == Replied([])
      ensures reply.Refused? ==>
                reqs != [] && ForwardFails(backends, Kept(Effective(rewrite), reqs), isBatch, reply.error)
      ensures var kept := Kept(Effective(rewrite), reqs);
              && (reqs != [] && backends != [] && kept == [] ==> reply.Replied?)
              && forall i: nat | kept != [] && Decides(backends, kept, isBatch, i) ::
                   && (forall e | Stops(backends[i], kept, isBatch, e) :: reply == Refused(e))
                   && (AnswersAll(backends[i], kept, isBatch) ==>
                         reply.Replied? && Relays(Effective(rewrite), reqs, backends[i](kept).value, reply.value))
      ensures var kept := Kept(Effective(rewrite), reqs);
              reqs != [] && ForwardFails(backends, kept, isBatch, NoBackends) ==> reply == Refused(NoBackends)
    {
      hide Served, Honest, Merged, Overrides, Kept, KeepsIds, ReceiptsError, LetsNextTry, AnswersAll, Stops;
      if reqs == [] {
        NothingServed(truth, Effective(rewrite));
        return Replied([]);
      }
      PassAllKeepsIds();
      var overrides, rewritten := Split(reqs, rewrite);
      KeptIds(Effective(rewrite), reqs);
      for i := 0 to |backends|
        invariant i > 0 ==> rewritten != []
        invariant forall j | 0 <= j < i :: LetsNextTry(backends[j], rewritten, isBatch)
      {
        OneOfThree(backends[i], rewritten, isBatch);
        var res: Reply<seq<Res>> := Replied([]);
        if |rewritten| > 0 {
          res := DoForward(backends[i], rewritten, isBatch, truth);
        }
        match res
        case Refused(error) =>
          if error == BadReceiptsRequest || error == NotWhitelisted || error == ResponseTooLarge {
            assert Decides(backends, rewritten, isBatch, i);
            return res;
          }
        case Replied(forwarded) =>
          var merged := ReapplyOverrides(overrides, forwarded, Effective(rewrite), reqs);
          MergedServes(truth, Effective(rewrite), reqs, forwarded);
          return Replied(merged);
      }
      return Refused(NoBackends);
    }
  }

  /** A backend answers, stops the search with one error, or lets the next one try. */
  lemma OneOfThree(backend: Transport, reqs: seq<Req>, isBatch: bool)
    ensures LetsNextTry(backend, reqs, isBatch) ==>
              !AnswersAll(backend, reqs, isBatch) && forall e :: !Stops(backend, reqs, isBatch, e)
    ensures AnswersAll(backend, reqs, isBatch) ==> forall e :: !Stops(backend, reqs, isBatch, e)
    ensures AnswersAll(backend, reqs, isBatch) || LetsNextTry(backend, reqs, isBatch)
         || exists e :: Stops(backend, reqs, isBatch, e)
    ensures !Stops(backend, reqs, isBatch, TryNext) && !Stops(backend, reqs, isBatch, NoBackends)
  {
    if BatchedReceipts(reqs, isBatch) || backend(reqs) == Refused(BadReceiptsRequest) {
      assert Stops(backend, reqs, isBatch, BadReceiptsRequest);
    } else if backend(reqs).Refused? && !LetsNextTry(backend, reqs, isBatch) {
      assert Stops(backend, reqs, isBatch, backend(reqs).error);
    }
  }

  lemma NothingServed(truth: Truth, rw: Rewriter)
    ensures Served(truth, rw, [], []) && Kept(rw, []) == []
  {
  }

  lemma PassAllKeepsIds()
    ensures KeepsIds(PassAll)
  {
  }
}
