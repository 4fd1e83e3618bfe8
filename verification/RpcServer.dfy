/** Demultiplexing a client batch: duplicate ids, backend groups, cache hits and mini-batches (proxyd/server.go). */
module RpcServer {
  import opened RpcTypes
  import opened RpcBackend

  const PARSE_ERROR := -32700
  const INVALID_REQUEST := -32600
  const METHOD_NOT_WHITELISTED := -32601
  const HEALTHZ_METHOD := "proxyd_healthz"
  const NIL_ID := "null"

  /** The error a client sees when forwarding fails. */
  function ErrorCode(e: ForwardError): int {
    match e
    case NotWhitelisted => METHOD_NOT_WHITELISTED
    case ResponseTooLarge => -32020
    case NoBackends => -32011
    case _ => -32000
  }

  /** The part of the server that decides on single requests; rate limits may differ from request to request. */
  datatype Policy = Policy(
    parse: string -> Option<Req>, valid: Req -> bool, groupOf: map<string, string>, limited: (nat, Req) -> Option<int>)

  /** What becomes of a request: answered at once, or sent to a backend group. */
  datatype Intake = Answered(res: Res) | Dispatched(req: Req, group: string)

  function Classify(p: Policy, index: nat, raw: string): Intake {
    match p.parse(raw)
    case None => Answered(Res(NIL_ID, Failure(PARSE_ERROR)))
    case Some(req) =>
      if !p.valid(req) then Answered(Res(NIL_ID, Failure(INVALID_REQUEST)))
      else if req.methodName == "eth_accounts" then Answered(Res(req.id, Result("[]")))
      else if req.methodName !in p.groupOf then Answered(Res(req.id, Failure(METHOD_NOT_WHITELISTED)))
      else if p.limited(index, req).Some? then Answered(Res(req.id, Failure(p.limited(index, req).value)))
      else Dispatched(req, p.groupOf[req.methodName])
  }

  /** A request that cannot be read is answered under the null id; every other one keeps its own: it is answered on the
      spot, or sent on unchanged to the group of its method. */
  lemma IntakeKeepsId(p: Policy, index: nat, raw: string)
    ensures var parsed, intake := p.parse(raw), Classify(p, index, raw);
            && (parsed.None? ==> intake == Answered(Res("null", Failure(-32700))))
            && (parsed.Some? && !p.valid(parsed.value) ==> intake == Answered(Res("null", Failure(-32600))))
            && (parsed.Some? && p.valid(parsed.value) ==>
                  var req := parsed.value;
                  match intake
                  case Answered(res) =>
                    && res.id == req.id
                    && (req.methodName == "eth_accounts" || req.methodName !in p.groupOf || p.limited(index, req).Some?)
                    && (res.payload.Result? <==> req.methodName == "eth_accounts")
                  case Dispatched(sent, group) =>
                    sent == req && req.methodName in p.groupOf && group == p.groupOf[req.methodName])
  {
  }

  datatype Elem = Elem(req: Req, index: nat)

  /** Requests of a batch group have the same number and the same backend group; the number counts repetitions of an
      id. */
  type Batches = map<(nat, string), seq<Elem>>

  function Requests(batch: seq<Elem>): (reqs: seq<Req>)
    ensures |reqs| == |batch| && forall i | 0 <= i < |batch| :: reqs[i] == batch[i].req
  {
    seq(|batch|, i requires 0 <= i < |batch| => batch[i].req)
  }

  /** How many of the first n intakes are dispatched under this id. */
  function CountId(intakes: seq<Intake>, id: string, n: nat): nat
    requires n <= |intakes|
  {
    if n == 0 then 0
    else CountId(intakes, id, n - 1) + if intakes[n - 1].Dispatched? && intakes[n - 1].req.id == id then 1 else 0
  }

  /** The how-manieth request with its id a dispatched request is. */
  function Rank(intakes: seq<Intake>, i: nat): nat
    requires i < |intakes| && intakes[i].Dispatched?
  {
    CountId(intakes, intakes[i].req.id, i + 1)
  }

  lemma {:induction false} CountIdMonotone(intakes: seq<Intake>, id: string, n: nat, m: nat)
    requires n <= m <= |intakes|
    ensures CountId(intakes, id, n) <= CountId(intakes, id, m)
  {
    if n < m {
      CountIdMonotone(intakes, id, n, m - 1);
    }
  }

  lemma RankDiffers(intakes: seq<Intake>, i: nat, j: nat)
    requires i < j < |intakes| && intakes[i].Dispatched? && intakes[j].Dispatched?
    requires intakes[i].req.id == intakes[j].req.id
    ensures Rank(intakes, i) < Rank(intakes, j)
  {
    CountIdMonotone(intakes, intakes[i].req.id, i + 1, j);
  }

  /** The batch holds dispatched requests of this group and rank, in request order. */
  ghost predicate IsBatch(intakes: seq<Intake>, key: (nat, string), batch: seq<Elem>, n: nat) {
    && (forall a | 0 <= a < |batch| ::
          var i := batch[a].index;
          i < n && i < |intakes| && intakes[i] == Dispatched(batch[a].req, key.1) && Rank(intakes, i) == key.0)
    && (forall a, b | 0 <= a < b < |batch| :: batch[a].index < batch[b].index)
  }

  /** Every dispatched request among the first n is in the batch of its rank and group, and batches hold
      nothing else. */
  ghost predicate Filed(intakes: seq<Intake>, batches: Batches, n: nat) {
    && n <= |intakes|
    && (forall key | key in batches :: batches[key] != [] && IsBatch(intakes, key, batches[key], n))
    && (forall i: nat {:trigger intakes[i]} | i < n && intakes[i].Dispatched? ::
          (Rank(intakes, i), intakes[i].group) in batches
              && Elem(intakes[i].req, i) in batches[(Rank(intakes, i), intakes[i].group)])
  }

  /** The requests of a batch have distinct ids, so the sorter behind it cannot panic. */
  lemma BatchIdsDistinct(intakes: seq<Intake>, key: (nat, string), batch: seq<Elem>, n: nat)
    requires IsBatch(intakes, key, batch, n)
    ensures DistinctIds(Requests(batch))
  {
    forall a, b | 0 <= a < b < |batch| ensures batch[a].req.id != batch[b].req.id {
      if batch[a].req.id == batch[b].req.id {
        RankDiffers(intakes, batch[a].index, batch[b].index);
      }
    }
  }

  lemma BatchLater(intakes: seq<Intake>, key: (nat, string), batch: seq<Elem>, n: nat)
    requires IsBatch(intakes, key, batch, n)
    ensures IsBatch(intakes, key, batch, n + 1)
  {
    hide Rank;
  }

  lemma BatchGrows(intakes: seq<Intake>, key: (nat, string), batch: seq<Elem>, n: nat)
    requires IsBatch(intakes, key, batch, n) && n < |intakes| && intakes[n].Dispatched?
    requires key == (Rank(intakes, n), intakes[n].group)
    ensures IsBatch(intakes, key, batch + [Elem(intakes[n].req, n)], n + 1)
  {
    hide Rank;
  }

  lemma EmptyBatch(intakes: seq<Intake>, key: (nat, string), n: nat)
    ensures IsBatch(intakes, key, [], n)
  {
  }

  /** One more dispatched request is appended to its batch. */
  lemma FileOne(intakes: seq<Intake>, batches: Batches, n: nat)
    requires Filed(intakes, batches, n) && n < |intakes| && intakes[n].Dispatched?
    ensures var key := (Rank(intakes, n), intakes[n].group);
            var batch := if key in batches then batches[key] else [];
            Filed(intakes, batches[key := batch + [Elem(intakes[n].req, n)]], n + 1)
  {
    hide IsBatch, Rank;
    var key := (Rank(intakes, n), intakes[n].group);
    EmptyBatch(intakes, key, n);
    var batch := if key in batches then batches[key] else [];
    BatchGrows(intakes, key, batch, n);
    var batches' := batches[key := batch + [Elem(intakes[n].req, n)]];
    forall k | k in batches' ensures IsBatch(intakes, k, batches'[k], n + 1) {
      if k != key {
        BatchLater(intakes, k, batches[k], n);
      }
    }
    forall i: nat | i < n + 1 && intakes[i].Dispatched?
      ensures (Rank(intakes, i), intakes[i].group) in batches'
      ensures Elem(intakes[i].req, i) in batches'[(Rank(intakes, i), intakes[i].group)]
    {
      if i < n {
        assert Elem(intakes[i].req, i) in batches[(Rank(intakes, i), intakes[i].group)];
      } else {
        assert batches'[key][|batch|] == Elem(intakes[n].req, n);
      }
    }
  }

  lemma FileNone(intakes: seq<Intake>, batches: Batches, n: nat)
    requires Filed(intakes, batches, n) && n < |intakes| && intakes[n].Answered?
    ensures Filed(intakes, batches, n + 1)
  {
    hide IsBatch;
    forall k | k in batches ensures IsBatch(intakes, k, batches[k], n + 1) {
      BatchLater(intakes, k, batches[k], n);
    }
  }

  /** The responses of the requests that were answered at once; the others are still open. */
  ghost predicate Opened(intakes: seq<Intake>, responses: seq<Option<Res>>, n: nat) {
    && |responses| == |intakes|
    && forall i | 0 <= i < |intakes| ::
         responses[i] == if i < n && intakes[i].Answered? then Some(intakes[i].res) else None
  }

  function Intakes(p: Policy, raws: seq<string>): (r: seq<Intake>)
    ensures |r| == |raws| && forall i | 0 <= i < |raws| :: r[i] == Classify(p, i, raws[i])
  {
    seq(|raws|, i requires 0 <= i < |raws| => Classify(p, i, raws[i]))
  }

  /** The first loop: answers what can be answered and files the rest into batches. */
  method FileRequests(p: Policy, raws: seq<string>) returns (responses: seq<Option<Res>>, batches: Batches)
    ensures Filed(Intakes(p, raws), batches, |raws|) && Opened(Intakes(p, raws), responses, |raws|)
  {
    hide IsBatch, Classify;
    responses := seq(|raws|, _ => None);
    batches := map[];
    var ids: map<string, nat> := map[];
    ghost var intakes := Intakes(p, raws);
    for i := 0 to |raws|
      invariant Filed(intakes, batches, i) && Opened(intakes, responses, i)
      invariant forall id :: (if id in ids then ids[id] else 0) == CountId(intakes, id, i)
    {
      match Classify(p, i, raws[i])
      case Answered(res) =>
        FileNone(intakes, batches, i);
        responses := responses[i := Some(res)];
      case Dispatched(req, group) =>
        ids := ids[req.id := (if req.id in ids then ids[req.id] else 0) + 1];
        var key := (ids[req.id], group);
        assert key == (Rank(intakes, i), intakes[i].group);
        FileOne(intakes, batches, i);
        batches := batches[key := (if key in batches then batches[key] else []) + [Elem(req, i)]];
    }
  }

  /** Results by method and parameters.  A lookup may miss at any time. */
  class Cache {
    const cacheable: (string, string) -> bool
    var store: map<(string, string), Payload>

    constructor (cacheable: (string, string) -> bool)
      ensures this.cacheable == cacheable && store == map[]
    {
      this.cacheable, store := cacheable, map[];
    }

    /** Everything cached is a true result. */
    ghost predicate Sound(truth: Truth)
      reads this
    {
      forall k | k in store :: cacheable(k.0, k.1) && truth(k.0, k.1, store[k])
    }

    method GetRPC(req: Req, available: bool, ghost truth: Truth) returns (res: Option<Res>)
      requires Sound(truth)
      ensures res.Some? ==> res.value.id == req.id && Answers(truth, req, res.value.payload)
    {
      var key := (req.methodName, req.params);
      if available && cacheable(req.methodName, req.params) && key in store {
        return Some(Res(req.id, store[key]));
      }
      return None;
    }

    /** Keeps a result, under what was really asked. */
    method PutRPC(req: Req, res: Res, ghost truth: Truth)
      requires Sound(truth) && (cacheable(req.methodName, req.params) ==> Answers(truth, req, res.payload))
      modifies this
      ensures Sound(truth)
    {
      if cacheable(req.methodName, req.params) {
        store := store[(req.methodName, req.params) := res.payload];
      }
    }
  }

  /** The consensus never gives a result of its own for what the cache keeps. */
  ghost predicate CacheSafe(cache: Cache, rw: Rewriter) {
    forall r {:trigger rw(r)} | rw(r).Override? && rw(r).payload.Result? :: !cache.cacheable(r.methodName, r.params)
  }

  /** The consensus may move on between forwarded calls: the rewriter of call t. */
  type RewriterAt = nat -> Rewriter

  /** What a backend group does to requests, which errors a call with some requests may fail with, and which calls are
      made to it: those from `first` up to but not including `last`. */
  datatype Terms = Terms(rewriter: RewriterAt, fails: (nat, seq<Req>, ForwardError) -> bool, first: nat, last: nat)

  /** The request as it was sent, after any rewriting in place. */
  function Sent(rw: Rewriter, req: Req): Req {
    if rw(req).Pass? then rw(req).req else req
  }

  /** Whether a response may go into the slot of a dispatched request: an answer, an answer to the request as the
      consensus rewrote it in one of the calls made, the consensus's own response to such a call, or the error with
      which such a call fails that has the request among others. */
  ghost predicate SlotOk(truth: Truth, terms: Terms, req: Req, res: Res) {
    && res.id == req.id
    && (Answers(truth, req, res.payload)
        || (exists t: nat | terms.first <= t < terms.last :: ServedOne(truth, terms.rewriter(t), req, res))
        || (exists t: nat, reqs, e | terms.first <= t < terms.last && req in reqs ::
              terms.fails(t, reqs, e) && res.payload == Failure(ErrorCode(e))))
  }

  /** The slots of these requests, and no others, have been filled. */
  ghost predicate Filled(truth: Truth, terms: Terms, done: set<Elem>, before: seq<Option<Res>>,
                         after: seq<Option<Res>>) {
    && |after| == |before|
    && (forall e | e in done ::
         e.index < |after| && after[e.index].Some? && SlotOk(truth, terms, e.req, after[e.index].value))
    && (forall i | 0 <= i < |after| && (forall e | e in done :: e.index != i) :: after[i] == before[i])
  }

  /** The same terms with more calls. */
  ghost predicate Wider(terms: Terms, terms': Terms) {
    && terms' == terms.(first := terms'.first, last := terms'.last)
    && terms'.first <= terms.first && terms.last <= terms'.last
  }

  lemma FilledWider(truth: Truth, terms: Terms, terms': Terms, done: set<Elem>, before: seq<Option<Res>>,
                    after: seq<Option<Res>>)
    requires Filled(truth, terms, done, before, after) && Wider(terms, terms')
    ensures Filled(truth, terms', done, before, after)
  {
  }

  lemma NothingFilled(truth: Truth, terms: Terms, before: seq<Option<Res>>)
    ensures Filled(truth, terms, {}, before, before)
  {
  }

  /** A slot is written only while it is empty. */
  function SetSlot(responses: seq<Option<Res>>, index: nat, res: Res): seq<Option<Res>>
    requires index < |responses| && responses[index].None?
  {
    responses[index := Some(res)]
  }

  lemma FillOne(truth: Truth, terms: Terms, done: set<Elem>, before: seq<Option<Res>>, now: seq<Option<Res>>, e: Elem,
                res: Res)
    requires Filled(truth, terms, done, before, now) && (forall d | d in done :: d.index != e.index)
    requires e.index < |before| && before[e.index].None? && SlotOk(truth, terms, e.req, res)
    ensures now[e.index].None? && Filled(truth, terms, done + {e}, before, SetSlot(now, e.index, res))
  {
  }

  /** Increasing slots. */
  ghost predicate InOrder(elems: seq<Elem>, size: nat) {
    && (forall a | 0 <= a < |elems| :: elems[a].index < size)
    && (forall a, b | 0 <= a < b < |elems| :: elems[a].index < elems[b].index)
  }

  function ElemSet(elems: seq<Elem>): set<Elem> {
    set e | e in elems
  }

  /** Fills the slots of one mini-batch, and lets the cache learn. */
  method FillChunk(cache: Cache, elems: seq<Elem>, res: seq<Res>, responses: seq<Option<Res>>, sent: seq<Req>,
                   ghost truth: Truth, ghost terms: Terms)
    returns (out: seq<Option<Res>>)
    requires InOrder(elems, |responses|) && |res| == |sent| == |elems| && cache.Sound(truth)
    requires forall a | 0 <= a < |elems| ::
              responses[elems[a].index].None? && SlotOk(truth, terms, elems[a].req, res[a])
    requires forall a | 0 <= a < |elems| && res[a].payload.Result?
              && cache.cacheable(sent[a].methodName, sent[a].params) ::
               Answers(truth, sent[a], res[a].payload)
    modifies cache
    ensures cache.Sound(truth) && Filled(truth, terms, ElemSet(elems), responses, out)
  {
    hide Filled, SlotOk, Cache.Sound;
    out := responses;
    NothingFilled(truth, terms, responses);
    assert ElemSet(elems[..0]) == {};
    for a := 0 to |elems|
      invariant cache.Sound(truth) && Filled(truth, terms, ElemSet(elems[..a]), responses, out) && |out| == |responses|
    {
      assert ElemSet(elems[..a + 1]) == ElemSet(elems[..a]) + {elems[a]};
      FillOne(truth, terms, ElemSet(elems[..a]), responses, out, elems[a], res[a]);
      out := SetSlot(out, elems[a].index, res[a]);
      if res[a].payload.Result? {
        cache.PutRPC(sent[a], res[a], truth);
      }
    }
    assert elems[..|elems|] == elems;
  }

  /** What is asked of a backend group and its consensus. */
  ghost predicate GroupOk(cache: Cache, g: BackendGroup, rewrite: RewriterAt, truth: Truth) {
    && (forall b | b in g.backends :: Honest(truth, b))
    && (forall t: nat :: KeepsIds(rewrite(t)) && CacheSafe(cache, g.Effective(rewrite(t))))
  }

  /** Forwarding these requests in call t fails with the error. */
  ghost predicate CallFails(g: BackendGroup, rewrite: RewriterAt, isBatch: bool, t: nat, reqs: seq<Req>,
      e: ForwardError) {
    ForwardFails(g.backends, Kept(g.Effective(rewrite(t)), reqs), isBatch, e)
  }

  /** The terms of calls with requests among these. */
  ghost function EffectiveAt(g: BackendGroup, rewrite: RewriterAt, isBatch: bool, among: set<Req>, first: nat,
                             last: nat): Terms {
    Terms((t: nat) => g.Effective(rewrite(t)),
          (t: nat, reqs: seq<Req>, e: ForwardError) =>
            (forall r | r in reqs :: r in among) && CallFails(g, rewrite, isBatch, t, reqs, e),
          first, last)
  }

  datatype Progress = Going | Deadline | BadReceipts

  /** The response list for a mini-batch: what the group replied, or the error for each request. */
  method ForwardChunk(g: BackendGroup, reqs: seq<Req>, isBatch: bool, rewrite: RewriterAt, call: nat, cache: Cache,
                      ghost truth: Truth, ghost among: set<Req>)
    returns (res: seq<Res>, sent: seq<Req>, failed: bool)
    requires DistinctIds(reqs) && GroupOk(cache, g, rewrite, truth) && forall r | r in reqs :: r in among
    ensures failed ==> CallFails(g, rewrite, isBatch, call, reqs, BadReceiptsRequest)
    ensures !failed ==>
              && |res| == |sent| == |reqs|
              && (forall i | 0 <= i < |reqs| ::
                   SlotOk(truth, EffectiveAt(g, rewrite, isBatch, among, call, call + 1), reqs[i], res[i]))
              && (forall i | 0 <= i < |reqs| && res[i].payload.Result?
                   && cache.cacheable(sent[i].methodName, sent[i].params) ::
                    Answers(truth, sent[i], res[i].payload))
  {
    hide Honest, KeepsIds, DistinctIds, ForwardFails, Decides, Relays;
    var rw := g.Effective(rewrite(call));
    assert rw == EffectiveAt(g, rewrite, isBatch, among, call, call + 1).rewriter(call);
    var reply := g.Forward(reqs, isBatch, rewrite(call), truth);
    sent := seq(|reqs|, i requires 0 <= i < |reqs| => Sent(rw, reqs[i]));
    failed := false;
    match reply
    case Replied(r) =>
      res := r;
    case Refused(error) =>
      failed := error == BadReceiptsRequest;
      assert EffectiveAt(g, rewrite, isBatch, among, call, call + 1).fails(call, reqs, error);
      res := seq(|reqs|, i requires 0 <= i < |reqs| => Res(reqs[i].id, Failure(ErrorCode(error))));
  }

  /** The slots of these requests are empty, and each has its own. */
  ghost predicate Open(elems: set<Elem>, responses: seq<Option<Res>>) {
    && (forall e | e in elems :: e.index < |responses| && responses[e.index].None?)
    && (forall d, e | d in elems && e in elems && d != e :: d.index != e.index)
  }

  lemma FilledThen(truth: Truth, terms: Terms, done: set<Elem>, more: set<Elem>,
                   before: seq<Option<Res>>, mid: seq<Option<Res>>, after: seq<Option<Res>>)
    requires Filled(truth, terms, done, before, mid) && Filled(truth, terms, more, mid, after)
    requires forall d, e | d in done && e in more :: d.index != e.index
    ensures Filled(truth, terms, done + more, before, after)
  {
    forall e | e in done ensures after[e.index] == mid[e.index] {
    }
  }

  /** What is not filled yet is still open. */
  lemma StillOpen(truth: Truth, terms: Terms, done: set<Elem>, rest: set<Elem>, before: seq<Option<Res>>,
                  now: seq<Option<Res>>)
    requires Filled(truth, terms, done, before, now) && Open(done + rest, before) && done !! rest
    ensures Open(rest, now)
  {
    forall e | e in rest ensures e.index < |now| && now[e.index].None? {
      assert e in done + rest;
      forall d | d in done ensures d.index != e.index {
        assert d in done + rest && d != e;
      }
    }
  }

  lemma ElemSetAppend(elems: seq<Elem>, e: Elem)
    ensures ElemSet(elems + [e]) == ElemSet(elems) + {e}
  {
  }

  lemma InOrderAppend(elems: seq<Elem>, e: Elem, size: nat)
    requires InOrder(elems, size) && e.index < size && forall d | d in ElemSet(elems) :: d.index < e.index
    ensures InOrder(elems + [e], size)
  {
    forall a | 0 <= a < |elems| ensures elems[a].index < e.index {
      assert elems[a] in ElemSet(elems);
    }
  }

  /** The next element of a batch comes after all before it. */
  lemma NextElem(batch: seq<Elem>, a: nat, size: nat)
    requires InOrder(batch, size) && a < |batch|
    ensures batch[a].index < size && batch[a] in ElemSet(batch)
    ensures ElemSet(batch[..a + 1]) == ElemSet(batch[..a]) + {batch[a]}
    ensures forall d | d in ElemSet(batch[..a]) :: d.index < batch[a].index
  {
    assert batch[..a + 1] == batch[..a] + [batch[a]];
  }

  /** Takes out of a batch what the cache has. */
  method LookUp(cache: Cache, batch: seq<Elem>, available: nat -> bool, responses: seq<Option<Res>>, ghost truth: Truth,
                ghost terms: Terms)
    returns (out: seq<Option<Res>>, misses: seq<Elem>, cached: bool, ghost hits: set<Elem>)
    requires cache.Sound(truth) && InOrder(batch, |responses|) && Open(ElemSet(batch), responses)
    ensures InOrder(misses, |responses|) && hits + ElemSet(misses) == ElemSet(batch) && hits !! ElemSet(misses)
    ensures Filled(truth, terms, hits, responses, out)
  {
    hide Filled, Cache.Sound, Answers, ElemSet, InOrder, SetSlot;
    out, misses, cached, hits := responses, [], false, {};
    NothingFilled(truth, terms, responses);
    NoElems(|responses|);
    assert batch[..0] == [];
    for a := 0 to |batch|
      invariant InOrder(misses, |responses|) && Filled(truth, terms, hits, responses, out)
      invariant hits + ElemSet(misses) == ElemSet(batch[..a]) && hits !! ElemSet(misses)
    {
      var e := batch[a];
      NextElem(batch, a, |responses|);
      var res := cache.GetRPC(e.req, available(e.index), truth);
      if res.Some? {
        CachedIsOk(truth, terms, e.req, res.value);
        FillOne(truth, terms, hits, responses, out, e, res.value);
        FilledLength(truth, terms, hits, responses, out);
        out, cached, hits := SetSlot(out, e.index, res.value), true, hits + {e};
      } else {
        ElemSetAppend(misses, e);
        InOrderAppend(misses, e, |responses|);
        misses := misses + [e];
      }
    }
    assert batch[..|batch|] == batch;
  }

  lemma NoElems(size: nat)
    ensures ElemSet([]) == {} && InOrder([], size)
  {
  }

  lemma FilledLength(truth: Truth, terms: Terms, done: set<Elem>, before: seq<Option<Res>>, after: seq<Option<Res>>)
    requires Filled(truth, terms, done, before, after)
    ensures |after| == |before|
  {
  }

  lemma CachedIsOk(truth: Truth, terms: Terms, req: Req, res: Res)
    requires res.id == req.id && Answers(truth, req, res.payload)
    ensures SlotOk(truth, terms, req, res)
  {
  }

  /** Where mini-batch i starts, and the one before it ends, when len elements are split into pieces of `size`. */
  function PieceBound(i: nat, size: nat, len: nat): (b: nat)
    ensures b <= len
  {
    if i * size < len then i * size else len
  }

  lemma PieceBounds(i: nat, size: nat, len: nat)
    requires size > 0
    ensures var n := (len + size - 1) / size;
            && PieceBound(0, size, len) == 0 && PieceBound(n, size, len) == len
            && (i < n ==> PieceBound(i, size, len) == i * size < len
                          && PieceBound(i + 1, size, len) == if i * size + size < len then i * size + size else len)
  {
    var n := (len + size - 1) / size;
    if i < n {
      Multiples(i, n - 1, size);
    }
  }

  lemma Multiples(a: nat, b: nat, size: nat)
    requires a <= b
    ensures a * size <= b * size && (a + 1) * size == a * size + size
  {
  }

  lemma MissIdsDistinct(batch: seq<Elem>, misses: seq<Elem>, size: nat)
    requires DistinctIds(Requests(batch)) && InOrder(batch, size) && InOrder(misses, size)
    requires ElemSet(misses) <= ElemSet(batch)
    ensures DistinctIds(Requests(misses))
  {
    forall a, b | 0 <= a < b < |misses| ensures misses[a].req.id != misses[b].req.id {
      assert misses[a] in ElemSet(misses) && misses[b] in ElemSet(misses);
      var c :| 0 <= c < |batch| && batch[c] == misses[a];
      var d :| 0 <= d < |batch| && batch[d] == misses[b];
      assert c != d;
      assert Requests(batch)[c].id != Requests(batch)[d].id || d < c;
    }
  }

  /** The mini-batch misses[lo..hi] of a batch. */
  lemma Piece(misses: seq<Elem>, lo: nat, hi: nat, size: nat)
    requires InOrder(misses, size) && DistinctIds(Requests(misses)) && lo <= hi <= |misses|
    ensures InOrder(misses[lo..hi], size) && DistinctIds(Requests(misses[lo..hi]))
    ensures ElemSet(misses[..hi]) == ElemSet(misses[..lo]) + ElemSet(misses[lo..hi])
    ensures ElemSet(misses[..lo]) !! ElemSet(misses[lo..hi]) && ElemSet(misses[lo..hi]) <= ElemSet(misses)
  {
    assert misses[..hi] == misses[..lo] + misses[lo..hi];
    var elems := misses[lo..hi];
    forall a, b | 0 <= a < b < |elems| ensures Requests(elems)[a].id != Requests(elems)[b].id {
      assert Requests(misses)[lo + a].id != Requests(misses)[lo + b].id;
    }
  }

  lemma OpenAt(elems: seq<Elem>, responses: seq<Option<Res>>)
    requires Open(ElemSet(elems), responses)
    ensures forall a | 0 <= a < |elems| :: elems[a].index < |responses| && responses[elems[a].index].None?
  {
    forall a | 0 <= a < |elems| ensures elems[a].index < |responses| && responses[elems[a].index].None? {
      assert elems[a] in ElemSet(elems);
    }
  }

  /** Elements of the same open batch that are filled at different times have different slots. */
  lemma ApartInBatch(batch: set<Elem>, responses: seq<Option<Res>>, done: set<Elem>, more: set<Elem>)
    requires Open(batch, responses) && done <= batch && more <= batch && done !! more
    ensures forall d, e | d in done && e in more :: d.index != e.index
    ensures Open(done + more, responses)
  {
  }

  /** Forwards one mini-batch and fills its slots. */
  method ServeChunk(cache: Cache, g: BackendGroup, elems: seq<Elem>, isBatch: bool, rewrite: RewriterAt, call: nat,
                    responses: seq<Option<Res>>, ghost truth: Truth, ghost among: set<Req>)
    returns (out: seq<Option<Res>>, failed: bool)
    requires cache.Sound(truth) && GroupOk(cache, g, rewrite, truth) && forall r | r in Requests(elems) :: r in among
    requires InOrder(elems, |responses|) && DistinctIds(Requests(elems)) && Open(ElemSet(elems), responses)
    modifies cache
    ensures cache.Sound(truth)
    ensures failed ==> CallFails(g, rewrite, isBatch, call, Requests(elems), BadReceiptsRequest)
    ensures !failed ==> Filled(truth, EffectiveAt(g, rewrite, isBatch, among, call, call + 1), ElemSet(elems),
              responses, out)
  {
    hide Filled, Cache.Sound, SlotOk, InOrder, DistinctIds, Open, GroupOk, EffectiveAt, Answers, CallFails;
    var res, sent;
    out := responses;
    res, sent, failed := ForwardChunk(g, Requests(elems), isBatch, rewrite, call, cache, truth, among);
    if !failed {
      OpenAt(elems, responses);
      out := FillChunk(cache, elems, res, responses, sent, truth,
          EffectiveAt(g, rewrite, isBatch, among, call, call + 1));
    }
  }

  lemma RequestsAmong(elems: seq<Elem>, batch: seq<Elem>, among: set<Req>)
    requires ElemSet(elems) <= ElemSet(batch) && forall e | e in ElemSet(batch) :: e.req in among
    ensures forall r | r in Requests(elems) :: r in among
  {
    forall r | r in Requests(elems) ensures r in among {
      var a :| 0 <= a < |elems| && Requests(elems)[a] == r;
      assert elems[a] in ElemSet(elems);
    }
  }

  lemma MoreCalls(g: BackendGroup, rewrite: RewriterAt, isBatch: bool, among: set<Req>, first: nat, last: nat)
    requires first <= last
    ensures Wider(EffectiveAt(g, rewrite, isBatch, among, first, last),
              EffectiveAt(g, rewrite, isBatch, among, first, last + 1))
    ensures Wider(EffectiveAt(g, rewrite, isBatch, among, last, last + 1),
              EffectiveAt(g, rewrite, isBatch, among, first, last + 1))
  {
  }

  /** Serves one batch: from the cache where possible, the rest in mini-batches of at most `size`. */
  method ServeBatch(cache: Cache, g: BackendGroup, batch: seq<Elem>, size: nat, isBatch: bool, rewrite: RewriterAt,
                    calls: nat, available: nat -> bool, expired: nat -> bool, responses: seq<Option<Res>>,
                    ghost truth: Truth, ghost among: set<Req>)
    returns (out: seq<Option<Res>>, cached: bool, progress: Progress, calls': nat)
    requires size > 0 && cache.Sound(truth) && GroupOk(cache, g, rewrite, truth)
    requires forall e | e in ElemSet(batch) :: e.req in among
    requires InOrder(batch, |responses|) && DistinctIds(Requests(batch)) && Open(ElemSet(batch), responses)
    modifies cache
    ensures cache.Sound(truth)
    ensures calls <= calls'
    ensures progress == Going ==> Filled(truth, EffectiveAt(g, rewrite, isBatch, among, calls, calls'), ElemSet(batch),
              responses, out)
    ensures progress == Deadline ==> expired(calls')
    ensures progress == BadReceipts ==>
              && calls < calls'
              && exists elems ::
                   ElemSet(elems) <= ElemSet(batch)
                       && CallFails(g, rewrite, isBatch, calls' - 1, Requests(elems), BadReceiptsRequest)
  {
    hide Filled, Cache.Sound, SlotOk, InOrder, DistinctIds, Open, GroupOk, EffectiveAt, ElemSet, PieceBound;
    hide CallFails, Wider;
    ghost var hits;
    var misses;
    ghost var terms := EffectiveAt(g, rewrite, isBatch, among, calls, calls);
    out, misses, cached, hits := LookUp(cache, batch, available, responses, truth, terms);
    calls', progress := calls, Going;
    MissIdsDistinct(batch, misses, |responses|);
    PieceBounds(0, size, |misses|);
    NoElems(|responses|);
    assert misses[..0] == [] && hits + {} == hits;
    var numBatches := (|misses| + size - 1) / size;
    for i := 0 to numBatches
      invariant cache.Sound(truth) && calls <= calls' && terms == EffectiveAt(g, rewrite, isBatch, among, calls, calls')
      invariant Filled(truth, terms, hits + ElemSet(misses[..PieceBound(i, size, |misses|)]), responses, out)
    {
      if expired(calls') {
        progress := Deadline;
        return;
      }
      PieceBounds(i, size, |misses|);
      var start := i * size;
      var end := if start + size < |misses| then start + size else |misses|;
      Piece(misses, start, end, |responses|);
      ghost var done, more := hits + ElemSet(misses[..start]), ElemSet(misses[start..end]);
      Piece(misses, 0, start, |responses|);
      ApartInBatch(ElemSet(batch), responses, done, more);
      StillOpen(truth, terms, done, more, responses, out);
      FilledLength(truth, terms, done, responses, out);
      ghost var mid := out;
      RequestsAmong(misses[start..end], batch, among);
      var failed;
      out, failed := ServeChunk(cache, g, misses[start..end], isBatch, rewrite, calls', out, truth, among);
      calls' := calls' + 1;
      if failed {
        progress := BadReceipts;
        return;
      }
      terms := EffectiveAt(g, rewrite, isBatch, among, calls, calls');
      MoreCalls(g, rewrite, isBatch, among, calls, calls' - 1);
      FilledWider(truth, EffectiveAt(g, rewrite, isBatch, among, calls, calls' - 1), terms, done, responses, mid);
      FilledWider(truth, EffectiveAt(g, rewrite, isBatch, among, calls' - 1, calls'), terms, more, mid, out);
      FilledThen(truth, terms, done, more, responses, mid, out);
      assert done + more == hits + ElemSet(misses[..end]);
    }
    assert misses[..|misses|] == misses;
  }

  /** The terms on which batches were served. */
  type Dealings = map<(nat, string), Terms>

  /** The requests of the served batches have their responses; every other slot is as before. */
  ghost predicate BatchesServed(truth: Truth, terms: Dealings, batches: Batches, before: seq<Option<Res>>,
                                after: seq<Option<Res>>) {
    && |after| == |before|
    && (forall key, e | key in terms && key in batches && e in ElemSet(batches[key]) ::
          e.index < |after| && after[e.index].Some? && SlotOk(truth, terms[key], e.req, after[e.index].value))
    && (forall i | 0 <= i < |after|
         && (forall key, e | key in terms && key in batches && e in ElemSet(batches[key]) :: e.index != i) ::
          after[i] == before[i])
  }

  /** Batches have no slots in common. */
  lemma BatchesApart(intakes: seq<Intake>, batches: Batches, n: nat, key: (nat, string), key': (nat, string), e: Elem,
                     e': Elem)
    requires Filed(intakes, batches, n) && key in batches && key' in batches
    requires e in ElemSet(batches[key]) && e' in ElemSet(batches[key']) && (key != key' || e != e')
    ensures e.index != e'.index
  {
    assert IsBatch(intakes, key, batches[key], n) && IsBatch(intakes, key', batches[key'], n);
  }

  /** A batch that was filed starts with all its slots open. */
  lemma BatchOpen(intakes: seq<Intake>, batches: Batches, key: (nat, string), responses: seq<Option<Res>>)
    requires Filed(intakes, batches, |intakes|) && Opened(intakes, responses, |intakes|) && key in batches
    ensures InOrder(batches[key], |responses|) && DistinctIds(Requests(batches[key]))
    ensures Open(ElemSet(batches[key]), responses)
  {
    hide Rank;
    var batch := batches[key];
    assert IsBatch(intakes, key, batch, |intakes|);
    BatchIdsDistinct(intakes, key, batch, |intakes|);
  }

  /** Serving other batches leaves a batch open. */
  lemma BatchStillOpen(truth: Truth, terms: Dealings, intakes: seq<Intake>, batches: Batches, key: (nat, string),
                       before: seq<Option<Res>>, now: seq<Option<Res>>)
    requires Filed(intakes, batches, |intakes|) && key in batches && key !in terms
    requires BatchesServed(truth, terms, batches, before, now)
    requires Open(ElemSet(batches[key]), before)
    ensures Open(ElemSet(batches[key]), now)
  {
    hide SlotOk, Filed;
    forall e | e in ElemSet(batches[key]) ensures now[e.index] == before[e.index] {
      forall k, d | k in terms && k in batches && d in ElemSet(batches[k]) ensures d.index != e.index {
        BatchesApart(intakes, batches, |intakes|, k, key, d, e);
      }
    }
  }

  lemma ServedMore(truth: Truth, terms: Dealings, intakes: seq<Intake>, batches: Batches, key: (nat, string),
                   newTerms: Terms, before: seq<Option<Res>>, mid: seq<Option<Res>>, after: seq<Option<Res>>)
    requires Filed(intakes, batches, |intakes|) && key in batches && key !in terms
    requires BatchesServed(truth, terms, batches, before, mid)
    requires Filled(truth, newTerms, ElemSet(batches[key]), mid, after)
    ensures BatchesServed(truth, terms[key := newTerms], batches, before, after)
  {
    hide SlotOk, Filed, ElemSet;
    var terms' := terms[key := newTerms];
    forall k, d | k in terms' && k in batches && d in ElemSet(batches[k])
      ensures d.index < |after| && after[d.index].Some? && SlotOk(truth, terms'[k], d.req, after[d.index].value)
    {
      if k != key {
        forall e | e in ElemSet(batches[key]) ensures e.index != d.index {
          BatchesApart(intakes, batches, |intakes|, key, k, e, d);
        }
      }
    }
  }

  lemma ServedNone(truth: Truth, batches: Batches, before: seq<Option<Res>>)
    ensures BatchesServed(truth, map[], batches, before, before)
  {
  }

  /** A response list in which slot i is the response to request i, on the terms of its batch. */
  ghost predicate Demultiplexed(truth: Truth, terms: Dealings, intakes: seq<Intake>, responses: seq<Option<Res>>) {
    && |responses| == |intakes|
    && forall i | 0 <= i < |intakes| ::
         && responses[i].Some?
         && match intakes[i]
            case Answered(res) => responses[i].value == res
            case Dispatched(req, group) =>
              var key := (Rank(intakes, i), group);
              key in terms && SlotOk(truth, terms[key], req, responses[i].value)
  }

  lemma AllServed(truth: Truth, terms: Dealings, intakes: seq<Intake>, batches: Batches,
                  before: seq<Option<Res>>, after: seq<Option<Res>>)
    requires Filed(intakes, batches, |intakes|) && Opened(intakes, before, |intakes|)
    requires terms.Keys == batches.Keys && BatchesServed(truth, terms, batches, before, after)
    ensures Demultiplexed(truth, terms, intakes, after)
  {
    hide SlotOk, Rank;
    forall i | 0 <= i < |intakes|
      ensures after[i].Some?
      ensures intakes[i].Answered? ==> after[i].value == intakes[i].res
      ensures intakes[i].Dispatched? ==>
                var key := (Rank(intakes, i), intakes[i].group);
                key in terms && SlotOk(truth, terms[key], intakes[i].req, after[i].value)
    {
      if intakes[i].Dispatched? {
        var key := (Rank(intakes, i), intakes[i].group);
        assert Elem(intakes[i].req, i) in ElemSet(batches[key]);
      } else {
        forall key, e | key in batches && e in ElemSet(batches[key]) ensures e.index != i {
          assert IsBatch(intakes, key, batches[key], |intakes|);
        }
      }
    }
  }

  /** The requests sent to a group. */
  ghost function SentTo(intakes: seq<Intake>, group: string): set<Req> {
    set i | 0 <= i < |intakes| && intakes[i].Dispatched? && intakes[i].group == group :: intakes[i].req
  }

  /** The terms on which batch `key` is served in these calls. */
  ghost function DealOf(groups: map<string, BackendGroup>, rewrite: string -> RewriterAt, intakes: seq<Intake>,
                        isBatch: bool, key: (nat, string), first: nat, last: nat): Terms
    requires key.1 in groups
  {
    EffectiveAt(groups[key.1], rewrite(key.1), isBatch, SentTo(intakes, key.1), first, last)
  }

  /** Each batch was served by its group, in calls of its own among the first `calls`. */
  ghost predicate Dealt(groups: map<string, BackendGroup>, rewrite: string -> RewriterAt, intakes: seq<Intake>,
                        isBatch: bool, terms: Dealings, calls: nat) {
    && (forall key | key in terms ::
          && key.1 in groups && terms[key].first <= terms[key].last <= calls
          && terms[key] == DealOf(groups, rewrite, intakes, isBatch, key, terms[key].first, terms[key].last))
    && (forall key, key' | key in terms && key' in terms && key != key' ::
          terms[key].last <= terms[key'].first || terms[key'].last <= terms[key].first)
  }

  lemma DealtMore(groups: map<string, BackendGroup>, rewrite: string -> RewriterAt, intakes: seq<Intake>, isBatch: bool,
                  terms: Dealings, calls: nat, key: (nat, string), calls': nat)
    requires Dealt(groups, rewrite, intakes, isBatch, terms, calls) && key.1 in groups && calls <= calls'
    ensures var deal := DealOf(groups, rewrite, intakes, isBatch, key, calls, calls');
            Dealt(groups, rewrite, intakes, isBatch, terms[key := deal], calls')
  {
    hide DealOf;
    CallsOfDeal(groups, rewrite, intakes, isBatch, key, calls, calls');
  }

  lemma CallsOfDeal(groups: map<string, BackendGroup>, rewrite: string -> RewriterAt, intakes: seq<Intake>,
                    isBatch: bool, key: (nat, string), first: nat, last: nat)
    requires key.1 in groups
    ensures var deal := DealOf(groups, rewrite, intakes, isBatch, key, first, last);
            deal.first == first && deal.last == last
  {
  }

  lemma BatchSent(intakes: seq<Intake>, batches: Batches, key: (nat, string))
    requires Filed(intakes, batches, |intakes|) && key in batches
    ensures forall e | e in ElemSet(batches[key]) :: e.req in SentTo(intakes, key.1)
  {
    hide Rank;
    assert IsBatch(intakes, key, batches[key], |intakes|);
    forall e | e in ElemSet(batches[key]) ensures e.req in SentTo(intakes, key.1) {
      assert intakes[e.index] == Dispatched(e.req, key.1);
    }
  }

  /** Requests of one group, as the client sent them, that cannot be forwarded for a receipts request. */
  ghost predicate BatchRefused(groups: map<string, BackendGroup>, rewrite: string -> RewriterAt, intakes: seq<Intake>,
                               isBatch: bool) {
    exists group, t, reqs ::
      && group in groups && CallFails(groups[group], rewrite(group), isBatch, t, reqs, BadReceiptsRequest)
      && forall r | r in reqs :: Dispatched(r, group) in intakes
  }

  lemma RefusedInBatch(groups: map<string, BackendGroup>, rewrite: string -> RewriterAt, intakes: seq<Intake>,
                       batches: Batches, key: (nat, string), elems: seq<Elem>, t: nat, isBatch: bool)
    requires Filed(intakes, batches, |intakes|) && key in batches && key.1 in groups
    requires ElemSet(elems) <= ElemSet(batches[key])
    requires CallFails(groups[key.1], rewrite(key.1), isBatch, t, Requests(elems), BadReceiptsRequest)
    ensures BatchRefused(groups, rewrite, intakes, isBatch)
  {
    hide CallFails, Rank;
    assert IsBatch(intakes, key, batches[key], |intakes|);
    var reqs := Requests(elems);
    forall r | r in reqs ensures Dispatched(r, key.1) in intakes {
      var a :| 0 <= a < |reqs| && reqs[a] == r;
      assert elems[a] in ElemSet(elems);
      assert intakes[elems[a].index] == Dispatched(r, key.1);
    }
  }

  datatype BatchResult = Responses(responses: seq<Option<Res>>, cached: bool) | DeadlineExceeded | BadReceiptsBatch

  class Server {
    const policy: Policy
    const groups: map<string, BackendGroup>
    const maxUpstreamBatchSize: nat
    const cache: Cache

    constructor (policy: Policy, groups: map<string, BackendGroup>, maxUpstreamBatchSize: nat, cache: Cache)
      ensures this.policy == policy && this.groups == groups && this.maxUpstreamBatchSize == maxUpstreamBatchSize
      ensures this.cache == cache
    {
      this.policy, this.groups := policy, groups;
      this.maxUpstreamBatchSize, this.cache := maxUpstreamBatchSize, cache;
    }

    predicate IsHealthCheck(raws: seq<string>) {
      |raws| == 1 && policy.parse(raws[0]).Some? && policy.parse(raws[0]).value.methodName == HEALTHZ_METHOD
    }

    /** A successful batch has in slot i the response to request i, whatever ids repeat, wherever requests are sent,
        whichever are cached and in whatever order the batches are served; and the cache only learns true results.  It
        fails only when the deadline has passed before a call, or when a group cannot forward a receipts request. */
    method HandleBatchRPC(raws: seq<string>, isBatch: bool, rewrite: string -> RewriterAt, available: nat -> bool,
                          expired: nat -> bool, ghost truth: Truth)
      returns (result: BatchResult, calls: nat, ghost terms: Dealings)
      requires maxUpstreamBatchSize > 0 && cache.Sound(truth) && policy.groupOf.Values <= groups.Keys
      requires forall group | group in groups :: GroupOk(cache, groups[group], rewrite(group), truth)
      modifies cache
      ensures cache.Sound(truth)
      ensures IsHealthCheck(raws) ==>
                result == Responses([Some(Res(policy.parse(raws[0]).value.id, Result("OK")))], false)
      ensures !IsHealthCheck(raws) && result.Responses? ==>
                && Demultiplexed(truth, terms, Intakes(policy, raws), result.responses)
                && Dealt(groups, rewrite, Intakes(policy, raws), isBatch, terms, calls)
      ensures result.DeadlineExceeded? ==> expired(calls)
      ensures result.BadReceiptsBatch? ==> BatchRefused(groups, rewrite, Intakes(policy, raws), isBatch)
    {
      hide Filed, Opened, BatchesServed, Filled, Demultiplexed, GroupOk, Open, InOrder, DistinctIds, ElemSet;
      hide Cache.Sound, Classify, EffectiveAt, Dealt, CallFails, BatchRefused, Intakes, Requests;
      calls, terms := 0, map[];
      if IsHealthCheck(raws) {
        result := Responses([Some(Res(policy.parse(raws[0]).value.id, Result("OK")))], false);
        return;
      }
      var responses, batches := FileRequests(policy, raws);
      ghost var intakes, initial := Intakes(policy, raws), responses;
      var rest, cached := batches.Keys, false;
      ServedNone(truth, batches, responses);
      DealtNone(groups, rewrite, intakes, isBatch);
      while rest != {}
        invariant terms.Keys !! rest && terms.Keys + rest == batches.Keys && cache.Sound(truth)
        invariant BatchesServed(truth, terms, batches, initial, responses)
                  && Dealt(groups, rewrite, intakes, isBatch, terms, calls)
      {
        var key :| key in rest;
        GroupKnown(policy, raws, batches, key);
        BatchOpen(intakes, batches, key, initial);
        BatchStillOpen(truth, terms, intakes, batches, key, initial, responses);
        ServedLength(truth, terms, batches, initial, responses);
        BatchSent(intakes, batches, key);
        ghost var before, calls0 := responses, calls;
        var hit, progress;
        var g := groups[key.1];
        responses, hit, progress, calls :=
          ServeBatch(cache, g, batches[key], maxUpstreamBatchSize, isBatch, rewrite(key.1), calls, available, expired,
              responses, truth, SentTo(intakes, key.1));
        cached := cached || hit;
        match progress
        case Deadline =>
          result := DeadlineExceeded;
          return;
        case BadReceipts =>
          ghost var elems :| ElemSet(elems) <= ElemSet(batches[key])
            && CallFails(g, rewrite(key.1), isBatch, calls - 1, Requests(elems), BadReceiptsRequest);
          RefusedInBatch(groups, rewrite, intakes, batches, key, elems, calls - 1, isBatch);
          result := BadReceiptsBatch;
          return;
        case Going =>
        ghost var newTerms := DealOf(groups, rewrite, intakes, isBatch, key, calls0, calls);
        ServedMore(truth, terms, intakes, batches, key, newTerms, initial, before, responses);
        DealtMore(groups, rewrite, intakes, isBatch, terms, calls0, key, calls);
        rest, terms := rest - {key}, terms[key := newTerms];
      }
      assert terms.Keys == batches.Keys;
      AllServed(truth, terms, intakes, batches, initial, responses);
      result := Responses(responses, cached);
    }
  }

  lemma DealtNone(groups: map<string, BackendGroup>, rewrite: string -> RewriterAt, intakes: seq<Intake>, isBatch: bool)
    ensures Dealt(groups, rewrite, intakes, isBatch, map[], 0)
  {
  }

  lemma ServedLength(truth: Truth, terms: Dealings, batches: Batches, before: seq<Option<Res>>, after: seq<Option<Res>>)
    requires BatchesServed(truth, terms, batches, before, after)
    ensures |after| == |before|
  {
  }

  /** Batches are only made for configured groups. */
  lemma GroupKnown(p: Policy, raws: seq<string>, batches: Batches, key: (nat, string))
    requires Filed(Intakes(p, raws), batches, |raws|) && key in batches
    ensures key.1 in p.groupOf.Values
  {
    assert IsBatch(Intakes(p, raws), key, batches[key], |raws|);
    var i := batches[key][0].index;
    assert Intakes(p, raws)[i] == Classify(p, i, raws[i]);
  }
}
