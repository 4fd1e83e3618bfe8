/** Expiry whatever the order in which the queue holds the commitments of one block (op-plasma/dastate.go): the heap
    keeps the lowest block first and promises nothing more. */
module ExpiryOrders {
  import opened Bytes
  import opened CommQueue
  import opened Challenges

  /** The same commitments, queued in another order. */
  ghost predicate Reordered(l: Ledger, l0: Ledger) {
    && l0.book == l.book && l0.finalized == l.finalized && Queued(l0)
    && forall k :: k in l0.active <==> k in l.active
  }

  /** Each key is tracked and comes once; the blocks go up. */
  ghost predicate Sorted(b: Book, s: seq<Key>) {
    && (forall i | 0 <= i < |s| :: s[i] in b)
    && (forall i, j | 0 <= i < j < |s| :: s[i] != s[j] && b[s[i]].blockNumber <= b[s[j]].blockNumber)
  }

  /** Key k comes before everything that is not of a lower block. */
  ghost predicate Leads(b: Book, s: seq<Key>, k: Key)
    requires Sorted(b, s)
  {
    exists i :: 0 <= i < |s| && s[i] == k && forall j | 0 <= j < i :: b[s[j]].blockNumber < b[k].blockNumber
  }

  /** The keys of s with k put in at place p. */
  function PutIn(s: seq<Key>, k: Key, p: nat): (r: seq<Key>)
    requires p <= |s|
    ensures |r| == |s| + 1
  {
    s[..p] + [k] + s[p..]
  }

  lemma PutInAt(s: seq<Key>, k: Key, p: nat, j: nat)
    requires p <= |s| && j <= |s|
    ensures PutIn(s, k, p)[j] == if j < p then s[j] else if j == p then k else s[j - 1]
  {
  }

  lemma PutInKeys(s: seq<Key>, k: Key, p: nat)
    requires p <= |s|
    ensures forall x :: x in PutIn(s, k, p) <==> x == k || x in s
  {
    assert s == s[..p] + s[p..];
  }

  lemma InsertedAt(b: Book, s: seq<Key>, k: Key, p: nat)
    requires Sorted(b, s) && k in b && k !in s && p <= |s|
    requires forall j | 0 <= j < p :: b[s[j]].blockNumber < b[k].blockNumber
    requires p < |s| ==> b[k].blockNumber <= b[s[p]].blockNumber
    ensures Sorted(b, PutIn(s, k, p)) && Leads(b, PutIn(s, k, p), k)
  {
    hide PutIn;
    var r := PutIn(s, k, p);
    forall j | p <= j < |s| ensures b[k].blockNumber <= b[s[j]].blockNumber {
    }
    forall j | 0 <= j < |r| ensures r[j] in b {
      PutInAt(s, k, p, j);
    }
    forall i, j | 0 <= i < j < |r| ensures r[i] != r[j] && b[r[i]].blockNumber <= b[r[j]].blockNumber {
      PutInAt(s, k, p, i);
      PutInAt(s, k, p, j);
    }
    PutInAt(s, k, p, p);
    forall j | 0 <= j < p ensures b[r[j]].blockNumber < b[k].blockNumber {
      PutInAt(s, k, p, j);
    }
  }

  lemma Insert(b: Book, s: seq<Key>, k: Key) returns (r: seq<Key>)
    requires Sorted(b, s) && k in b && k !in s
    ensures Sorted(b, r) && Leads(b, r, k) && forall x :: x in r <==> x == k || x in s
  {
    var p := 0;
    while p < |s| && b[s[p]].blockNumber < b[k].blockNumber
      invariant p <= |s| && forall j | 0 <= j < p :: b[s[j]].blockNumber < b[k].blockNumber
    {
      p := p + 1;
    }
    InsertedAt(b, s, k, p);
    PutInKeys(s, k, p);
    r := PutIn(s, k, p);
  }

  lemma {:induction false} Sort(b: Book, ks: set<Key>) returns (s: seq<Key>)
    requires ks <= b.Keys
    ensures Sorted(b, s) && forall x :: x in s <==> x in ks
  {
    hide Sorted;
    s := [];
    if ks == {} {
      SortedNone(b);
    } else {
      var k :| k in ks;
      var rest := Sort(b, ks - {k});
      s := Insert(b, rest, k);
    }
  }

  lemma SortedNone(b: Book)
    ensures Sorted(b, [])
  {
  }

  /** A queue order, sorted, in which k comes before all others of its block. */
  lemma OrderWith(l: Ledger, k: Key) returns (l0: Ledger)
    requires Queued(l) && k in l.active
    ensures Reordered(l, l0) && Sorted(l0.book, l0.active) && Leads(l0.book, l0.active, k)
  {
    var rest := Sort(l.book, (set x | x in l.active) - {k});
    var s := Insert(l.book, rest, k);
    l0 := l.(active := s);
    SortedQueued(l0);
  }

  lemma SortedQueued(l: Ledger)
    requires Sorted(l.book, l.active)
    ensures Queued(l)
  {
  }

  lemma SortedTail(b: Book, s: seq<Key>)
    requires Sorted(b, s) && s != []
    ensures Sorted(b, s[1..]) && s[0] !in s[1..] && forall x :: x in s <==> x == s[0] || x in s[1..]
  {
    assert s == [s[0]] + s[1..];
  }

  lemma SortedFrom(b: Book, s: seq<Key>, n: nat)
    requires Sorted(b, s) && n <= |s|
    ensures Sorted(b, s[n..])
  {
  }

  /** Only the block numbers matter. */
  lemma SortedBy(b: Book, b': Book, s: seq<Key>)
    requires Sorted(b, s) && forall k | k in s :: k in b' && (k in b ==> b'[k].blockNumber == b[k].blockNumber)
    ensures Sorted(b', s)
  {
  }

  /** The loop over a sorted queue: what moves is a prefix of it, in which nothing follows a canonical commitment of its
      block. */
  ghost predicate Outcome(l: Ledger, bn: DWord, n: nat, l': Ledger)
    requires Sorted(l.book, l.active)
  {
    && n <= |l.active| && l'.active == l.active[n..]
    && forall i, j | 0 <= i < j < n && l.book[l.active[i]].canonical ::
         l.book[l.active[i]].blockNumber < l.book[l.active[j]].blockNumber
  }

  lemma OutcomeStep(l: Ledger, bn: DWord, n: nat, l1: Ledger, reorg: bool) returns (l2: Ledger, reorg': bool)
    requires Queued(l) && Sorted(l.book, l.active) && Outcome(l, bn, n, l1)
    requires Expiring(l, bn, l1, reorg) && !Blocked(l1, bn)
    ensures n < |l.active| && Outcome(l, bn, n + 1, l2) && Expiring(l, bn, l2, reorg')
    ensures Moved(l, l2, l.active[0])
  {
    hide Sorted, Expiring;
    StillQueued(l, bn, l1, reorg);
    var k := l1.active[0];
    var i := l1.book[k];
    assert k == l.active[n] && l1.active[1..] == l.active[n + 1..];
    l2 := Ledger(l1.book[k := Expire(i)], l1.active[1..], if i.canonical then i.blockNumber else l1.finalized);
    reorg' := reorg || (i.canonical && i.status.Active?);
    FirstOfSorted(l, n, l1, l2);
    CanonicalBelow(l, bn, n, l1, reorg);
    ExpiringStep(l, bn, l1, reorg, l2, reorg');
    FirstMoved(l, bn, n + 1, l2);
  }

  lemma CanonicalBelow(l: Ledger, bn: DWord, n: nat, l1: Ledger, reorg: bool)
    requires Sorted(l.book, l.active) && Outcome(l, bn, n, l1) && n < |l.active|
    requires Expiring(l, bn, l1, reorg) && !Blocked(l1, bn)
    ensures Outcome(l, bn, n + 1, l1.(active := l1.active[1..]))
  {
    StillQueued(l, bn, l1, reorg);
    forall m | 0 <= m < n && l.book[l.active[m]].canonical
      ensures l.book[l.active[m]].blockNumber < l.book[l.active[n]].blockNumber
    {
      StaysOut(l, n, m);
      assert Moved(l, l1, l.active[m]);
    }
  }

  lemma FirstMoved(l: Ledger, bn: DWord, n: nat, l': Ledger)
    requires Sorted(l.book, l.active) && Outcome(l, bn, n, l') && 0 < n
    ensures Moved(l, l', l.active[0])
  {
    StaysOut(l, n, 0);
  }

  lemma FirstOfSorted(l: Ledger, n: nat, l1: Ledger, l2: Ledger)
    requires Sorted(l.book, l.active) && OnlyMoves(l, l1) && n < |l.active| && l1.active == l.active[n..]
    requires l.active[n] in l1.book
    requires var k := l.active[n];
             var i := l1.book[k];
             l2 == Ledger(l1.book[k := Expire(i)], l1.active[1..], if i.canonical then i.blockNumber else l1.finalized)
    ensures MovesFirst(l1, l2)
  {
    hide Sorted;
    SortedFrom(l.book, l.active, n);
    SortedTail(l.book, l1.active);
    SortedBy(l.book, l2.book, l2.active);
    SortedQueued(l2);
  }

  /** A sorted queue has an outcome. */
  lemma SomeOutcome(l: Ledger, bn: DWord) returns (n: nat, l': Ledger, reorg: bool)
    requires Queued(l) && Sorted(l.book, l.active)
    ensures Expiry(l, bn, l', reorg) && Outcome(l, bn, n, l')
  {
    hide Expiring, Blocked;
    n, l', reorg := 0, l, false;
    NothingExpired(l, bn);
    while !Blocked(l', bn)
      invariant Queued(l') && Outcome(l, bn, n, l') && Expiring(l, bn, l', reorg)
      invariant l' == l || (l.active != [] && !Blocked(l, bn) && Moved(l, l', l.active[0]))
      decreases |l.active| - n
    {
      l', reorg := OutcomeStep(l, bn, n, l', reorg);
      n := n + 1;
      StillQueued(l, bn, l', reorg);
    }
  }

  lemma StillQueued(l: Ledger, bn: DWord, l': Ledger, reorg: bool)
    requires Expiring(l, bn, l', reorg)
    ensures OnlyMoves(l, l') && Queued(l')
  {
  }

  /** Some order and outcome leave the due commitment k behind. */
  ghost predicate CanStay(l: Ledger, bn: DWord, k: Key) {
    exists l0, l', reorg :: Reordered(l, l0) && Expiry(l0, bn, l', reorg) && k in l'.active
  }

  lemma StuckStays(l: Ledger, bn: DWord, k: Key)
    requires Queued(l) && Stuck(l, k)
    ensures CanStay(l, bn, k)
  {
    NothingExpired(l, bn);
    assert Blocked(l, bn);
    assert Expiry(l, bn, l, false) && Reordered(l, l);
  }

  /** The leading commitment stands before all others that are not of a lower block. */
  lemma LeadsBefore(b: Book, s: seq<Key>, lead: Key, k: Key) returns (i: nat, j: nat)
    requires Sorted(b, s) && Leads(b, s, lead) && k in s && k in b && lead in b && k != lead
    requires b[lead].blockNumber <= b[k].blockNumber
    ensures i < j < |s| && s[i] == lead && s[j] == k
  {
    i :| 0 <= i < |s| && s[i] == lead && forall m | 0 <= m < i :: b[s[m]].blockNumber < b[lead].blockNumber;
    j :| 0 <= j < |s| && s[j] == k;
  }

  /** A commitment that does not move, or is canonical and of the same block, holds the loop up. */
  lemma HeldUp(l: Ledger, bn: DWord, n: nat, l': Ledger, reorg: bool, i: nat, j: nat)
    requires Queued(l) && Sorted(l.book, l.active) && Expiry(l, bn, l', reorg) && Outcome(l, bn, n, l')
    requires i < j < |l.active|
    requires var lead, k := l.active[i], l.active[j];
             !Due(l, lead, bn) || (l.book[lead].canonical && l.book[lead].blockNumber == l.book[k].blockNumber)
    ensures l.active[j] in l'.active
  {
    if i < n {
      StaysOut(l, n, i);
    }
    if j >= n {
      assert l'.active[j - n] == l.active[j];
    }
  }

  /** What follows the leading commitment of its block, or is of a higher block, stays when that one holds the loop
      up. */
  lemma BehindStays(l: Ledger, bn: DWord, lead: Key, k: Key)
    requires Queued(l) && lead in l.active && k in l.active && k != lead
    requires l.book[lead].blockNumber <= l.book[k].blockNumber
    requires !Due(l, lead, bn) || (l.book[lead].canonical && l.book[lead].blockNumber == l.book[k].blockNumber)
    ensures CanStay(l, bn, k)
  {
    hide Sorted, Leads, Outcome, Expiry;
    var l0 := OrderWith(l, lead);
    var n, l', reorg := SomeOutcome(l0, bn);
    var i, j := LeadsBefore(l0.book, l0.active, lead, k);
    HeldUp(l0, bn, n, l', reorg, i, j);
  }

  lemma StaysOut(l: Ledger, n: nat, i: nat)
    requires Sorted(l.book, l.active) && i < n <= |l.active|
    ensures l.active[i] !in l.active[n..]
  {
  }

  /** Every due commitment leaves, whatever the order within blocks, exactly when each is above the finalized head and
      in a lower block than what is not due, and each due canonical one has a block of its own among those. */
  lemma DueLeaveInAnyOrder(l: Ledger, bn: DWord)
    requires Queued(l)
    ensures (forall l0, l', reorg | Reordered(l, l0) && Expiry(l0, bn, l', reorg) :: AllDueLeave(l0, bn, l'))
       <==> DueFirst(l, bn) && CanonicalAlone(l, bn)
  {
    hide Expiry, CanStay, Queued;
    if DueFirst(l, bn) && CanonicalAlone(l, bn) {
      forall l0, l', reorg | Reordered(l, l0) && Expiry(l0, bn, l', reorg) ensures AllDueLeave(l0, bn, l') {
        SameDue(l, l0, bn);
        DueLeave(l0, bn, l', reorg);
      }
    } else {
      var k := SomeCanStay(l, bn);
      StayingIsBad(l, bn, k);
    }
  }

  lemma SameDue(l: Ledger, l0: Ledger, bn: DWord)
    requires Reordered(l, l0) && DueFirst(l, bn) && CanonicalAlone(l, bn)
    ensures DueFirst(l0, bn) && CanonicalAlone(l0, bn)
  {
    assert forall k :: Due(l0, k, bn) <==> Due(l, k, bn);
    assert forall k :: Stuck(l0, k) <==> Stuck(l, k);
  }

  lemma SomeCanStay(l: Ledger, bn: DWord) returns (k: Key)
    requires Queued(l) && !(DueFirst(l, bn) && CanonicalAlone(l, bn))
    ensures Due(l, k, bn) && CanStay(l, bn, k)
  {
    hide CanStay, Queued;
    if x :| Due(l, x, bn) && Stuck(l, x) {
      k := x;
      StuckStays(l, bn, k);
    } else if x, j :| Due(l, x, bn) && j in l.active && j in l.book && !Due(l, j, bn)
                      && l.book[x].blockNumber >= l.book[j].blockNumber {
      k := x;
      BehindStays(l, bn, j, k);
    } else {
      var x, j :| Due(l, x, bn) && Due(l, j, bn) && x != j && l.book[x].canonical
        && l.book[x].blockNumber == l.book[j].blockNumber;
      k := j;
      BehindStays(l, bn, x, k);
    }
  }

  lemma StayingIsBad(l: Ledger, bn: DWord, k: Key)
    requires Due(l, k, bn) && CanStay(l, bn, k)
    ensures exists l0, l', reorg :: Reordered(l, l0) && Expiry(l0, bn, l', reorg) && !AllDueLeave(l0, bn, l')
  {
    var l0, l', reorg :| Reordered(l, l0) && Expiry(l0, bn, l', reorg) && k in l'.active;
    assert Due(l0, k, bn);
    assert !AllDueLeave(l0, bn, l');
  }
}
