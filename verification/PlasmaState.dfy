/** The challenge state: two queues and an index over shared, mutable commitments (op-plasma/dastate.go). */
module PlasmaState {
  import opened Alu
  import opened Bytes
  import opened CommQueue
  import opened Challenges
  import opened Multisets

  class State {
    var activeComms: Queue
    var expiredComms: Queue
    var commsByKey: map<Key, Commitment>
    var finalized: DWord

    /** The index is exactly the disjoint union of the two queues, each commitment under its own key, and both queues
        are heaps by block number. */
    ghost predicate Valid()
      reads this
    {
      && IsHeap(activeComms) && IsHeap(expiredComms)
      && (forall k | k in commsByKey :: commsByKey[k].key == k)
      && multiset(activeComms) + multiset(expiredComms) == multiset(commsByKey.Values)
    }

    ghost function Book(): Challenges.Book
      reads this`commsByKey, commsByKey.Values
    {
      map k | k in commsByKey :: InfoOf(commsByKey[k])
    }

    ghost function Ledger(): Challenges.Ledger
      reads this`commsByKey, this`activeComms, this`finalized, commsByKey.Values
    {
      Challenges.Ledger(Book(), Keys(activeComms), finalized)
    }

    constructor ()
      ensures Valid() && Ledger() == Challenges.Ledger(map[], [], 0)
    {
      activeComms, expiredComms, commsByKey, finalized := [], [], map[], 0;
    }

    lemma BookKeys()
      ensures Book().Keys == commsByKey.Keys
    {
    }

    lemma BookAt(key: Key)
      requires key in commsByKey
      ensures key in Book() && Book()[key] == InfoOf(commsByKey[key])
    {
    }

    /** Pushes a new commitment and indexes it. */
    method Add(c: Commitment)
      requires Valid() && c.key !in commsByKey
      modifies this`activeComms, this`commsByKey
      ensures Valid() && commsByKey == old(commsByKey)[c.key := c]
      ensures forall x :: x in Keys(activeComms) <==> x in Keys(old(activeComms)) || x == c.key
    {
      NewValue(commsByKey, c);
      ghost var before := activeComms;
      activeComms := Push(activeComms, c);
      commsByKey := commsByKey[c.key := c];
      KeysAfterPush(before, activeComms, c);
    }

    /** Whether a challenge of key at bn is one to follow; an unknown key is tracked in advance. */
    method IsTracking(key: Key, bn: DWord) returns (tracking: bool)
      requires Valid()
      modifies this`activeComms, this`commsByKey
      ensures Valid() && fresh(commsByKey.Values - old(commsByKey.Values))
      ensures tracking == Follows(old(Book()), key, bn) && Does(old(Ledger()), Track(key, bn), Ledger())
      ensures key in old(commsByKey) ==> activeComms == old(activeComms) && commsByKey == old(commsByKey)
    {
      if key in commsByKey {
        return commsByKey[key].blockNumber == bn;
      }
      TrackDetachedCommitment(key, bn);
      return true;
    }

    method TrackDetachedCommitment(key: Key, bn: DWord)
      requires Valid() && key !in commsByKey
      modifies this`activeComms, this`commsByKey
      ensures Valid() && fresh(commsByKey.Values - old(commsByKey.Values))
      ensures Does(old(Ledger()), Track(key, bn), Ledger())
    {
      var c := new Commitment(key, bn, bn, false);
      Add(c);
    }

    method SetActiveChallenge(key: Key, challengedAt: DWord, resolveWindow: DWord)
      requires Valid()
      modifies if key in commsByKey then {commsByKey[key]} else {}
      ensures Valid() && Does(old(Ledger()), Judge(key, Challenge, challengedAt, resolveWindow), Ledger())
    {
      if key in commsByKey {
        var c := commsByKey[key];
        c.expiresAt := AddD(challengedAt, resolveWindow);
        c.challengeStatus := Active;
      }
    }

    method SetResolvedChallenge(key: Key, input: seq<Byte>, resolvedAt: DWord)
      requires Valid()
      modifies if key in commsByKey then {commsByKey[key]} else {}
      ensures Valid() && Does(old(Ledger()), Judge(key, Resolve(input), resolvedAt, 0), Ledger())
    {
      if key in commsByKey {
        var c := commsByKey[key];
        c.challengeStatus := Resolved;
        c.expiresAt := resolvedAt;
        c.input := input;
      }
    }

    method SetInputCommitment(key: Key, committedAt: DWord, challengeWindow: DWord) returns (c: Commitment)
      requires Valid() && key !in commsByKey
      modifies this`activeComms, this`commsByKey
      ensures Valid() && fresh(commsByKey.Values - old(commsByKey.Values))
      ensures key in commsByKey && c == commsByKey[key]
      ensures Does(old(Ledger()), Derive(key, committedAt, challengeWindow), Ledger())
    {
      c := new Commitment(key, AddD(committedAt, challengeWindow), committedAt, true);
      Add(c);
    }

    method GetOrTrackChallenge(key: Key, bn: DWord, challengeWindow: DWord) returns (c: Commitment)
      requires Valid()
      modifies this`activeComms, this`commsByKey, if key in commsByKey then {commsByKey[key]} else {}
      ensures Valid() && fresh(commsByKey.Values - old(commsByKey.Values))
      ensures key in commsByKey && c == commsByKey[key]
      ensures Does(old(Ledger()), Derive(key, bn, challengeWindow), Ledger())
      ensures key in old(commsByKey) ==> activeComms == old(activeComms) && commsByKey == old(commsByKey)
    {
      if key in commsByKey {
        c := commsByKey[key];
        c.canonical := true;  // it may have been introduced by a challenge event
        return;
      }
      c := SetInputCommitment(key, bn, challengeWindow);
    }

    lemma LedgerQueued()
      requires Valid()
      ensures Queued(Ledger())
    {
      var l := Ledger();
      forall i | 0 <= i < |l.active| ensures l.active[i] in l.book {
        Indexed(activeComms, expiredComms, commsByKey, activeComms[i]);
      }
      forall i, j | 0 <= i < j < |l.active| ensures l.active[i] != l.active[j] {
        Indexed(activeComms, expiredComms, commsByKey, activeComms[i]);
        Indexed(activeComms, expiredComms, commsByKey, activeComms[j]);
        NoTwins(activeComms, expiredComms, commsByKey.Values, i, j);
      }
      forall i | 0 <= i < |l.active| ensures l.book[l.active[0]].blockNumber <= l.book[l.active[i]].blockNumber {
        Indexed(activeComms, expiredComms, commsByKey, activeComms[0]);
        Indexed(activeComms, expiredComms, commsByKey, activeComms[i]);
        FirstIsLowest(activeComms, i);
      }
    }

    lemma FirstOfLedger()
      requires Valid() && activeComms != []
      ensures activeComms[0] in commsByKey.Values && Ledger().active[0] == activeComms[0].key
      ensures Ledger().active[0] in Ledger().book
      ensures Ledger().book[Ledger().active[0]] == InfoOf(activeComms[0])
    {
      Indexed(activeComms, expiredComms, commsByKey, activeComms[0]);
    }

    /** The first active commitment joins the expired queue. */
    method MoveFirst() returns (c: Commitment)
      requires Valid() && activeComms != []
      modifies this`activeComms, this`expiredComms
      ensures Valid() && c == old(activeComms)[0] && |activeComms| == |old(activeComms)| - 1
      ensures c.key in commsByKey && commsByKey[c.key] == c
      ensures c.key !in Keys(activeComms)
      ensures forall x :: x in Keys(old(activeComms)) <==> x == c.key || x in Keys(activeComms)
    {
      Indexed(activeComms, expiredComms, commsByKey, activeComms[0]);
      ghost var before := activeComms;
      activeComms, c := Pop(activeComms);
      expiredComms := Push(expiredComms, c);
      assert c in multiset(expiredComms);
      KeysAfterPop(before, activeComms, expiredComms, commsByKey, c);
    }

    /** Marks a commitment that leaves the active queue; only what was derived as part of the canonical chain
        finalizes. */
    method Retire(c: Commitment) returns (reorg: bool)
      requires Valid() && c.key in commsByKey && commsByKey[c.key] == c
      modifies this`finalized, c
      ensures Valid() && reorg == (old(InfoOf(c)).canonical && old(InfoOf(c)).status.Active?)
      ensures Book() == old(Book())[c.key := Expire(old(InfoOf(c)))]
      ensures finalized == if old(InfoOf(c)).canonical then c.blockNumber else old(finalized)
    {
      hide IsHeap;
      if c.canonical {
        finalized := c.blockNumber;
      }
      reorg := false;
      if c.challengeStatus == Active {
        c.challengeStatus := Expired;  // so it is skipped in the derivation pipeline
        reorg := c.canonical;
      }
    }

    /** One round of the expiry loop. */
    method ExpireFirst() returns (reorg: bool)
      requires Valid() && activeComms != [] && Queued(Ledger())
      modifies this`activeComms, this`expiredComms, this`finalized, activeComms[0]
      ensures |activeComms| == |old(activeComms)| - 1
      ensures Valid() && Queued(Ledger()) && MovesFirst(old(Ledger()), Ledger())
      ensures var first := old(Ledger().book[Ledger().active[0]]); reorg == (first.canonical && first.status.Active?)
    {
      hide Valid, Book;
      FirstOfLedger();
      var c := MoveFirst();
      reorg := Retire(c);
      LedgerQueued();
    }

    /** Moves what is due from the active to the expired queue; tells whether a reorg is required. */
    method ExpireChallenges(bn: DWord) returns (head: DWord, reorg: bool)
      requires Valid()
      modifies this`activeComms, this`expiredComms, this`finalized, commsByKey.Values
      ensures Valid() && head == finalized && Does(old(Ledger()), ExpireAt(bn, reorg), Ledger())
    {
      hide Valid, Expiring, MovesFirst, IsHeap;
      ghost var l0 := Ledger();
      reorg := false;
      LedgerQueued();
      NothingExpired(l0, bn);
      while |activeComms| > 0 && activeComms[0].expiresAt <= bn && activeComms[0].blockNumber > finalized
        invariant Valid() && Expiring(l0, bn, Ledger(), reorg) && Queued(Ledger())
        invariant Ledger() == l0 || (!Blocked(l0, bn) && Moved(l0, Ledger(), l0.active[0]))
        decreases |activeComms|
      {
        ghost var l1, reorg1 := Ledger(), reorg;
        FirstOfLedger();
        var r := ExpireFirst();
        reorg := reorg || r;
        ExpiringStep(l0, bn, l1, reorg1, Ledger(), reorg);
      }
      if activeComms != [] {
        FirstOfLedger();
      }
      head := finalized;
    }

    /** Takes the first commitment out of the expired queue and the index. */
    method PruneFirst() returns (ghost c: Commitment)
      requires Valid() && expiredComms != []
      modifies this`expiredComms, this`commsByKey
      ensures Valid() && c == old(expiredComms)[0] && |expiredComms| == |old(expiredComms)| - 1
      ensures c.key in old(commsByKey) && old(commsByKey)[c.key] == c && c.key !in Keys(activeComms)
      ensures commsByKey == old(commsByKey) - {c.key}
      ensures multiset(old(expiredComms)) == multiset(expiredComms) + multiset{c}
    {
      Indexed(activeComms, expiredComms, commsByKey, expiredComms[0]);
      var first;
      expiredComms, first := Pop(expiredComms);
      c := first;
      KeysAfterPrune(activeComms, expiredComms, commsByKey, c);
      DropValue(commsByKey, c);
      Cancel(multiset(activeComms) + multiset(expiredComms), multiset((commsByKey - {c.key}).Values), c);
      commsByKey := commsByKey - {first.key};
    }

    /** Forgets exactly the expired commitments whose block number is below the limit; active ones are not touched. */
    method Prune(bn: DWord)
      requires Valid()
      modifies this`expiredComms, this`commsByKey
      ensures Valid() && Does(old(Ledger()), PruneAt(bn), Ledger())
      ensures multiset(expiredComms) <= multiset(old(expiredComms))
    {
      hide IsHeap;
      var limit := PruneLimit(bn);
      ghost var m0 := commsByKey;
      while |expiredComms| > 0 && expiredComms[0].blockNumber < limit
        invariant Valid() && multiset(expiredComms) <= multiset(old(expiredComms))
        invariant forall k | k in commsByKey :: k in m0 && commsByKey[k] == m0[k]
        invariant forall k | k in m0 && k !in commsByKey :: k !in Keys(activeComms) && m0[k].blockNumber < limit
        decreases |expiredComms|
      {
        ghost var c := PruneFirst();
      }
      RestAboveLimit(limit);
    }

    lemma RestAboveLimit(limit: DWord)
      requires Valid() && (expiredComms == [] || expiredComms[0].blockNumber >= limit)
      ensures forall k | k in commsByKey :: k in Keys(activeComms) || commsByKey[k].blockNumber >= limit
    {
      forall k | k in commsByKey ensures k in Keys(activeComms) || commsByKey[k].blockNumber >= limit {
        var c := commsByKey[k];
        assert c in multiset(commsByKey.Values);
        if c in multiset(expiredComms) {
          var i :| 0 <= i < |expiredComms| && expiredComms[i] == c;
          FirstIsLowest(expiredComms, i);
        } else {
          assert c in multiset(activeComms);
          KeyOf(activeComms, k);
        }
      }
    }

    method GetResolvedInput(key: Key) returns (input: Outcome<seq<Byte>>)
      requires Valid()
      ensures input == if key in Book() then Ok(Book()[key].input) else Fault
    {
      if key in commsByKey {
        return Ok(commsByKey[key].input);
      }
      return Fault;
    }

    method Reset()
      modifies this
      ensures Valid() && Does(old(Ledger()), Clear, Ledger()) && commsByKey == map[]
    {
      activeComms, expiredComms := [], [];
      finalized := 0;
      commsByKey := map[];
    }
  }

  ghost function InfoOf(c: Commitment): Info
    reads c
  {
    Info(c.blockNumber, c.expiresAt, c.challengeStatus, c.canonical, c.input)
  }

  function Keys(q: Queue): (ks: seq<Key>)
    ensures |ks| == |q| && forall i | 0 <= i < |q| :: ks[i] == q[i].key
  {
    seq(|q|, i requires 0 <= i < |q| => q[i].key)
  }

  /** A commitment under a new key joins the indexed ones. */
  lemma NewValue(m: map<Key, Commitment>, c: Commitment)
    requires c.key !in m && forall k | k in m :: m[k].key == k
    ensures multiset(m[c.key := c].Values) == multiset(m.Values) + multiset{c}
  {
    var m' := m[c.key := c];
    assert m'[c.key] == c;
    assert forall k | k in m :: m'[k] == m[k];
    assert m'.Values == m.Values + {c};
  }

  /** A queued commitment is the one indexed under its key. */
  lemma Indexed(active: Queue, expired: Queue, m: map<Key, Commitment>, c: Commitment)
    requires multiset(active) + multiset(expired) == multiset(m.Values) && forall k | k in m :: m[k].key == k
    requires c in active || c in expired
    ensures c.key in m && m[c.key] == c
  {
    assert c in multiset(active) + multiset(expired);
    assert c in m.Values;
  }

  /** No commitment is queued twice. */
  lemma NoTwins(q: Queue, other: Queue, values: set<Commitment>, i: nat, j: nat)
    requires multiset(q) + multiset(other) == multiset(values) && i < j < |q|
    ensures q[i] != q[j]
  {
    assert q == q[..i] + [q[i]] + q[i + 1..j] + [q[j]] + q[j + 1..];
    assert multiset(values)[q[i]] <= 1;
  }

  lemma Apart(q: Queue, other: Queue, values: set<Commitment>, c: Commitment)
    requires multiset(q) + multiset(other) == multiset(values) && c in other
    ensures c !in q
  {
    assert multiset(values)[c] <= 1 && c in multiset(other) && (c in q <==> c in multiset(q));
  }

  /** The keys of the active queue after its first commitment c has left for the expired one. */
  lemma KeysAfterPop(before: Queue, active: Queue, expired: Queue, m: map<Key, Commitment>, c: Commitment)
    requires multiset(active) + multiset(expired) == multiset(m.Values) && forall k | k in m :: m[k].key == k
    requires multiset(before) == multiset(active) + multiset{c} && c in expired
    ensures c.key !in Keys(active) && forall x :: x in Keys(before) <==> x == c.key || x in Keys(active)
  {
    if c.key in Keys(active) {
      var i :| 0 <= i < |active| && Keys(active)[i] == c.key;
      Indexed(active, expired, m, c);
      Apart(active, expired, m.Values, c);
      Indexed(active, expired, m, active[i]);
    }
    forall x ensures x in Keys(before) <==> x == c.key || x in Keys(active) {
      KeyOf(before, x);
      KeyOf(active, x);
      assert forall d :: d in before <==> d in multiset(before);
      assert forall d :: d in active <==> d in multiset(active);
    }
  }

  lemma KeysAfterPush(before: Queue, after: Queue, c: Commitment)
    requires multiset(after) == multiset(before) + multiset{c}
    ensures forall x :: x in Keys(after) <==> x in Keys(before) || x == c.key
  {
    forall x ensures x in Keys(after) <==> x in Keys(before) || x == c.key {
      KeyOf(before, x);
      KeyOf(after, x);
      assert forall d :: d in before <==> d in multiset(before);
      assert forall d :: d in after <==> d in multiset(after);
    }
  }

  lemma KeyOf(q: Queue, x: Key)
    ensures x in Keys(q) <==> exists c :: c in q && c.key == x
  {
    if c :| c in q && c.key == x {
      var i :| 0 <= i < |q| && q[i] == c;
      assert Keys(q)[i] == x;
    }
  }

  lemma KeysAfterPrune(active: Queue, expired: Queue, m: map<Key, Commitment>, c: Commitment)
    requires multiset(active) + multiset(expired) + multiset{c} == multiset(m.Values)
    requires forall k | k in m :: m[k].key == k
    ensures c.key in m && m[c.key] == c && c.key !in Keys(active)
  {
    assert multiset(expired + [c]) == multiset(expired) + multiset{c};
    Indexed(active, expired + [c], m, c);
    Apart(active, expired + [c], m.Values, c);
    if c.key in Keys(active) {
      KeyOf(active, c.key);
      var d :| d in active && d.key == c.key;
      Indexed(active, expired + [c], m, d);
    }
  }

  /** A commitment that leaves the index. */
  lemma DropValue(m: map<Key, Commitment>, c: Commitment)
    requires c.key in m && m[c.key] == c && forall k | k in m :: m[k].key == k
    ensures multiset(m.Values) == multiset((m - {c.key}).Values) + multiset{c}
  {
    var m' := m - {c.key};
    assert m'.Values == m.Values - {c} by {
      forall d ensures d in m'.Values <==> d in m.Values && d != c {
        if d in m.Values && d != c {
          assert d.key in m';
        }
      }
    }
    assert m.Values == m'.Values + {c};
  }
}
