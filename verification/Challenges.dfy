/** The challenge state as values: what each operation means, and what expiry, pruning and re-processing guarantee
    (op-plasma/dastate.go). */
module Challenges {
  import opened Bytes
  import opened CommQueue

  /** The part of a commitment other than its key. */
  datatype Info = Info(blockNumber: DWord, expiresAt: DWord, status: ChallengeStatus, canonical: bool, input: seq<Byte>)

  type Book = map<Key, Info>

  /** The tracked commitments, the keys of the active queue in queue order, and the finalized head.  The keys not in the
      active queue are in the expired queue. */
  datatype Ledger = Ledger(book: Book, active: seq<Key>, finalized: DWord)

  const COMM_PRUNE_MARGIN := 200

  /** Addition on uint64. */
  function AddD(x: DWord, y: DWord): DWord {
    (x + y) % 0x1_0000_0000_0000_0000
  }

  /** Whether a challenge of key for block bn is one to follow. */
  predicate Follows(b: Book, key: Key, bn: DWord) {
    key in b ==> b[key].blockNumber == bn
  }

  /** A commitment first heard of in a challenge event: it expires at once unless a challenge follows. */
  function FirstSeen(bn: DWord): Info {
    Info(bn, bn, Uninitialized, false, [])
  }

  /** An unknown key is tracked as detached. */
  function Detached(b: Book, key: Key, bn: DWord): Book {
    if key in b then b else b[key := FirstSeen(bn)]
  }

  function Challenged(b: Book, key: Key, at: DWord, window: DWord): Book {
    if key in b then b[key := b[key].(expiresAt := AddD(at, window), status := Active)] else b
  }

  function Resolution(b: Book, key: Key, input: seq<Byte>, at: DWord): Book {
    if key in b then b[key := b[key].(expiresAt := at, status := Resolved, input := input)] else b
  }

  /** Derivation meets the commitment: it becomes canonical, or is tracked as such. */
  function Derived(b: Book, key: Key, bn: DWord, window: DWord): Book {
    if key in b then b[key := b[key].(canonical := true)]
    else b[key := Info(bn, AddD(bn, window), Uninitialized, true, [])]
  }

  /** The active queue holds tracked commitments, each once, the lowest block number first. */
  ghost predicate Queued(l: Ledger) {
    && (forall i | 0 <= i < |l.active| :: l.active[i] in l.book)
    && (forall i, j | 0 <= i < j < |l.active| :: l.active[i] != l.active[j])
    && (forall i | 0 <= i < |l.active| :: l.book[l.active[0]].blockNumber <= l.book[l.active[i]].blockNumber)
  }

  /** The first commitment of the active queue, if any, holds up expiry at block bn. */
  ghost predicate Blocked(l: Ledger, bn: DWord)
    requires Queued(l)
  {
    l.active == [] || l.book[l.active[0]].expiresAt > bn || l.book[l.active[0]].blockNumber <= l.finalized
  }

  function Expire(i: Info): Info {
    if i.status.Active? then i.(status := Expired) else i
  }

  /** k left the active queue. */
  ghost predicate Moved(l: Ledger, l': Ledger, k: Key) {
    k in l.active && k !in l'.active
  }

  /** Commitments only move from the active to the expired queue, those that challenged in vain are marked, and nothing
      else about any commitment changes. */
  ghost predicate OnlyMoves(l: Ledger, l': Ledger) {
    && l'.book.Keys == l.book.Keys && Queued(l) && Queued(l') && (forall k | k in l'.active :: k in l.active)
    && (forall k | k in l.book :: l'.book[k] == if Moved(l, l', k) then Expire(l.book[k]) else l.book[k])
  }

  /** What moved was due at bn and above the finalized head, and comes before what stays. */
  ghost predicate MovesDue(l: Ledger, bn: DWord, l': Ledger)
    requires OnlyMoves(l, l')
  {
    && (forall k | Moved(l, l', k) :: l.book[k].expiresAt <= bn && l.book[k].blockNumber > l.finalized)
    && (forall k, j | Moved(l, l', k) && j in l'.active :: l.book[k].blockNumber <= l.book[j].blockNumber)
  }

  /** The finalized head is the highest canonical block number that moved, or the old one. */
  ghost predicate Finalizes(l: Ledger, l': Ledger)
    requires OnlyMoves(l, l')
  {
    && (forall k | Moved(l, l', k) && l.book[k].canonical :: l.book[k].blockNumber <= l'.finalized)
    && (l'.finalized == l.finalized || exists k ::
         Moved(l, l', k) && l.book[k].canonical && l.book[k].blockNumber == l'.finalized)
    && l'.finalized >= l.finalized
  }

  /** Each canonical commitment that moved has a block of its own. */
  ghost predicate OwnBlocks(l: Ledger, l': Ledger)
    requires OnlyMoves(l, l')
  {
    forall k, j | Moved(l, l', k) && Moved(l, l', j) && k != j && l.book[k].canonical && l.book[j].canonical ::
      l.book[k].blockNumber != l.book[j].blockNumber
  }

  /** A canonical commitment with an active challenge moved. */
  ghost predicate NeedsReorg(l: Ledger, l': Ledger)
    requires OnlyMoves(l, l')
  {
    exists k :: Moved(l, l', k) && l.book[k].canonical && l.book[k].status.Active?
  }

  /** How far the expiry loop has come. */
  ghost predicate Expiring(l: Ledger, bn: DWord, l': Ledger, reorg: bool) {
    && OnlyMoves(l, l') && MovesDue(l, bn, l') && Finalizes(l, l') && OwnBlocks(l, l')
    && (reorg <==> NeedsReorg(l, l'))
  }

  /** What ExpireChallenges(bn) does: it goes on until the first active commitment holds it up. */
  ghost predicate Expiry(l: Ledger, bn: DWord, l': Ledger, reorg: bool) {
    && Expiring(l, bn, l', reorg) && Blocked(l', bn)
    && if Blocked(l, bn) then l' == l else Moved(l, l', l.active[0])
  }

  lemma NothingExpired(l: Ledger, bn: DWord)
    requires Queued(l)
    ensures Expiring(l, bn, l, false)
  {
  }

  /** One round of the loop: the first commitment moves. */
  ghost predicate MovesFirst(l: Ledger, l': Ledger)
    requires Queued(l) && l.active != []
  {
    var k, i := l.active[0], l.book[l.active[0]];
    && Queued(l') && l'.book == l.book[k := Expire(i)]
    && k !in l'.active && (forall x :: x in l.active <==> x == k || x in l'.active)
    && l'.finalized == if i.canonical then i.blockNumber else l.finalized
  }

  lemma MovedStep(l: Ledger, l1: Ledger, l2: Ledger)
    requires OnlyMoves(l, l1) && l1.active != [] && MovesFirst(l1, l2)
    ensures var k := l1.active[0];
            && (forall x :: Moved(l, l2, x) <==> x == k || Moved(l, l1, x))
            && (forall x :: x in l1.active <==> x == k || x in l2.active) && k in l.active && l1.book[k] == l.book[k]
  {
  }

  lemma OnlyMovesStep(l: Ledger, l1: Ledger, l2: Ledger)
    requires OnlyMoves(l, l1) && l1.active != [] && MovesFirst(l1, l2)
    ensures OnlyMoves(l, l2)
  {
    MovedStep(l, l1, l2);
  }

  lemma ExpiringStep(l: Ledger, bn: DWord, l1: Ledger, reorg: bool, l2: Ledger, reorg': bool)
    requires Expiring(l, bn, l1, reorg) && !Blocked(l1, bn) && MovesFirst(l1, l2)
    requires reorg' == (reorg || (l1.book[l1.active[0]].canonical && l1.book[l1.active[0]].status.Active?))
    ensures Expiring(l, bn, l2, reorg') && Moved(l, l2, l1.active[0])
    ensures forall x :: Moved(l, l1, x) ==> Moved(l, l2, x)
  {
    MovedStep(l, l1, l2);
    OnlyMovesStep(l, l1, l2);
    DueStep(l, bn, l1, l2);
    FinalizesStep(l, bn, l1, l2);
    OwnBlocksStep(l, bn, l1, l2);
  }

  lemma DueStep(l: Ledger, bn: DWord, l1: Ledger, l2: Ledger)
    requires OnlyMoves(l, l1) && OnlyMoves(l, l2) && MovesDue(l, bn, l1) && Finalizes(l, l1) && !Blocked(l1, bn)
    requires MovesFirst(l1, l2)
    ensures MovesDue(l, bn, l2)
  {
    MovedStep(l, l1, l2);
  }

  lemma FinalizesStep(l: Ledger, bn: DWord, l1: Ledger, l2: Ledger)
    requires OnlyMoves(l, l1) && OnlyMoves(l, l2) && Finalizes(l, l1) && !Blocked(l1, bn) && MovesFirst(l1, l2)
    ensures Finalizes(l, l2)
  {
    MovedStep(l, l1, l2);
  }

  lemma OwnBlocksStep(l: Ledger, bn: DWord, l1: Ledger, l2: Ledger)
    requires OnlyMoves(l, l1) && OnlyMoves(l, l2) && Finalizes(l, l1) && OwnBlocks(l, l1) && !Blocked(l1, bn)
    requires MovesFirst(l1, l2)
    ensures OwnBlocks(l, l2)
  {
    MovedStep(l, l1, l2);
  }

  /** No active commitment is below the finalized head. */
  ghost predicate NoneBelow(l: Ledger) {
    forall k | k in l.active && k in l.book :: l.book[k].blockNumber >= l.finalized
  }

  /** Expiry never finalizes past a commitment that is still active. */
  lemma ExpiryKeepsNoneBelow(l: Ledger, bn: DWord, l': Ledger, reorg: bool)
    requires Expiry(l, bn, l', reorg) && NoneBelow(l)
    ensures NoneBelow(l')
  {
  }

  /** An active commitment is not above the finalized head. */
  ghost predicate Stuck(l: Ledger, k: Key) {
    k in l.active && k in l.book && l.book[k].blockNumber <= l.finalized
  }

  /** An active commitment at or below the finalized head stops expiry: nothing moves, whatever the block. */
  lemma StuckAtFinalized(l: Ledger, k: Key, bn: DWord, l': Ledger, reorg: bool)
    requires Expiry(l, bn, l', reorg) && Stuck(l, k)
    ensures l' == l && !reorg
  {
  }

  /** Nothing can expire at any block exactly when the queue is empty or holds a stuck commitment. */
  lemma BlockedForGood(l: Ledger)
    requires Queued(l)
    ensures (forall bn: DWord :: Blocked(l, bn)) <==> l.active == [] || exists k :: Stuck(l, k)
  {
    if l.active != [] {
      var first := l.active[0];
      if forall bn: DWord :: Blocked(l, bn) {
        assert Blocked(l, l.book[first].expiresAt);
        assert Stuck(l, first);
      }
    }
  }

  /** Commitment k stayed, while a canonical one of its block moved. */
  ghost predicate SharesBlock(l: Ledger, l': Ledger, k: Key, j: Key)
    requires OnlyMoves(l, l')
  {
    k in l'.active && Moved(l, l', j) && l.book[j].canonical && l.book[k].blockNumber == l.book[j].blockNumber
  }

  /** An expiry gets a queue stuck exactly when a commitment that stays shares its block with a canonical one that
      moved. */
  lemma ExpirySticks(l: Ledger, bn: DWord, l': Ledger, reorg: bool)
    requires Expiry(l, bn, l', reorg) && forall k :: !Stuck(l, k)
    ensures (exists k :: Stuck(l', k)) <==>
              exists k, j :: SharesBlock(l, l', k, j)
  {
    if k :| Stuck(l', k) {
      assert !Stuck(l, k);
      var j :| Moved(l, l', j) && l.book[j].canonical && l.book[j].blockNumber == l'.finalized;
      assert SharesBlock(l, l', k, j);
    }
    if k, j :| SharesBlock(l, l', k, j) {
      assert Stuck(l', k);
    }
  }

  ghost predicate Due(l: Ledger, k: Key, bn: DWord) {
    k in l.active && k in l.book && l.book[k].expiresAt <= bn
  }

  /** The expiry at bn moved everything that was due. */
  ghost predicate AllDueLeave(l: Ledger, bn: DWord, l': Ledger) {
    forall k | Due(l, k, bn) :: k !in l'.active
  }

  /** What has to go first for every due commitment to leave: it is above the finalized head and in a lower block than
      anything that is not due. */
  ghost predicate DueFirst(l: Ledger, bn: DWord) {
    && (forall k | Due(l, k, bn) :: !Stuck(l, k))
    && (forall k, j | Due(l, k, bn) && j in l.active && j in l.book && !Due(l, j, bn) ::
          l.book[k].blockNumber < l.book[j].blockNumber)
  }

  /** Each due canonical commitment has a block of its own among those that are due. */
  ghost predicate CanonicalAlone(l: Ledger, bn: DWord) {
    forall k, j | Due(l, k, bn) && Due(l, j, bn) && k != j && l.book[k].canonical ::
      l.book[k].blockNumber != l.book[j].blockNumber
  }

  /** When every due commitment leaves, in whatever order the queue takes commitments of the same block. */
  lemma DueLeave(l: Ledger, bn: DWord, l': Ledger, reorg: bool)
    requires Expiry(l, bn, l', reorg) && DueFirst(l, bn) && CanonicalAlone(l, bn)
    ensures AllDueLeave(l, bn, l')
  {
  }

  /** No two active commitments are of the same block. */
  ghost predicate BlocksDiffer(l: Ledger) {
    forall k, j | k in l.active && j in l.active && k in l.book && j in l.book && k != j ::
      l.book[k].blockNumber != l.book[j].blockNumber
  }

  /** With one commitment in a block, liveness is a matter of the deadlines alone. */
  lemma DueLeaveExactly(l: Ledger, bn: DWord, l': Ledger, reorg: bool)
    requires Expiry(l, bn, l', reorg) && BlocksDiffer(l)
    ensures AllDueLeave(l, bn, l') <==> DueFirst(l, bn)
  {
    if DueFirst(l, bn) {
      DueLeave(l, bn, l', reorg);
    }
    if AllDueLeave(l, bn, l') {
      forall k, j | Due(l, k, bn) && j in l.active && j in l.book && !Due(l, j, bn)
        ensures l.book[k].blockNumber < l.book[j].blockNumber
      {
        assert Moved(l, l', k) && j in l'.active;
      }
    }
  }

  /** What a challenge event asks for; Ignored covers unknown statuses and resolutions that cannot be read. */
  datatype Verdict = Challenge | Resolve(input: seq<Byte>) | Ignored

  datatype Event = Event(key: Key, challengedBlock: DWord, verdict: Verdict)

  /** One event of L1 block `at`: tracks its commitment, and follows it if the block number is right. */
  function ApplyEvent(b: Book, e: Event, at: DWord, window: DWord): Book {
    if !Follows(b, e.key, e.challengedBlock) then b
    else
      var b1 := Detached(b, e.key, e.challengedBlock);
      match e.verdict
      case Challenge => Challenged(b1, e.key, at, window)
      case Resolve(input) => Resolution(b1, e.key, input, at)
      case Ignored => b1
  }

  function ApplyEvents(b: Book, events: seq<Event>, at: DWord, window: DWord): Book {
    if events == [] then b
    else ApplyEvent(ApplyEvents(b, events[..|events| - 1], at, window), events[|events| - 1], at, window)
  }

  /** The last event that changes the commitment key of block bn. */
  function LastVerdict(key: Key, bn: DWord, events: seq<Event>): Verdict {
    if events == [] then Ignored
    else
      var e := events[|events| - 1];
      if e.key == key && e.challengedBlock == bn && !e.verdict.Ignored? then e.verdict
      else LastVerdict(key, bn, events[..|events| - 1])
  }

  /** The input of the last resolution of the commitment, or the given one. */
  function LastInput(key: Key, bn: DWord, events: seq<Event>, input: seq<Byte>): seq<Byte> {
    if events == [] then input
    else
      var e := events[|events| - 1];
      if e.key == key && e.challengedBlock == bn && e.verdict.Resolve? then e.verdict.input
      else LastInput(key, bn, events[..|events| - 1], input)
  }

  /** The effect of all events on one commitment. */
  function Judged(i: Info, key: Key, events: seq<Event>, at: DWord, window: DWord): Info {
    var i1 := i.(input := LastInput(key, i.blockNumber, events, i.input));
    match LastVerdict(key, i.blockNumber, events)
    case Challenge => i1.(expiresAt := AddD(at, window), status := Active)
    case Resolve(_) => i1.(expiresAt := at, status := Resolved)
    case Ignored => i1
  }

  lemma {:induction false} EventKeysTracked(b: Book, events: seq<Event>, at: DWord, window: DWord, key: Key)
    ensures key in ApplyEvents(b, events, at, window) <==> key in b || exists e :: e in events && e.key == key
  {
    if events != [] {
      var n := |events| - 1;
      EventKeysTracked(b, events[..n], at, window, key);
      assert events == events[..n] + [events[n]];
    }
  }

  lemma {:induction false} NoEvents(key: Key, bn: DWord, events: seq<Event>, input: seq<Byte>)
    requires forall e | e in events :: e.key != key
    ensures LastVerdict(key, bn, events).Ignored? && LastInput(key, bn, events, input) == input
  {
    if events != [] {
      NoEvents(key, bn, events[..|events| - 1], input);
    }
  }

  /** The commitment as the first of its events introduces it. */
  ghost predicate Introduced(i: Info, key: Key, events: seq<Event>) {
    exists n | 0 <= n < |events| ::
      events[n].key == key && i == FirstSeen(events[n].challengedBlock) && forall m | 0 <= m < n :: events[m].key != key
  }

  lemma StillIntroduced(i: Info, key: Key, events: seq<Event>)
    requires events != [] && Introduced(i, key, events[..|events| - 1])
    ensures Introduced(i, key, events)
  {
    var before := events[..|events| - 1];
    var n :| 0 <= n < |before| && before[n].key == key && i == FirstSeen(before[n].challengedBlock)
      && forall m | 0 <= m < n :: before[m].key != key;
    assert events[n] == before[n] && forall m | 0 <= m < n :: events[m] == before[m];
  }

  lemma JustIntroduced(key: Key, events: seq<Event>)
    requires events != [] && events[|events| - 1].key == key
    requires forall e | e in events[..|events| - 1] :: e.key != key
    ensures Introduced(FirstSeen(events[|events| - 1].challengedBlock), key, events)
  {
    forall m | 0 <= m < |events| - 1 ensures events[m].key != key {
      assert events[m] in events[..|events| - 1];
    }
  }

  lemma NotJudged(b: Book, key: Key, at: DWord, window: DWord)
    requires key in b
    ensures Judged(b[key], key, [], at, window) == b[key]
  {
  }

  lemma EventKeys(b: Book, e: Event, at: DWord, window: DWord)
    ensures ApplyEvent(b, e, at, window).Keys == b.Keys + {e.key}
  {
  }

  /** One more event, for a commitment that is tracked. */
  lemma JudgeStep(b: Book, i: Info, key: Key, events: seq<Event>, at: DWord, window: DWord)
    requires events != [] && key in b && b[key] == Judged(i, key, events[..|events| - 1], at, window)
    ensures var b' := ApplyEvent(b, events[|events| - 1], at, window);
            key in b' && b'[key] == Judged(i, key, events, at, window)
  {
  }

  /** The first event of a commitment. */
  lemma JudgeFirst(b: Book, key: Key, events: seq<Event>, at: DWord, window: DWord)
    requires events != [] && key !in b && events[|events| - 1].key == key
    requires forall e | e in events[..|events| - 1] :: e.key != key
    ensures var e := events[|events| - 1];
            var b' := ApplyEvent(b, e, at, window);
            key in b' && b'[key] == Judged(FirstSeen(e.challengedBlock), key, events, at, window)
  {
    var i := FirstSeen(events[|events| - 1].challengedBlock);
    NoEvents(key, i.blockNumber, events[..|events| - 1], i.input);
  }

  /** Every commitment after the events of a block is judged by those events: the starting point is the commitment
      before the block, or the detached one its first event introduced. */
  lemma {:induction false} EventsJudge(b: Book, events: seq<Event>, at: DWord, window: DWord, key: Key)
    returns (i: Info)
    requires key in ApplyEvents(b, events, at, window)
    ensures ApplyEvents(b, events, at, window)[key] == Judged(i, key, events, at, window)
    ensures if key in b then i == b[key] else Introduced(i, key, events)
  {
    hide Introduced, ApplyEvent, Judged;
    if events == [] {
      NotJudged(b, key, at, window);
      i := b[key];
    } else {
      var n := |events| - 1;
      var b1 := ApplyEvents(b, events[..n], at, window);
      if key in b1 {
        i := EventsJudge(b, events[..n], at, window, key);
        JudgeStep(b1, i, key, events, at, window);
        if key !in b {
          StillIntroduced(i, key, events);
        }
      } else {
        i := FirstSeen(events[n].challengedBlock);
        EventKeysTracked(b, events[..n], at, window, key);
        EventKeys(b1, events[n], at, window);
        JudgeFirst(b1, key, events, at, window);
        JustIntroduced(key, events);
      }
    }
  }

  /** Judging twice by the same events, with an expiry at their block in between, changes nothing more: a commitment
      challenged in this very block cannot expire in it when the resolve window is positive. */
  lemma JudgedAgain(i: Info, j: Info, key: Key, events: seq<Event>, at: DWord, window: DWord)
    requires window > 0 && at + window < 0x1_0000_0000_0000_0000
    requires var i1 := Judged(i, key, events, at, window); j == i1 || (j == Expire(i1) && i1.expiresAt <= at)
    ensures Judged(j, key, events, at, window) == j
  {
    InputOfInput(key, i.blockNumber, events, i.input, LastInput(key, i.blockNumber, events, i.input));
  }

  lemma {:induction false} InputOfInput(key: Key, bn: DWord, events: seq<Event>, a: seq<Byte>, b: seq<Byte>)
    requires b == LastInput(key, bn, events, a)
    ensures LastInput(key, bn, events, b) == b
  {
    if events != [] {
      var e := events[|events| - 1];
      if !(e.key == key && e.challengedBlock == bn && e.verdict.Resolve?) {
        InputOfInput(key, bn, events[..|events| - 1], a, b);
      }
    }
  }

  /** Re-processing a block after it made challenges expire leaves every commitment as it is. */
  lemma ReprocessedBlock(b: Book, events: seq<Event>, at: DWord, window: DWord, l: Ledger, l': Ledger, reorg: bool)
    requires window > 0 && at + window < 0x1_0000_0000_0000_0000
    requires l.book == ApplyEvents(b, events, at, window) && Expiry(l, at, l', reorg)
    ensures ApplyEvents(l'.book, events, at, window) == l'.book
  {
    var again := ApplyEvents(l'.book, events, at, window);
    forall k ensures k in again <==> k in l'.book {
      EventKeysTracked(l'.book, events, at, window, k);
      EventKeysTracked(b, events, at, window, k);
    }
    forall k | k in l'.book ensures again[k] == l'.book[k] {
      var i := EventsJudge(b, events, at, window, k);
      var j := EventsJudge(l'.book, events, at, window, k);
      JudgedAgain(i, l'.book[k], k, events, at, window);
    }
  }

  /** A window of zero lets a challenge expire in its own block, and re-processing that block then revives it. */
  lemma ZeroWindowRevives(key: Key)
    ensures var events := [Event(key, 5, Challenge)];
            var i := Judged(Info(5, 5, Uninitialized, true, []), key, events, 7, 0);
            i.expiresAt <= 7 && Expire(i).status.Expired? && Judged(Expire(i), key, events, 7, 0).status.Active?
  {
    var events := [Event(key, 5, Challenge)];
    assert LastVerdict(key, 5, events) == Challenge;
  }

  /** The block below which finalized commitments are forgotten. */
  function PruneLimit(bn: DWord): DWord {
    if bn > COMM_PRUNE_MARGIN then bn - COMM_PRUNE_MARGIN else 0
  }

  /** The book after pruning: exactly the expired commitments below the limit are gone. */
  function Pruned(b: Book, active: seq<Key>, bn: DWord): Book {
    map k | k in b && (k in active || b[k].blockNumber >= PruneLimit(bn)) :: b[k]
  }

  /** The operations a run is made of. */
  datatype Op =
    | Track(key: Key, bn: DWord)
    | Judge(key: Key, verdict: Verdict, at: DWord, window: DWord)
    | Derive(key: Key, bn: DWord, window: DWord)
    | ExpireAt(bn: DWord, reorg: bool)
    | PruneAt(bn: DWord)
    | Clear

  /** The active queue afterwards holds the same keys, and the given one if it was not tracked. */
  ghost predicate Joins(l: Ledger, key: Key, l': Ledger) {
    l'.finalized == l.finalized && forall x :: x in l'.active <==> x in l.active || (x == key && key !in l.book)
  }

  /** The active queue gains exactly the keys that are newly tracked. */
  ghost predicate AllJoin(l: Ledger, l': Ledger) {
    && l'.finalized == l.finalized && l.book.Keys <= l'.book.Keys
    && forall x :: x in l'.active <==> x in l.active || (x in l'.book && x !in l.book)
  }

  lemma AllJoinStep(l: Ledger, l1: Ledger, key: Key, l2: Ledger)
    requires AllJoin(l, l1) && Joins(l1, key, l2) && l2.book.Keys == l1.book.Keys + {key}
    ensures AllJoin(l, l2)
  {
  }

  ghost predicate Does(l: Ledger, op: Op, l': Ledger) {
    match op
    case Track(key, bn) => l'.book == Detached(l.book, key, bn) && Joins(l, key, l')
    case Judge(key, verdict, at, window) =>
      && l'.active == l.active && l'.finalized == l.finalized
      && l'.book == (match verdict
                     case Challenge => Challenged(l.book, key, at, window)
                     case Resolve(input) => Resolution(l.book, key, input, at)
                     case Ignored => l.book)
    case Derive(key, bn, window) => l'.book == Derived(l.book, key, bn, window) && Joins(l, key, l')
    case ExpireAt(bn, reorg) => Expiry(l, bn, l', reorg)
    case PruneAt(bn) => l' == l.(book := Pruned(l.book, l.active, bn))
    case Clear => l' == Ledger(map[], [], 0)
  }

  /** A new commitment is not from a block below the finalized head. */
  predicate NotLate(l: Ledger, op: Op) {
    match op
    case Track(key, bn) => key in l.book || bn >= l.finalized
    case Derive(key, bn, window) => key in l.book || bn >= l.finalized
    case _ => true
  }

  /** Each operation leads from one ledger to the next. */
  ghost predicate IsTrace(trace: seq<Ledger>, ops: seq<Op>) {
    |trace| == |ops| + 1 && forall i | 0 <= i < |ops| :: Does(trace[i], ops[i], trace[i + 1])
  }

  ghost predicate IsRun(trace: seq<Ledger>, ops: seq<Op>) {
    IsTrace(trace, ops) && forall i | 0 <= i < |ops| :: NotLate(trace[i], ops[i])
  }

  lemma StepKeepsNoneBelow(l: Ledger, op: Op, l': Ledger)
    requires Does(l, op, l') && NotLate(l, op) && NoneBelow(l) && (forall k | k in l.active :: k in l.book)
    ensures NoneBelow(l') && (forall k | k in l'.active :: k in l'.book)
    ensures op.Clear? || l'.finalized >= l.finalized
  {
  }

  /** In every run whose new commitments are not late, no active commitment is ever below the finalized head, which
      only a clearing reset moves back. */
  lemma {:induction false} RunKeepsNoneBelow(trace: seq<Ledger>, ops: seq<Op>, i: nat, j: nat)
    requires IsRun(trace, ops) && trace[0].active == [] && i <= j < |trace|
    ensures NoneBelow(trace[j]) && (forall k | k in trace[j].active :: k in trace[j].book)
    ensures Clear !in ops[i..j] ==> trace[i].finalized <= trace[j].finalized
  {
    hide Does, NotLate, NoneBelow;
    if j > 0 {
      RunKeepsNoneBelow(trace, ops, if i == j then i - 1 else i, j - 1);
      StepKeepsNoneBelow(trace[j - 1], ops[j - 1], trace[j]);
      if i < j {
        LastOp(ops, i, j);
      }
    } else {
      NoneActive(trace[0]);
    }
  }

  lemma NoneActive(l: Ledger)
    requires l.active == []
    ensures NoneBelow(l)
  {
  }

  lemma LastOp(ops: seq<Op>, i: nat, j: nat)
    requires i < j <= |ops|
    ensures Clear in ops[i..j] <==> Clear in ops[i..j - 1] || ops[j - 1] == Clear
  {
    assert ops[i..j] == ops[i..j - 1] + [ops[j - 1]];
  }

  lemma StepKeepsStuck(l: Ledger, op: Op, l': Ledger, k: Key)
    requires Does(l, op, l') && Stuck(l, k) && !op.Clear?
    ensures Stuck(l', k) && l'.finalized == l.finalized
  {
  }

  /** Finalization stops: once a commitment is stuck, it stays active and the finalized head stays where it is, whatever
      follows, until a clearing reset. */
  lemma {:induction false} StuckForGood(trace: seq<Ledger>, ops: seq<Op>, i: nat, j: nat, k: Key)
    requires IsTrace(trace, ops) && i <= j < |trace| && Stuck(trace[i], k) && Clear !in ops[i..j]
    ensures Stuck(trace[j], k) && trace[j].finalized == trace[i].finalized
  {
    hide Does, Stuck;
    if i < j {
      LastOp(ops, i, j);
      StuckForGood(trace, ops, i, j - 1, k);
      StepKeepsStuck(trace[j - 1], ops[j - 1], trace[j], k);
    }
  }

  /** A commitment first heard of in a challenge event for block bn joins the active queue; one that is tracked stays
      as it is. */
  lemma TrackMeans(l: Ledger, key: Key, bn: DWord, l': Ledger)
    requires Does(l, Track(key, bn), l')
    ensures key in l.book ==> l'.book == l.book
    ensures key !in l.book ==>
              && l'.book == l.book[key := l'.book[key]] && key in l'.active
              && var i := l'.book[key];
                 && i.blockNumber == bn && i.expiresAt == bn && i.status == ChallengeStatus.Uninitialized
                 && !i.canonical && i.input == []
  {
  }

  /** What a verdict does to a tracked commitment: a challenge sets its deadline, a resolution its input, and nothing
      else about it or any other commitment changes. */
  lemma VerdictMeans(l: Ledger, key: Key, verdict: Verdict, at: DWord, window: DWord, l': Ledger)
    requires Does(l, Judge(key, verdict, at, window), l') && key in l.book
    ensures l'.book == l.book[key := l'.book[key]] && l'.active == l.active && l'.finalized == l.finalized
    ensures var i, i' := l.book[key], l'.book[key];
            && i'.blockNumber == i.blockNumber && i'.canonical == i.canonical
            && match verdict
               case Challenge =>
                 && i'.status == ChallengeStatus.Active && i'.input == i.input
                 && i'.expiresAt == (at + window) % 0x1_0000_0000_0000_0000
               case Resolve(input) => i'.status == ChallengeStatus.Resolved && i'.input == input && i'.expiresAt == at
               case Ignored => i' == i
  {
  }

  /** The commitment is tracked, and resolved with this input. */
  ghost predicate ResolvedWith(l: Ledger, key: Key, input: seq<Byte>) {
    key in l.book && l.book[key].status.Resolved? && l.book[key].input == input
  }

  lemma StepKeepsResolved(l: Ledger, op: Op, l': Ledger, key: Key, input: seq<Byte>)
    requires Does(l, op, l') && ResolvedWith(l, key, input) && key in l'.book
    requires op.Judge? && op.key == key ==> op.verdict.Ignored?
    ensures ResolvedWith(l', key, input)
  {
  }

  /** A resolution stands until the next verdict on its commitment, as long as that is tracked. */
  lemma {:induction false} ResolutionStands(trace: seq<Ledger>, ops: seq<Op>, i: nat, j: nat, key: Key,
      input: seq<Byte>)
    requires IsTrace(trace, ops) && i <= j < |trace| && ResolvedWith(trace[i], key, input)
    requires forall m | i <= m <= j :: key in trace[m].book
    requires forall m | i <= m < j :: ops[m].Judge? && ops[m].key == key ==> ops[m].verdict.Ignored?
    ensures ResolvedWith(trace[j], key, input)
  {
    hide Does, ResolvedWith;
    if i < j {
      ResolutionStands(trace, ops, i, j - 1, key, input);
      StepKeepsResolved(trace[j - 1], ops[j - 1], trace[j], key, input);
    }
  }

  /** The commitment is not tracked, or known from challenge events only. */
  ghost predicate NotDerived(l: Ledger, key: Key) {
    key in l.book ==> !l.book[key].canonical
  }

  lemma StepKeepsDetached(l: Ledger, op: Op, l': Ledger, key: Key)
    requires Does(l, op, l') && NotDerived(l, key) && !(op.Derive? && op.key == key)
    ensures NotDerived(l', key)
  {
  }

  /** What derivation has not met is not canonical, however often it was challenged. */
  lemma {:induction false} CanonicalOnlyIfDerived(trace: seq<Ledger>, ops: seq<Op>, i: nat, j: nat, key: Key)
    requires IsTrace(trace, ops) && i <= j < |trace| && key !in trace[i].book
    requires forall m | i <= m < j :: !(ops[m].Derive? && ops[m].key == key)
    ensures NotDerived(trace[j], key)
  {
    hide Does, NotDerived;
    if i < j {
      CanonicalOnlyIfDerived(trace, ops, i, j - 1, key);
      StepKeepsDetached(trace[j - 1], ops[j - 1], trace[j], key);
    } else {
      UntrackedNotDerived(trace[i], key);
    }
  }

  lemma UntrackedNotDerived(l: Ledger, key: Key)
    requires key !in l.book
    ensures NotDerived(l, key)
  {
  }

  /** Such commitments neither finalize anything nor ask for a reorg when they expire. */
  lemma DetachedIsHarmless(l: Ledger, bn: DWord, l': Ledger, reorg: bool)
    requires Expiry(l, bn, l', reorg) && forall k | Moved(l, l', k) :: NotDerived(l, k)
    ensures l'.finalized == l.finalized && !reorg
  {
  }

  /** What pruning forgets: the commitments that have expired and are more than 200 blocks below the head. */
  lemma PrunedExactly(l: Ledger, bn: DWord, l': Ledger, k: Key)
    requires Does(l, PruneAt(bn), l') && k in l.book
    ensures k !in l'.book <==> k !in l.active && l.book[k].blockNumber + 200 < bn
    ensures k in l'.book ==> l'.book[k] == l.book[k]
  {
  }

  /** Two commitments of block 1, as derivation meets them, both due at block 2. */
  function SameBlockOps(a: Key, b: Key): seq<Op> {
    [Derive(a, 1, 1), Derive(b, 1, 1), ExpireAt(2, false)]
  }

  function SameBlockTrace(a: Key, b: Key): seq<Ledger> {
    var i := Info(1, 2, Uninitialized, true, []);
    [Ledger(map[], [], 0), Ledger(map[a := i], [a], 0), Ledger(map[a := i][b := i], [a, b], 0),
     Ledger(map[a := i][b := i], [b], 1)]
  }

  /** A run from the empty ledger that gets stuck: expiring the first of the two finalizes their block, and the second
      stays active. */
  lemma SameBlockSticks(a: Key, b: Key)
    requires a != b
    ensures IsRun(SameBlockTrace(a, b), SameBlockOps(a, b)) && Stuck(SameBlockTrace(a, b)[3], b)
  {
    hide Does;
    var trace, ops := SameBlockTrace(a, b), SameBlockOps(a, b);
    SameBlockDerived(a, b);
    SameBlockExpiry(a, b);
    assert forall i | 0 <= i < 3 :: NotLate(trace[i], ops[i]);
  }

  lemma SameBlockDerived(a: Key, b: Key)
    requires a != b
    ensures Does(SameBlockTrace(a, b)[0], Derive(a, 1, 1), SameBlockTrace(a, b)[1])
    ensures Does(SameBlockTrace(a, b)[1], Derive(b, 1, 1), SameBlockTrace(a, b)[2])
  {
  }

  lemma SameBlockExpiry(a: Key, b: Key)
    requires a != b
    ensures Does(SameBlockTrace(a, b)[2], ExpireAt(2, false), SameBlockTrace(a, b)[3])
  {
    hide Expiring;
    var l, l' := SameBlockTrace(a, b)[2], SameBlockTrace(a, b)[3];
    NothingExpired(l, 2);
    ExpiringStep(l, 2, l, false, l', false);
  }
}
