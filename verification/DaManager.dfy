/** The data-availability manager: follows challenge events along L1, finalizes, and survives the reset it causes
    (op-plasma/damgr.go). */
module DaManager {
  import opened Alu
  import opened Bytes
  import opened CommQueue
  import opened Challenges
  import P = PlasmaState

  datatype BlockId = BlockId(number: DWord, hash: seq<Byte>)

  /** What L1 answers: the decoded challenge events of a block, and blocks by number. */
  datatype L1 = L1(events: BlockId -> Outcome<seq<Event>>, refs: DWord -> Outcome<BlockId>)

  /** What the storage server answers for a commitment. */
  datatype Stored = Found(data: seq<Byte>) | NotFound | StorageError

  datatype Config = Config(generic: bool, challengeWindow: DWord, resolveWindow: DWord)

  datatype Advance = Skipped | RpcFailed | ReorgRequired | Advanced

  datatype InputResult =
    | Data(data: seq<Byte>)
    | ExpiredChallenge     // the derivation pipeline skips the input
    | PendingChallenge     // it waits
    | MissingPastWindow    // fatal
    | StorageFailed        // it retries
    | LookAheadFailed

  /** The commitment once it is tracked: what was known of it, or the window of a new one. */
  function TrackedAs(b: Book, key: Key, bn: DWord, window: DWord): Info {
    if key in b then Info(b[key].blockNumber, b[key].expiresAt, b[key].status, true, b[key].input)
    else Info(bn, (bn + window) % 0x1_0000_0000_0000_0000, Uninitialized, true, [])
  }

  /** Its challenge has expired: it is marked so, or its time is up at the origin. */
  predicate Lapsed(i: Info, origin: DWord) {
    i.status.Expired? || (i.status.Active? && i.expiresAt <= origin)
  }

  /** It can still be challenged, or its challenge still be resolved. */
  predicate Open(i: Info, origin: DWord) {
    (i.status.Uninitialized? || i.status.Active?) && origin < i.expiresAt
  }

  /** What the manager keeps, as a value. */
  datatype View = View(ledger: Ledger, origin: BlockId, finalizedHead: BlockId, resetting: bool)

  class DA {
    const cfg: Config
    const state: P.State
    var origin: BlockId           // the latest L1 block whose challenge events were processed
    var finalizedHead: BlockId
    var resetting: bool           // the next reset comes from an expired challenge
    var signals: seq<BlockId>     // finalized heads sent to the engine queue

    ghost predicate Valid()
      reads state
    {
      state.Valid()
    }

    ghost function Look(): View
      reads this`origin, this`finalizedHead, this`resetting
      reads state`commsByKey, state`activeComms, state`finalized, state.commsByKey.Values
    {
      View(state.Ledger(), origin, finalizedHead, resetting)
    }

    constructor (cfg: Config)
      ensures Valid() && fresh(state) && this.cfg == cfg && !resetting && signals == []
      ensures state.Ledger() == Ledger(map[], [], 0)
    {
      this.cfg := cfg;
      state := new P.State();
      origin, finalizedHead := BlockId(0, []), BlockId(0, []);
      resetting, signals := false, [];
    }

    /** The events that count in a block: generic commitments are not challenged on L1. */
    function EventsOf(l1: L1, block: BlockId): Outcome<seq<Event>> {
      if cfg.generic then Ok([]) else l1.events(block)
    }

    /** What processing a block comes to: its events, then expiry from the ledger mid, then finalization.  A required
        reorg leaves the origin where it was and tells the next reset to keep the state; so does a failing L1 leave
        the origin. */
    ghost predicate Advances(l1: L1, block: BlockId, v: View, r: Advance, mid: Ledger, v': View) {
      && (r == Skipped <==> block.number <= v.origin.number)
      && (r == Skipped || EventsOf(l1, block).Fault? ==> v' == v)
      && (r != Skipped && EventsOf(l1, block).Ok? ==>
            && mid.book == ApplyEvents(v.ledger.book, EventsOf(l1, block).value, block.number, cfg.resolveWindow)
            && AllJoin(v.ledger, mid) && (mid.book.Keys == v.ledger.book.Keys ==> mid.active == v.ledger.active)
            && Expiry(mid, block.number, v'.ledger, r == ReorgRequired))
      && (r == ReorgRequired ==> EventsOf(l1, block).Ok?)
      && (r == RpcFailed <==>
            && r != Skipped && r != ReorgRequired
            && (EventsOf(l1, block).Fault?
                || (v'.ledger.finalized > v.finalizedHead.number && l1.refs(v'.ledger.finalized).Fault?)))
      && v'.origin == (if r == Advanced then block else v.origin)
      && v'.resetting == (v.resetting || r == ReorgRequired)
      && if r == Advanced && v'.ledger.finalized > v.finalizedHead.number
         then Ok(v'.finalizedHead) == l1.refs(v'.ledger.finalized) else v'.finalizedHead == v.finalizedHead
    }

    /** Which events count: none with generic commitments, which are not challenged on L1; otherwise those of the
        block, and nothing happens when L1 does not give them. */
    lemma EventsThatCount(l1: L1, block: BlockId, v: View, r: Advance, mid: Ledger, v': View)
      requires Advances(l1, block, v, r, mid, v') && block.number > v.origin.number
      ensures cfg.generic ==> mid.book == v.ledger.book && mid.active == v.ledger.active
      ensures !cfg.generic && l1.events(block).Fault? ==> r == RpcFailed && v' == v
      ensures !cfg.generic && l1.events(block).Ok? ==>
                mid.book == ApplyEvents(v.ledger.book, l1.events(block).value, block.number, cfg.resolveWindow)
    {
      NoEventsApply(v.ledger.book, block.number, cfg.resolveWindow);
    }

    /** The block after the origin, when L1 has it, is processed. */
    ghost predicate LooksAhead(l1: L1, v: View, ok: bool, v': View) {
      match l1.refs(AddD(v.origin.number, 1))
      case Fault => !ok && v' == v
      case Ok(next) => exists r, mid :: Advances(l1, next, v, r, mid, v') && ok == (r == Skipped || r == Advanced)
    }

    /** When it succeeds, the origin is the block after the old one, as L1 gives it. */
    lemma NextOrigin(l1: L1, v: View, v': View)
      requires LooksAhead(l1, v, true, v') && v.origin.number + 1 < 0x1_0000_0000_0000_0000
      ensures l1.refs(v.origin.number + 1).Ok?
      ensures l1.refs(v.origin.number + 1).value.number > v.origin.number ==>
                v'.origin == l1.refs(v.origin.number + 1).value
    {
      assert AddD(v.origin.number, 1) == v.origin.number + 1;
    }

    /** One event: tracks its commitment, and updates it when it is challenged for the right block. */
    method ApplyOne(e: Event, at: DWord)
      requires Valid()
      modifies state`activeComms, state`commsByKey, state.commsByKey.Values
      ensures Valid() && fresh(state.commsByKey.Values - old(state.commsByKey.Values))
      ensures state.Book() == ApplyEvent(old(state.Book()), e, at, cfg.resolveWindow)
      ensures Joins(old(state.Ledger()), e.key, state.Ledger())
      ensures e.key in old(state.Book()) ==> state.activeComms == old(state.activeComms)
    {
      hide P.State.Valid, P.State.Book, Challenged, Resolution;
      state.BookKeys();
      var tracking := state.IsTracking(e.key, e.challengedBlock);
      if tracking {
        match e.verdict
        case Challenge => state.SetActiveChallenge(e.key, at, cfg.resolveWindow);
        case Resolve(input) => state.SetResolvedChallenge(e.key, input, at);
        case Ignored =>
      }
    }

    /** Applies the events of a block to the challenge state. */
    method LoadChallengeEvents(l1: L1, block: BlockId) returns (ok: bool)
      requires Valid()
      modifies state`activeComms, state`commsByKey, state.commsByKey.Values
      ensures Valid() && fresh(state.commsByKey.Values - old(state.commsByKey.Values)) && ok == EventsOf(l1, block).Ok?
      ensures ok ==>
                state.Book()
                == ApplyEvents(old(state.Book()), EventsOf(l1, block).value, block.number, cfg.resolveWindow)
      ensures !ok ==> state.Book() == old(state.Book())
      ensures AllJoin(old(state.Ledger()), state.Ledger())
      ensures state.Book().Keys == old(state.Book().Keys) ==> state.activeComms == old(state.activeComms)
    {
      hide P.State.Valid, P.State.Book, ApplyEvent, ApplyEvents, AllJoin, Joins;
      JoinNone(state.Ledger());
      NoEventsApply(state.Book(), block.number, cfg.resolveWindow);
      var logs := EventsOf(l1, block);
      if logs.Fault? {
        return false;
      }
      ghost var l0, b0, queue0 := state.Ledger(), state.Book(), state.activeComms;
      for i := 0 to |logs.value|
        invariant Valid() && fresh(state.commsByKey.Values - old(state.commsByKey.Values))
        invariant state.Book() == ApplyEvents(b0, logs.value[..i], block.number, cfg.resolveWindow)
        invariant b0.Keys <= state.Book().Keys && (state.Book().Keys == b0.Keys ==> state.activeComms == queue0)
        invariant AllJoin(l0, state.Ledger())
      {
        ghost var l, before := state.Ledger(), state.Book();
        NextEvent(b0, logs.value, i, block.number, cfg.resolveWindow);
        EventKeys(before, logs.value[i], block.number, cfg.resolveWindow);
        ApplyOne(logs.value[i], block.number);
        AllJoinStep(l0, l, logs.value[i].key, state.Ledger());
      }
      assert logs.value[..|logs.value|] == logs.value;
      ok := true;
    }

    /** Processes the next L1 block: events, expiry, finalization.  mid is the ledger between the events and the
        expiry. */
    method AdvanceL1Origin(l1: L1, block: BlockId) returns (r: Advance, ghost mid: Ledger)
      requires Valid()
      modifies this`origin, this`finalizedHead, this`resetting
      modifies state`activeComms, state`expiredComms, state`commsByKey, state`finalized, state.commsByKey.Values
      ensures Valid() && fresh(state.commsByKey.Values - old(state.commsByKey.Values))
      ensures Advances(l1, block, old(Look()), r, mid, Look())
    {
      hide P.State.Valid, P.State.Book, ApplyEvents, AllJoin, Expiry;
      mid := state.Ledger();
      if block.number <= origin.number {
        return Skipped, mid;
      }
      var ok := LoadChallengeEvents(l1, block);
      if !ok {
        return RpcFailed, mid;
      }
      mid := state.Ledger();
      var bn, reorg := state.ExpireChallenges(block.number);
      if reorg {
        resetting := true;
        return ReorgRequired, mid;
      }
      if bn > finalizedHead.number {
        var ref := l1.refs(bn);
        if ref.Fault? {
          return RpcFailed, mid;
        }
        finalizedHead := ref.value;
      }
      origin := block;
      return Advanced, mid;
    }

    /** A reset of the pipeline: the first one after a required reorg keeps the state, any other clears it. */
    method Reset(base: BlockId)
      requires Valid()
      modifies this`origin, this`resetting, state
      ensures Valid() && !resetting
      ensures old(resetting) ==>
                && origin == old(origin) && state.Ledger() == old(state.Ledger())
                && state.commsByKey == old(state.commsByKey)
      ensures !old(resetting) ==> origin == base && state.Ledger() == Ledger(map[], [], 0) && state.commsByKey == map[]
    {
      hide P.State.Valid, P.State.Book;
      if resetting {
        resetting := false;
      } else {
        origin := base;
        state.Reset();
      }
    }

    /** The L1 finality signal: the lower of the two finalized heads is passed on, and what is final is pruned. */
    method Finalize(l1Finalized: BlockId)
      requires Valid()
      modifies this`signals, state`expiredComms, state`commsByKey
      ensures Valid()
      ensures var ref := if l1Finalized.number < finalizedHead.number then l1Finalized else finalizedHead;
              && signals == old(signals) + [ref]
              && ref.number <= l1Finalized.number && ref.number <= finalizedHead.number
              && Does(old(state.Ledger()), PruneAt(ref.number), state.Ledger())
    {
      var ref := finalizedHead;
      if l1Finalized.number < finalizedHead.number {
        ref := l1Finalized;
      }
      state.Prune(ref.number);
      signals := signals + [ref];
    }

    /** Processes the block after the origin, when there is one. */
    method LookAhead(l1: L1) returns (ok: bool)
      requires Valid()
      modifies this`origin, this`finalizedHead, this`resetting
      modifies state`activeComms, state`expiredComms, state`commsByKey, state`finalized, state.commsByKey.Values
      ensures Valid() && fresh(state.commsByKey.Values - old(state.commsByKey.Values))
      ensures LooksAhead(l1, old(Look()), ok, Look())
    {
      hide P.State.Valid, P.State.Book, Advances;
      var next := l1.refs(AddD(origin.number, 1));
      if next.Fault? {
        return false;
      }
      var r;
      ghost var mid;
      r, mid := AdvanceL1Origin(l1, next.value);
      ok := r == Skipped || r == Advanced;
    }

    /** The input for a commitment met in block bn; one of another type counts as expired.  The answer depends on what
        is known of the commitment once it is tracked, the origin and the storage. */
    method GetInput(l1: L1, key: Key, typeMatches: bool, bn: DWord, stored: Stored) returns (r: InputResult)
      requires Valid()
      modifies this`origin, this`finalizedHead, this`resetting
      modifies state`activeComms, state`expiredComms, state`commsByKey, state`finalized, state.commsByKey.Values
      ensures Valid()
      ensures !typeMatches ==> r == ExpiredChallenge && Look() == old(Look())
      ensures typeMatches ==>
                var i, origin0 := TrackedAs(old(state.Book()), key, bn, cfg.challengeWindow), old(origin).number;
                && (stored.StorageError? ==> r == StorageFailed)
                && (!stored.StorageError? && Lapsed(i, origin0) ==> r == ExpiredChallenge)
                && (stored.Found? && !Lapsed(i, origin0) ==> r == Data(stored.data))
                && (stored.NotFound? && Open(i, origin0) ==> r == PendingChallenge || r == LookAheadFailed)
                && (stored.NotFound? && i.status.Uninitialized? && i.expiresAt <= origin0 ==> r == MissingPastWindow)
                && (stored.NotFound? && i.status.Resolved? ==>
                     r == if cfg.generic then MissingPastWindow else Data(i.input))
                && if stored.NotFound? && Open(i, origin0) then
                     exists l :: Does(old(state.Ledger()), Derive(key, bn, cfg.challengeWindow), l)
                                 && LooksAhead(l1, old(Look()).(ledger := l), r == PendingChallenge, Look())
                   else
                     && Does(old(state.Ledger()), Derive(key, bn, cfg.challengeWindow), state.Ledger())
                     && Look() == old(Look()).(ledger := state.Ledger())
    {
      hide P.State.Valid, P.State.Book, LooksAhead, Does, Derived, TrackedAs;
      if !typeMatches {
        return ExpiredChallenge;
      }
      var ch := state.GetOrTrackChallenge(key, bn, cfg.challengeWindow);
      state.BookAt(key);
      DerivedBook(old(state.Ledger()), key, bn, cfg.challengeWindow, state.Ledger());
      DerivedAs(old(state.Book()), key, bn, cfg.challengeWindow);
      ghost var derived := state.Ledger();
      assert Look() == old(Look()).(ledger := derived);
      if stored.StorageError? {
        return StorageFailed;
      }
      match ch.challengeStatus {
        case Active =>
          if origin.number >= ch.expiresAt {
            return ExpiredChallenge;
          } else if stored.NotFound? {
            var ok := LookAhead(l1);
            assert LooksAhead(l1, old(Look()).(ledger := derived), ok, Look());
            return if ok then PendingChallenge else LookAheadFailed;
          }
        case Expired =>
          return ExpiredChallenge;
        case Resolved =>
          if stored.Found? {
            return Data(stored.data);
          }
          if cfg.generic {
            return MissingPastWindow;
          }
          var input := state.GetResolvedInput(key);
          return Data(input.value);
        case Uninitialized =>
          if stored.NotFound? {
            if origin.number >= ch.expiresAt {
              return MissingPastWindow;
            }
            var ok := LookAhead(l1);
            assert LooksAhead(l1, old(Look()).(ledger := derived), ok, Look());
            return if ok then PendingChallenge else LookAheadFailed;
          }
      }
      return Data(stored.data);
    }
  }

  /** Reorg handshake: when a block makes the manager require a reorg, the reset that follows keeps the state, and
      processing the same block again changes no commitment and requires no other reorg: the pipeline gets past the
      block unless L1 fails to answer for the new finalized head. */
  method ReorgHandshake(da: DA, l1: L1, block: BlockId, base: BlockId)
    returns (first: Advance, second: Advance, ghost mid: Ledger)
    requires da.Valid() && da.cfg.resolveWindow > 0 && block.number + da.cfg.resolveWindow < 0x1_0000_0000_0000_0000
    modifies da`origin, da`finalizedHead, da`resetting
    modifies da.state, da.state.commsByKey.Values
    ensures da.Valid() && fresh(da.state.commsByKey.Values - old(da.state.commsByKey.Values))
    ensures first == ReorgRequired ==>
              && da.EventsOf(l1, block).Ok? && Expiry(mid, block.number, da.state.Ledger(), true)
              && mid.book
                 == ApplyEvents(old(da.state.Book()), da.EventsOf(l1, block).value, block.number, da.cfg.resolveWindow)
              && AllJoin(old(da.state.Ledger()), mid)
              && !da.resetting && da.origin == (if second == Advanced then block else old(da.origin))
              && second == (if da.state.finalized > old(da.finalizedHead).number && l1.refs(da.state.finalized).Fault?
                            then RpcFailed else Advanced)
  {
    hide P.State.Valid, P.State.Book, ApplyEvents, Expiry, AllJoin;
    ghost var b0 := da.state.Book();
    ghost var mid';
    first, mid := da.AdvanceL1Origin(l1, block);
    second := Skipped;
    if first == ReorgRequired {
      ghost var l := da.state.Ledger();
      da.Reset(base);
      ReprocessedBlock(b0, da.EventsOf(l1, block).value, block.number, da.cfg.resolveWindow, mid, l, true);
      second, mid' := da.AdvanceL1Origin(l1, block);
      SecondPass(mid, l, mid', da.state.Ledger(), block.number, second == ReorgRequired);
    }
  }

  /** The reset after the handshake is an ordinary one again. */
  method ResetAfterHandshake(da: DA, l1: L1, block: BlockId, base: BlockId, base': BlockId) returns (first: Advance)
    requires da.Valid() && da.cfg.resolveWindow > 0 && block.number + da.cfg.resolveWindow < 0x1_0000_0000_0000_0000
    modifies da`origin, da`finalizedHead, da`resetting
    modifies da.state, da.state.commsByKey.Values
    ensures first == ReorgRequired ==>
              da.origin == base' && !da.resetting && da.state.Ledger() == Ledger(map[], [], 0)
  {
    hide P.State.Valid, P.State.Book, DA.Advances;
    var second;
    ghost var mid;
    first, second, mid := ReorgHandshake(da, l1, block, base);
    da.Reset(base');
  }

  /** The input of a commitment whose challenge expired in that block is skipped after the handshake. */
  method InputAfterHandshake(da: DA, l1: L1, block: BlockId, base: BlockId, key: Key, bn: DWord, stored: Stored)
    returns (first: Advance, r: InputResult, ghost mid: Ledger, ghost l: Ledger)
    requires da.Valid() && da.cfg.resolveWindow > 0 && block.number + da.cfg.resolveWindow < 0x1_0000_0000_0000_0000
    modifies da`origin, da`finalizedHead, da`resetting
    modifies da.state, da.state.commsByKey.Values
    ensures first == ReorgRequired ==>
              && da.EventsOf(l1, block).Ok? && Expiry(mid, block.number, l, true)
              && mid.book
                 == ApplyEvents(old(da.state.Book()), da.EventsOf(l1, block).value, block.number, da.cfg.resolveWindow)
    ensures first == ReorgRequired && key in old(da.state.Ledger()).active && key !in l.active
            && key in mid.book && mid.book[key].status.Active? && !stored.StorageError? ==>
              r == ExpiredChallenge
  {
    hide P.State.Valid, P.State.Book, DA.LooksAhead, ApplyEvents, Expiry, Does, TrackedAs;
    ghost var l0 := da.state.Ledger();
    var second;
    first, second, mid := ReorgHandshake(da, l1, block, base);
    l := da.state.Ledger();
    ghost var origin := da.origin;
    r := da.GetInput(l1, key, true, bn, stored);
    if first == ReorgRequired && key in l0.active && key !in l.active && key in mid.book && mid.book[key].status.Active?
       && !stored.StorageError? {
      ExpiredIsSkipped(mid, block.number, l, true, key, bn, da.cfg.challengeWindow, origin.number);
    }
  }

  /** A commitment whose challenge expired is skipped from then on, if the storage answers at all. */
  lemma ExpiredIsSkipped(mid: Ledger, bn: DWord, l: Ledger, reorg: bool, k: Key, inBlock: DWord, window: DWord,
                         origin: DWord)
    requires Expiry(mid, bn, l, reorg) && Moved(mid, l, k) && mid.book[k].status.Active?
    ensures Lapsed(TrackedAs(l.book, k, inBlock, window), origin)
  {
  }

  /** The input posted on L1 is used: after the resolution of a challenge, a commitment whose data storage does not have
      gets the input of the resolution. */
  method InputAfterResolution(da: DA, l1: L1, key: Key, input: seq<Byte>, at: DWord, bn: DWord) returns (r: InputResult)
    requires da.Valid() && !da.cfg.generic && key in da.state.commsByKey
    modifies da`origin, da`finalizedHead, da`resetting
    modifies da.state, da.state.commsByKey.Values
    ensures r == Data(input)
  {
    hide P.State.Valid, P.State.Book, DA.LooksAhead, Derived;
    da.state.BookKeys();
    da.state.SetResolvedChallenge(key, input, at);
    r := da.GetInput(l1, key, true, bn, NotFound);
  }

  /** The same after a block whose last verdict on the commitment is a resolution. */
  method InputAfterBlock(da: DA, l1: L1, block: BlockId, key: Key, input: seq<Byte>, bn: DWord)
    returns (a: Advance, r: InputResult)
    requires da.Valid() && !da.cfg.generic && key in da.state.Book() && block.number > da.origin.number
    requires da.EventsOf(l1, block).Ok?
    requires LastVerdict(key, da.state.Book()[key].blockNumber, da.EventsOf(l1, block).value) == Resolve(input)
    modifies da`origin, da`finalizedHead, da`resetting
    modifies da.state, da.state.commsByKey.Values
    ensures r == Data(input)
  {
    hide P.State.Valid, P.State.Book, DA.LooksAhead, Derived, ApplyEvents, Expiry, LastVerdict, AllJoin;
    ghost var book, mid := da.state.Book(), da.state.Ledger();
    a, mid := da.AdvanceL1Origin(l1, block);
    ResolvedByBlock(book, da.EventsOf(l1, block).value, block.number, da.cfg.resolveWindow, key, input, mid,
                    da.state.Ledger(), a == ReorgRequired);
    r := da.GetInput(l1, key, true, bn, NotFound);
  }

  lemma ResolvedByBlock(b: Book, events: seq<Event>, at: DWord, window: DWord, key: Key, input: seq<Byte>, mid: Ledger,
                        l: Ledger, reorg: bool)
    requires key in b && LastVerdict(key, b[key].blockNumber, events) == Resolve(input)
    requires mid.book == ApplyEvents(b, events, at, window) && Expiry(mid, at, l, reorg)
    ensures key in l.book && l.book[key].status.Resolved? && l.book[key].input == input
  {
    EventKeysTracked(b, events, at, window, key);
    var i := EventsJudge(b, events, at, window, key);
    LastInputOf(key, i.blockNumber, events, i.input, input);
  }

  lemma {:induction false} LastInputOf(key: Key, bn: DWord, events: seq<Event>, before: seq<Byte>, input: seq<Byte>)
    requires LastVerdict(key, bn, events) == Resolve(input)
    ensures LastInput(key, bn, events, before) == input
  {
    var e := events[|events| - 1];
    if !(e.key == key && e.challengedBlock == bn && !e.verdict.Ignored?) {
      LastInputOf(key, bn, events[..|events| - 1], before, input);
    }
  }

  lemma DerivedAs(b: Book, key: Key, bn: DWord, window: DWord)
    ensures Derived(b, key, bn, window) == b[key := TrackedAs(b, key, bn, window)]
  {
  }

  lemma SecondPass(mid: Ledger, l: Ledger, mid': Ledger, l': Ledger, bn: DWord, reorg: bool)
    requires Expiry(mid, bn, l, true) && AllJoin(l, mid') && mid'.book == l.book && mid'.active == l.active
    requires Expiry(mid', bn, l', reorg)
    ensures l' == l && !reorg
  {
  }

  lemma NoEventsApply(b: Book, at: DWord, window: DWord)
    ensures ApplyEvents(b, [], at, window) == b
  {
  }

  lemma NextEvent(b: Book, events: seq<Event>, i: nat, at: DWord, window: DWord)
    requires i < |events|
    ensures ApplyEvents(b, events[..i + 1], at, window)
         == ApplyEvent(ApplyEvents(b, events[..i], at, window), events[i], at, window)
  {
    assert events[..i + 1][..i] == events[..i];
  }

  lemma DerivedBook(l: Ledger, key: Key, bn: DWord, window: DWord, l': Ledger)
    requires Does(l, Derive(key, bn, window), l')
    ensures l'.book == Derived(l.book, key, bn, window)
  {
  }

  lemma JoinNone(l: Ledger)
    ensures AllJoin(l, l)
  {
  }
}
