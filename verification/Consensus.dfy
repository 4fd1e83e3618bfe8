/** Consensus among RPC backends: choosing candidates, and walking back to a block they agree on
    (proxyd/consensus_poller.go).  Go iterates over maps in any order; here every iteration takes an arbitrary element,
    so what a method promises holds for all orders. */
module Consensus {
  import opened Bytes

  type Backend = string

  /** The last known state of a backend, as far as it matters for the consensus. */
  datatype BackendState = BackendState(
    latest: DWord, latestHash: string, safe: DWord, finalized: DWord,
    peerCount: nat, inSync: bool, banned: bool, healthy: bool, updatedRecently: bool)

  datatype Role = Primary | Fallback | Unassigned

  datatype BackendConfig = BackendConfig(role: Role, forcedCandidate: bool, skipPeerCountCheck: bool)

  /** A block as a backend reports it, or an error. */
  datatype Answer = Block(number: DWord, hash: string) | Error

  type Fetch = (Backend, DWord) -> Answer

  type States = map<Backend, BackendState>

  /** All candidates that answer report block h itself, with one hash. */
  ghost predicate AgreeAt(cands: set<Backend>, fetch: Fetch, h: DWord) {
    && (forall a | a in cands && fetch(a, h).Block? :: fetch(a, h).number == h)
    && (forall a, b | a in cands && b in cands && fetch(a, h).Block? && fetch(b, h).Block? ::
         fetch(a, h).hash == fetch(b, h).hash)
  }

  /** Agreement at h on the given hash. */
  ghost predicate AgreeOn(cands: set<Backend>, fetch: Fetch, h: DWord, hash: string) {
    forall a | a in cands && fetch(a, h).Block? :: fetch(a, h).number == h && fetch(a, h).hash == hash
  }

  /** What is given for the walk-back: chains do not change meanwhile, so that a recorded latest block is still
      reported; heights are positive; block hashes are not empty; and the candidates share block 0. */
  ghost predicate Settled(cands: States, fetch: Fetch) {
    && (forall a | a in cands ::
         cands[a].latest > 0 && fetch(a, cands[a].latest) == Block(cands[a].latest, cands[a].latestHash))
    && (forall a, h: DWord {:trigger fetch(a, h)} | a in cands && fetch(a, h).Block? :: fetch(a, h).hash != "")
    && AgreeAt(cands.Keys, fetch, 0)
  }

  ghost predicate Positive(cands: States, f: BackendState -> DWord) {
    forall a | a in cands :: f(cands[a]) > 0
  }

  /** v is the least value of f among these candidates, or zero when there are none. */
  ghost predicate IsLeast(cands: States, over: set<Backend>, f: BackendState -> DWord, v: DWord)
    requires over <= cands.Keys
  {
    if over == {} then v == 0
    else (forall a | a in over :: v <= f(cands[a])) && exists a :: a in over && f(cands[a]) == v
  }

  lemma LeastStep(cands: States, over: set<Backend>, f: BackendState -> DWord, v: DWord, be: Backend)
    requires over <= cands.Keys && be in cands && IsLeast(cands, over, f, v) && Positive(cands, f)
    ensures IsLeast(cands, over + {be}, f, if v == 0 || f(cands[be]) < v then f(cands[be]) else v)
  {
    if v != 0 && f(cands[be]) >= v {
      var a :| a in over && f(cands[a]) == v;
      assert a in over + {be};
    } else {
      assert be in over + {be};
    }
  }

  const LATEST := (bs: BackendState) => bs.latest
  const SAFE := (bs: BackendState) => bs.safe
  const FINALIZED := (bs: BackendState) => bs.finalized

  /** Asked for a block, a candidate reports a block of that number. */
  ghost predicate OwnNumbers(cands: States, fetch: Fetch) {
    forall a, h: DWord {:trigger fetch(a, h)} | a in cands && fetch(a, h).Block? :: fetch(a, h).number == h
  }

  /** The highest height not above `low` on which the candidates agree. */
  ghost predicate IsHighestAgreed(cands: States, fetch: Fetch, low: DWord, h: DWord) {
    && h <= low && AgreeAt(cands.Keys, fetch, h)
    && forall g: DWord {:trigger AgreeAt(cands.Keys, fetch, g)} | h < g <= low :: !AgreeAt(cands.Keys, fetch, g)
  }

  datatype Lowest = Lowest(latest: DWord, latestHash: string, safe: DWord, finalized: DWord)

  function LowerOf(low: DWord, x: DWord): DWord {
    if low == 0 || x < low then x else low
  }

  /** The lowest blocks of the candidates seen so far. */
  ghost predicate LowestOf(cands: States, seen: set<Backend>, low: Lowest)
    requires seen <= cands.Keys
  {
    && IsLeast(cands, seen, LATEST, low.latest)
    && (seen != {} ==> exists a :: a in seen && cands[a].latest == low.latest && cands[a].latestHash == low.latestHash)
    && (Positive(cands, SAFE) ==> IsLeast(cands, seen, SAFE, low.safe))
    && (Positive(cands, FINALIZED) ==> IsLeast(cands, seen, FINALIZED, low.finalized))
  }

  lemma LowestStart(cands: States)
    ensures LowestOf(cands, {}, Lowest(0, "", 0, 0))
  {
  }

  lemma LatestStep(cands: States, seen: set<Backend>, low: Lowest, be: Backend, latest: DWord, latestHash: string)
    requires seen <= cands.Keys && be in cands && LowestOf(cands, seen, low)
    requires latest == LowerOf(low.latest, cands[be].latest)
    requires latestHash
          == if low.latest == 0 || cands[be].latest < low.latest then cands[be].latestHash else low.latestHash
    ensures exists a :: a in seen + {be} && cands[a].latest == latest && cands[a].latestHash == latestHash
  {
    hide IsLeast, Positive;
    if low.latest == 0 || cands[be].latest < low.latest {
      assert be in seen + {be};
    } else {
      NoneIsZero(cands, seen, low.latest);
      var a :| a in seen && cands[a].latest == low.latest && cands[a].latestHash == low.latestHash;
      assert a in seen + {be};
    }
  }

  lemma NoneIsZero(cands: States, seen: set<Backend>, v: DWord)
    requires seen <= cands.Keys && IsLeast(cands, seen, LATEST, v)
    ensures seen == {} ==> v == 0
  {
  }

  lemma LowestStep(cands: States, seen: set<Backend>, low: Lowest, be: Backend, low': Lowest)
    requires seen <= cands.Keys && be in cands && LowestOf(cands, seen, low) && Positive(cands, LATEST)
    requires low'.latest == LowerOf(low.latest, cands[be].latest) && low'.safe == LowerOf(low.safe, cands[be].safe)
    requires low'.finalized == LowerOf(low.finalized, cands[be].finalized)
    requires low'.latestHash
          == if low.latest == 0 || cands[be].latest < low.latest then cands[be].latestHash else low.latestHash
    ensures LowestOf(cands, seen + {be}, low')
  {
    hide IsLeast, Positive;
    LatestStep(cands, seen, low, be, low'.latest, low'.latestHash);
    LeastStep(cands, seen, LATEST, low.latest, be);
    if Positive(cands, SAFE) {
      LeastStep(cands, seen, SAFE, low.safe, be);
    }
    if Positive(cands, FINALIZED) {
      LeastStep(cands, seen, FINALIZED, low.finalized, be);
    }
  }

  lemma LowestMeans(cands: States, low: Lowest)
    requires LowestOf(cands, cands.Keys, low)
    ensures IsLeast(cands, cands.Keys, LATEST, low.latest)
    ensures cands != map[] ==> exists a ::
              a in cands && cands[a].latest == low.latest && cands[a].latestHash == low.latestHash
    ensures Positive(cands, SAFE) ==> IsLeast(cands, cands.Keys, SAFE, low.safe)
    ensures Positive(cands, FINALIZED) ==> IsLeast(cands, cands.Keys, FINALIZED, low.finalized)
  {
    hide IsLeast, Positive;
  }

  /** The loop over the candidates that finds the lowest blocks, zero standing for "none yet". */
  method FindLowest(cands: States) returns (low: Lowest)
    requires Positive(cands, LATEST)
    ensures IsLeast(cands, cands.Keys, LATEST, low.latest)
    ensures cands != map[] ==> exists a ::
              a in cands && cands[a].latest == low.latest && cands[a].latestHash == low.latestHash
    ensures Positive(cands, SAFE) ==> IsLeast(cands, cands.Keys, SAFE, low.safe)
    ensures Positive(cands, FINALIZED) ==> IsLeast(cands, cands.Keys, FINALIZED, low.finalized)
  {
    hide LowestOf, Positive;
    low := Lowest(0, "", 0, 0);
    var rest, seen := cands.Keys, {};
    LowestStart(cands);
    while rest != {}
      invariant seen !! rest && seen + rest == cands.Keys && LowestOf(cands, seen, low)
    {
      var be :| be in rest;
      var bs := cands[be];
      ghost var before := low;
      if low.latest == 0 || bs.latest < low.latest {
        low := low.(latest := bs.latest, latestHash := bs.latestHash);
      }
      if low.finalized == 0 || bs.finalized < low.finalized {
        low := low.(finalized := bs.finalized);
      }
      if low.safe == 0 || bs.safe < low.safe {
        low := low.(safe := bs.safe);
      }
      LowestStep(cands, seen, before, be, low);
      rest, seen := rest - {be}, seen + {be};
    }
    LowestMeans(cands, low);
    assert seen == cands.Keys;
  }

  /** One round of the walk-back: asks the candidates for the proposed block until one disagrees.  An empty proposed
      hash is taken from the first answer. */
  method Round(cands: set<Backend>, fetch: Fetch, proposed: DWord, proposedHash: string, current: DWord)
    returns (agreed: bool, hash: string, broke: bool)
    requires forall a | a in cands && fetch(a, proposed).Block? :: fetch(a, proposed).hash != ""
    requires proposedHash == "" || exists a :: a in cands && fetch(a, proposed) == Block(proposed, proposedHash)
    ensures agreed <==> AgreeAt(cands, fetch, proposed)
    ensures agreed ==> AgreeOn(cands, fetch, proposed, hash)
    ensures broke ==> !agreed && exists a ::
              a in cands && fetch(a, proposed).Block? && current >= fetch(a, proposed).number
    ensures !agreed && (forall a | a in cands && fetch(a, proposed).Block? :: fetch(a, proposed).number == proposed) ==>
              (broke <==> current >= proposed)
  {
    hash, broke := proposedHash, false;
    var rest := cands;
    while rest != {}
      invariant rest <= cands && !broke
      invariant hash == "" || exists a :: a in cands && fetch(a, proposed).Block? && fetch(a, proposed).hash == hash
      invariant forall a | a in cands && a !in rest && fetch(a, proposed).Block? ::
                  fetch(a, proposed).number == proposed && fetch(a, proposed).hash == hash
    {
      var be :| be in rest;
      rest := rest - {be};
      var answer := fetch(be, proposed);
      if answer.Block? {
        if hash == "" {
          hash := answer.hash;
        }
        if answer.number != proposed || answer.hash != hash {
          broke := current >= answer.number;
          return false, hash, broke;
        }
      }
    }
    agreed := true;
  }

  /** The walk-back ends at the highest height not above the lowest latest block on which all candidates agree. */
  method WalkBack(cands: States, fetch: Fetch, low: DWord, lowHash: string, current: DWord)
    returns (proposed: DWord, hash: string, broken: bool)
    requires Settled(cands, fetch)
    requires exists a :: a in cands && cands[a].latest == low && cands[a].latestHash == lowHash
    ensures IsHighestAgreed(cands, fetch, low, proposed) && AgreeOn(cands.Keys, fetch, proposed, hash)
    ensures OwnNumbers(cands, fetch) ==> (broken <==> proposed < low && proposed < current)
  {
    hide AgreeOn, AgreeAt;
    proposed, hash, broken := low, lowHash, false;
    var hasConsensus := false;
    assert exists a :: a in cands.Keys && fetch(a, proposed) == Block(proposed, hash);
    while !hasConsensus
      invariant proposed <= low
      invariant forall g: DWord {:trigger AgreeAt(cands.Keys, fetch, g)} | proposed < g <= low ::
                !AgreeAt(cands.Keys, fetch, g)
      invariant if hasConsensus then AgreeAt(cands.Keys, fetch, proposed) && AgreeOn(cands.Keys, fetch, proposed, hash)
                else hash == "" || exists a :: a in cands.Keys && fetch(a, proposed) == Block(proposed, hash)
      invariant OwnNumbers(cands, fetch) ==> (broken <==> proposed < low && proposed < current)
      decreases proposed, !hasConsensus
    {
      var agreed, broke;
      agreed, hash, broke := Round(cands.Keys, fetch, proposed, hash, current);
      broken := broken || broke;
      if agreed {
        hasConsensus := true;
      } else {
        proposed := proposed - 1;
        hash := "";
      }
    }
  }

  /** There is one highest agreed height, so the order in which the candidates are asked does not matter. */
  lemma HighestAgreedUnique(cands: States, fetch: Fetch, low: DWord, h: DWord, g: DWord)
    requires IsHighestAgreed(cands, fetch, low, h) && IsHighestAgreed(cands, fetch, low, g)
    ensures h == g
  {
  }

  /** The lowest blocks of the candidates, and the block they agree on. */
  method Resolve(cands: States, fetch: Fetch, current: DWord) returns (low: Lowest, proposed: DWord, broken: bool)
    requires Settled(cands, fetch)
    ensures IsLeast(cands, cands.Keys, LATEST, low.latest)
    ensures Positive(cands, SAFE) ==> IsLeast(cands, cands.Keys, SAFE, low.safe)
    ensures Positive(cands, FINALIZED) ==> IsLeast(cands, cands.Keys, FINALIZED, low.finalized)
    ensures cands == map[] ==> proposed == 0 && !broken
    ensures cands != map[] ==> IsHighestAgreed(cands, fetch, low.latest, proposed)
    ensures cands != map[] && OwnNumbers(cands, fetch) ==> (broken <==> proposed < low.latest && proposed < current)
  {
    hide IsLeast, IsHighestAgreed, OwnNumbers, Settled, Positive;
    SettledPositive(cands, fetch);
    low := FindLowest(cands);
    LeastZero(cands, low.latest);
    proposed, broken := low.latest, false;
    if proposed > 0 {
      var hash;
      proposed, hash, broken := WalkBack(cands, fetch, low.latest, low.latestHash, current);
    }
  }

  /** The tracked block after an update with these candidates: the highest block, not above the lowest latest one,
      that all candidates agree on; the listeners were told when a disagreement, and not just lag, took it back. */
  ghost predicate Tracks(cands: States, fetch: Fetch, before: DWord, latest: DWord, signals: int) {
    if cands == map[] then latest == 0 && signals == 0
    else
      exists low ::
        && IsLeast(cands, cands.Keys, LATEST, low) && IsHighestAgreed(cands, fetch, low, latest)
        && (OwnNumbers(cands, fetch) ==> signals == if latest < low && latest < before then 1 else 0)
  }

  lemma ResolvedTracks(cands: States, fetch: Fetch, before: DWord, low: DWord, latest: DWord, broken: bool)
    requires IsLeast(cands, cands.Keys, LATEST, low)
    requires cands == map[] ==> latest == 0 && !broken
    requires cands != map[] ==> IsHighestAgreed(cands, fetch, low, latest)
    requires cands != map[] && OwnNumbers(cands, fetch) ==> (broken <==> latest < low && latest < before)
    ensures Tracks(cands, fetch, before, latest, if broken then 1 else 0)
  {
    hide IsLeast, IsHighestAgreed, OwnNumbers;
  }

  lemma TrackedUnique(cands: States, fetch: Fetch, fetch': Fetch, before: DWord, before': DWord, latest: DWord,
                      latest': DWord, signals: int, signals': int)
    requires Tracks(cands, fetch, before, latest, signals) && Tracks(cands, fetch', before', latest', signals')
    requires forall be, h | be in cands :: fetch'(be, h) == fetch(be, h)
    ensures latest' == latest
  {
    hide IsLeast, IsHighestAgreed, OwnNumbers;
    if cands != map[] {
      var low :| IsLeast(cands, cands.Keys, LATEST, low) && IsHighestAgreed(cands, fetch, low, latest);
      var low' :| IsLeast(cands, cands.Keys, LATEST, low') && IsHighestAgreed(cands, fetch', low', latest');
      LeastUnique(cands, LATEST, low, low');
      SameAgreed(cands, fetch, fetch', low, latest);
      HighestAgreedUnique(cands, fetch', low, latest, latest');
    }
  }

  /** Whether a backend may take part, before lag is looked at. */
  predicate Eligible(cfg: BackendConfig, bs: BackendState, minPeerCount: nat) {
    || cfg.forcedCandidate
    || (!bs.banned && bs.healthy && (cfg.skipPeerCountCheck || bs.peerCount >= minPeerCount) && bs.inSync
         && bs.updatedRecently)
  }

  /** Why a backend that is not forced is left out: banned, unhealthy, out of sync, stale, or short of peers. */
  predicate HasFault(cfg: BackendConfig, bs: BackendState, minPeerCount: nat) {
    && !cfg.forcedCandidate
    && (bs.banned || !bs.healthy || !bs.inSync || !bs.updatedRecently
        || (bs.peerCount < minPeerCount && !cfg.skipPeerCountCheck))
  }

  class ConsensusPoller {
    const backends: seq<Backend>
    const configs: map<Backend, BackendConfig>
    const minPeerCount: nat
    const maxBlockLag: DWord
    var backendState: States
    var latestBlock: DWord        // the tracker
    var safeBlock: DWord
    var finalizedBlock: DWord
    var consensusGroup: seq<Backend>
    var brokenSignals: nat        // how often the listeners were told that the consensus broke

    ghost predicate Valid()
      reads this`backendState
    {
      forall be | be in backends :: be in configs && be in backendState
    }

    constructor (backends: seq<Backend>, configs: map<Backend, BackendConfig>, states: States, minPeerCount: nat,
                 maxBlockLag: DWord)
      requires forall be | be in backends :: be in configs && be in states
      ensures Valid() && this.backends == backends && this.configs == configs && backendState == states
    {
      this.backends, this.configs := backends, configs;
      this.minPeerCount, this.maxBlockLag := minPeerCount, maxBlockLag;
      backendState := states;
      latestBlock, safeBlock, finalizedBlock, consensusGroup, brokenSignals := 0, 0, 0, [], 0;
    }

    /** The eligible ones among the backends of a role. */
    ghost function EligibleOf(role: Role): set<Backend>
      requires Valid()
      reads this`backendState
    {
      set be | be in backends && configs[be].role == role && Eligible(configs[be], backendState[be], minPeerCount)
    }

    /** be is eligible, and no eligible backend is ahead of it by more than the limit. */
    ghost predicate IsCandidate(role: Role, be: Backend)
      requires Valid()
      reads this`backendState
    {
      be in EligibleOf(role) && forall a | a in EligibleOf(role) ::
          (backendState[a].latest as int) - backendState[be].latest <= maxBlockLag
    }

    ghost function CandidatesOf(role: Role): States
      requires Valid()
      reads this`backendState
    {
      map be | be in EligibleOf(role) && IsCandidate(role, be) :: backendState[be]
    }

    /** A candidate of a role: a backend of that role without a fault that no backend of the role without a fault
        leads by more than the limit; nothing but its own state is known of it. */
    lemma CandidateIff(role: Role, be: Backend)
      requires Valid()
      ensures be in CandidatesOf(role) <==>
                && be in backends && configs[be].role == role && !HasFault(configs[be], backendState[be], minPeerCount)
                && forall a | a in backends && configs[a].role == role
                              && !HasFault(configs[a], backendState[a], minPeerCount) ::
                     (backendState[a].latest as int) - backendState[be].latest <= maxBlockLag
      ensures be in CandidatesOf(role) ==> CandidatesOf(role)[be] == backendState[be]
    {
      assert forall a :: a in EligibleOf(role) <==>
                           a in backends && configs[a].role == role
                           && !HasFault(configs[a], backendState[a], minPeerCount);
    }

    /** The eligible backends, without those that lag too far behind the highest of them. */
    method FilterCandidates(role: Role) returns (candidates: States)
      requires Valid()
      ensures candidates == CandidatesOf(role)
    {
      hide Eligible;
      candidates := map[];
      for i := 0 to |backends|
        invariant forall be :: be in candidates <==>
                    be in backends[..i] && configs[be].role == role
                        && Eligible(configs[be], backendState[be], minPeerCount)
        invariant forall be | be in candidates :: candidates[be] == backendState[be]
      {
        var be := backends[i];
        assert backends[..i + 1] == backends[..i] + [be];
        if configs[be].role == role && Eligible(configs[be], backendState[be], minPeerCount) {
          candidates := candidates[be := backendState[be]];
        }
      }
      assert backends[..|backends|] == backends;
      assert candidates.Keys == EligibleOf(role);
      var highest := Highest(candidates);
      var lagging: set<Backend> := {};
      var rest := candidates.Keys;
      while rest != {}
        invariant rest <= candidates.Keys
        invariant lagging == set be | be in candidates && be !in rest && highest - candidates[be].latest > maxBlockLag
      {
        var be :| be in rest;
        if highest - candidates[be].latest > maxBlockLag {
          lagging := lagging + {be};
        }
        rest := rest - {be};
      }
      candidates := candidates - lagging;
    }

    method Highest(candidates: States) returns (highest: DWord)
      ensures forall a | a in candidates :: candidates[a].latest <= highest
      ensures highest == 0 || exists a :: a in candidates && candidates[a].latest == highest
    {
      highest := 0;
      var rest := candidates.Keys;
      while rest != {}
        invariant rest <= candidates.Keys
        invariant forall a | a in candidates && a !in rest :: candidates[a].latest <= highest
        invariant highest == 0 || exists a :: a in candidates && candidates[a].latest == highest
      {
        var be :| be in rest;
        if candidates[be].latest > highest {
          highest := candidates[be].latest;
        }
        rest := rest - {be};
      }
    }

    /** Primaries take precedence; fallbacks are used when no primary qualifies. */
    method GetConsensusCandidates() returns (candidates: States)
      requires Valid()
      ensures candidates == if CandidatesOf(Primary) != map[] then CandidatesOf(Primary) else CandidatesOf(Fallback)
    {
      candidates := FilterCandidates(Primary);
      if candidates == map[] {
        candidates := FilterCandidates(Fallback);
      }
    }

    ghost function Candidates(): States
      requires Valid()
      reads this`backendState
    {
      if CandidatesOf(Primary) != map[] then CandidatesOf(Primary) else CandidatesOf(Fallback)
    }

    /** Fallbacks are candidates only when no primary is. */
    lemma PrimariesFirst(be: Backend, a: Backend)
      requires Valid() && be in Candidates()
      ensures configs[be].role == Primary || configs[be].role == Fallback
      ensures a in CandidatesOf(Primary) ==> a in Candidates() && configs[be].role == Primary
    {
    }

    /** No backend with a fault is in the group. */
    ghost predicate GroupFaultless()
      requires Valid()
      reads this`backendState, this`consensusGroup
    {
      forall be | be in consensusGroup ::
        be in backends && !HasFault(configs[be], backendState[be], minPeerCount)
    }

    lemma CandidatesFaultless()
      requires Valid() && forall be | be in consensusGroup :: be in Candidates()
      ensures GroupFaultless()
    {
      hide HasFault, CandidatesOf;
      forall be | be in consensusGroup ensures be in backends
          && !HasFault(configs[be], backendState[be], minPeerCount) {
        CandidateIff(Primary, be);
        CandidateIff(Fallback, be);
      }
    }

    /** Resolves the consensus of the group: the tracked block becomes the highest one, not above the lowest latest
        block, that all candidates agree on, whatever the order in which they are asked.  The listeners are told when
        a disagreement, and not just lag, took the consensus back. */
    method UpdateBackendGroupConsensus(fetch: Fetch)
      requires Valid() && Settled(Candidates(), fetch)
      modifies this`latestBlock, this`safeBlock, this`finalizedBlock, this`consensusGroup, this`brokenSignals
      ensures Tracks(Candidates(), fetch, old(latestBlock), latestBlock, brokenSignals - old(brokenSignals))
      ensures Positive(Candidates(), SAFE) ==> IsLeast(Candidates(), Candidates().Keys, SAFE, safeBlock)
      ensures Positive(Candidates(), FINALIZED) ==> IsLeast(Candidates(), Candidates().Keys, FINALIZED, finalizedBlock)
      ensures forall be :: be in consensusGroup <==> be in backends && be in Candidates()
      ensures GroupFaultless()
    {
      hide IsLeast, IsHighestAgreed, Positive, OwnNumbers, CandidatesOf, Settled, GroupFaultless, Tracks;
      var current := latestBlock;
      var candidates := GetConsensusCandidates();
      var low, proposed, broken := Resolve(candidates, fetch, current);
      ResolvedTracks(candidates, fetch, current, low.latest, proposed, broken);
      if broken {
        brokenSignals := brokenSignals + 1;
      }
      latestBlock, safeBlock, finalizedBlock := proposed, low.safe, low.finalized;
      consensusGroup := GroupOf(candidates);
      CandidatesFaultless();
    }

    method GroupOf(candidates: States) returns (group: seq<Backend>)
      ensures forall be :: be in group <==> be in backends && be in candidates
    {
      group := [];
      for i := 0 to |backends|
        invariant forall be :: be in group <==> be in backends[..i] && be in candidates
      {
        assert backends[..i + 1] == backends[..i] + [backends[i]];
        if backends[i] in candidates {
          group := group + [backends[i]];
        }
      }
      assert backends[..|backends|] == backends;
    }
  }

  /** The two pollers are configured alike, and know the same of all backends that have no fault with either. */
  ghost predicate AlikeButFaulty(p: ConsensusPoller, q: ConsensusPoller)
    requires p.Valid() && q.Valid()
    reads p, q
  {
    && q.backends == p.backends && q.configs == p.configs
    && q.minPeerCount == p.minPeerCount && q.maxBlockLag == p.maxBlockLag
    && forall be | be in p.backends ::
         q.backendState[be] == p.backendState[be]
         || (HasFault(p.configs[be], p.backendState[be], p.minPeerCount)
             && HasFault(q.configs[be], q.backendState[be], q.minPeerCount))
  }

  lemma SameCandidatesOf(p: ConsensusPoller, q: ConsensusPoller, role: Role)
    requires p.Valid() && q.Valid() && AlikeButFaulty(p, q)
    ensures q.CandidatesOf(role) == p.CandidatesOf(role)
  {
    hide HasFault, ConsensusPoller.CandidatesOf;
    forall be ensures be in q.CandidatesOf(role) <==> be in p.CandidatesOf(role) {
      p.CandidateIff(role, be);
      q.CandidateIff(role, be);
    }
    forall be | be in p.CandidatesOf(role) ensures q.CandidatesOf(role)[be] == p.CandidatesOf(role)[be] {
      p.CandidateIff(role, be);
      q.CandidateIff(role, be);
    }
  }

  lemma SameCandidates(p: ConsensusPoller, q: ConsensusPoller)
    requires p.Valid() && q.Valid() && AlikeButFaulty(p, q)
    ensures q.Candidates() == p.Candidates()
  {
    hide ConsensusPoller.CandidatesOf, AlikeButFaulty;
    SameCandidatesOf(p, q, Primary);
    SameCandidatesOf(p, q, Fallback);
  }

  lemma LeastUnique(cands: States, f: BackendState -> DWord, v: DWord, w: DWord)
    requires IsLeast(cands, cands.Keys, f, v) && IsLeast(cands, cands.Keys, f, w)
    ensures v == w
  {
  }

  /** What the candidates agree on depends on their own answers only. */
  lemma SameAgreed(cands: States, fetch: Fetch, fetch': Fetch, low: DWord, h: DWord)
    requires IsHighestAgreed(cands, fetch, low, h)
    requires forall be, g | be in cands :: fetch'(be, g) == fetch(be, g)
    ensures IsHighestAgreed(cands, fetch', low, h)
  {
    assert forall g: DWord :: AgreeAt(cands.Keys, fetch', g) == AgreeAt(cands.Keys, fetch, g);
  }

  /** A faulty backend has no say: two updates that differ in what such backends are thought to have and in what they
      answer track the same blocks and make up the same group. */
  method FaultyHaveNoSay(p: ConsensusPoller, q: ConsensusPoller, fetch: Fetch, fetch': Fetch, ghost cands: States)
    requires p != q && p.Valid() && q.Valid() && AlikeButFaulty(p, q) && cands == p.Candidates()
    requires Settled(cands, fetch) && Settled(cands, fetch')
    requires forall be, h | be in cands :: fetch'(be, h) == fetch(be, h)
    modifies p`latestBlock, p`safeBlock, p`finalizedBlock, p`consensusGroup, p`brokenSignals
    modifies q`latestBlock, q`safeBlock, q`finalizedBlock, q`consensusGroup, q`brokenSignals
    ensures q.latestBlock == p.latestBlock
    ensures Positive(cands, SAFE) ==> q.safeBlock == p.safeBlock
    ensures Positive(cands, FINALIZED) ==> q.finalizedBlock == p.finalizedBlock
    ensures forall be :: be in q.consensusGroup <==> be in p.consensusGroup
  {
    hide IsLeast, Tracks, Positive, Settled, ConsensusPoller.Candidates, ConsensusPoller.GroupFaultless;
    SameCandidates(p, q);
    SameBackends(p, q);
    ghost var latestP, signalsP, latestQ, signalsQ := p.latestBlock, p.brokenSignals, q.latestBlock, q.brokenSignals;
    p.UpdateBackendGroupConsensus(fetch);
    q.UpdateBackendGroupConsensus(fetch');
    TrackedUnique(cands, fetch, fetch', latestP, latestQ, p.latestBlock, q.latestBlock,
                  p.brokenSignals - signalsP, q.brokenSignals - signalsQ);
    if Positive(cands, SAFE) {
      LeastUnique(cands, SAFE, p.safeBlock, q.safeBlock);
    }
    if Positive(cands, FINALIZED) {
      LeastUnique(cands, FINALIZED, p.finalizedBlock, q.finalizedBlock);
    }
  }

  lemma SameBackends(p: ConsensusPoller, q: ConsensusPoller)
    requires p.Valid() && q.Valid() && AlikeButFaulty(p, q)
    ensures q.backends == p.backends
  {
  }

  lemma SettledPositive(cands: States, fetch: Fetch)
    requires Settled(cands, fetch)
    ensures Positive(cands, LATEST)
  {
  }

  lemma LeastZero(cands: States, v: DWord)
    requires IsLeast(cands, cands.Keys, LATEST, v) && Positive(cands, LATEST)
    ensures v == 0 <==> cands == map[]
  {
    assert cands.Keys == {} <==> cands == map[];
  }
}
