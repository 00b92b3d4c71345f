/**
 The land slot of a booster pack: which land goes into the next pack.

 A basic slot always hands out a random basic land of its set. A special slot
 first moves its candidate lands out of the shared common pool into a private
 pool (`Setup`). After that, every pick either takes one copy of a random key
 of that private pool, so sampling there is without replacement, or falls back
 to a random basic land, which is sampled with replacement.

 The random draws of one pick arrive as an `Oracle` value:
 - `roll` stands for `Math.random()`;
 - `key` stands for the key `getRandomKey` returns;
 - `basicIndex` stands for the position `getRandom` picks in the basic-land list.
 */
module LandSlots {
  import opened Pools

  datatype Slot =
    | Basic(basics: seq<CardID>)
    | Special(basics: seq<CardID>, candidates: seq<CardID>, rate: real, toDistribute: Pool)

  /** The outcome of the three random calls one pick can make. */
  datatype Oracle = Oracle(roll: real, key: CardID, basicIndex: nat)

  /** A special slot as configured, before any setup: its private pool is empty. */
  function NewSpecial(basics: seq<CardID>, candidates: seq<CardID>, rate: real): (s: Slot)
    ensures s.Special? && s.toDistribute == map[]
    ensures s.basics == basics && s.candidates == candidates && s.rate == rate
  {
    Special(basics, candidates, rate, map[])
  }

  /** Same configuration: the same variant, basic lands, candidates and rate. */
  predicate SameConfig(s: Slot, t: Slot)
  {
    && s.Basic? == t.Basic?
    && s.basics == t.basics
    && (s.Special? ==> s.candidates == t.candidates && s.rate == t.rate)
  }

  // ---------------------------------------------------------------------------
  // Setup
  // ---------------------------------------------------------------------------

  /** Reference definition: what the common pool keeps, every candidate key deleted. */
  function Strip(commons: Pool, candidates: seq<CardID>): Pool
  {
    map k | k in commons && k !in candidates :: commons[k]
  }

  /** Reference definition: the entries of the common pool that belong to a candidate. */
  function Moved(commons: Pool, candidates: seq<CardID>): Pool
  {
    map k | k in commons && k in candidates :: commons[k]
  }

  /**
   The loop of a special slot's setup, one candidate at a time in configuration
   order: a candidate present in `commons` has its whole count copied into
   `dist` (overwriting what `dist` had for it) and its key deleted from
   `commons`. Returns the new common pool and the new private pool.
   */
  function Transfer(candidates: seq<CardID>, commons: Pool, dist: Pool): (r: (Pool, Pool))
    ensures r.0 == Strip(commons, candidates)
    ensures r.1 == dist + Moved(commons, candidates)
    decreases |candidates|
  {
    if |candidates| == 0 then
      assert Strip(commons, candidates) == commons;
      assert Moved(commons, candidates) == map[];
      (commons, dist)
    else
      var c := candidates[0];
      var rest := candidates[1..];
      if c in commons then
        TransferStepPresent(candidates, commons, dist);
        Transfer(rest, commons - {c}, dist[c := commons[c]])
      else
        TransferStepAbsent(candidates, commons);
        Transfer(rest, commons, dist)
  }

  /** One step of `Transfer` on a candidate the common pool holds. */
  lemma TransferStepPresent(candidates: seq<CardID>, commons: Pool, dist: Pool)
    requires |candidates| > 0 && candidates[0] in commons
    ensures var c := candidates[0];
      && Strip(commons - {c}, candidates[1..]) == Strip(commons, candidates)
      && dist[c := commons[c]] + Moved(commons - {c}, candidates[1..]) == dist + Moved(commons, candidates)
  {
  }

  /** One step of `Transfer` on a candidate the common pool lacks. */
  lemma TransferStepAbsent(candidates: seq<CardID>, commons: Pool)
    requires |candidates| > 0 && candidates[0] !in commons
    ensures Strip(commons, candidates[1..]) == Strip(commons, candidates)
    ensures Moved(commons, candidates[1..]) == Moved(commons, candidates)
  {
    assert forall k :: k in candidates <==> k == candidates[0] || k in candidates[1..];
  }

  /**
   `setup(commons)`: a basic slot leaves everything alone; a special slot
   moves its candidate lands from the common pool into its private pool.
   Returns the slot after setup and the common pool after setup.
   */
  function Setup(slot: Slot, commons: Pool): (r: (Slot, Pool))
    ensures SameConfig(slot, r.0)
    ensures slot.Basic? ==> r.0 == slot && r.1 == commons
    ensures slot.Special? ==> r.1 == Strip(commons, slot.candidates)
    ensures slot.Special? ==> r.0.toDistribute == slot.toDistribute + Moved(commons, slot.candidates)
  {
    match slot
    case Basic(_) => (slot, commons)
    case Special(_, candidates, _, dist) =>
      var t := Transfer(candidates, commons, dist);
      (slot.(toDistribute := t.1), t.0)
  }

  /**
   Ownership moves, it is not copied: after setting up a fresh special slot,
   every key of its private pool is a candidate that the common pool held,
   with the count the common pool had; the common pool keeps no candidate and
   every other entry unchanged; no key is owned by both pools.
   */
  lemma {:induction false} SetupTransfersOwnership(slot: Slot, commons: Pool)
    requires slot.Special? && slot.toDistribute == map[]
    ensures var (s, c) := Setup(slot, commons);
      && (forall k :: k in s.toDistribute <==> k in slot.candidates && k in commons)
      && (forall k :: k in s.toDistribute ==> s.toDistribute[k] == commons[k])
      && (forall k :: k in slot.candidates ==> k !in c)
      && (forall k :: k !in slot.candidates && k in commons ==> k in c && c[k] == commons[k])
      && (forall k :: k in c ==> k in commons)
      && s.toDistribute.Keys !! c.Keys
  {
  }

  /**
   Setup conserves copies: what leaves the common pool arrives in the private
   pool. This needs that no candidate found in the common pool already sits in
   the private pool, as for a slot set up for the first time; otherwise the
   old count is overwritten (see `SetupOverwrites`).
   */
  lemma {:induction false} SetupConserves(slot: Slot, commons: Pool)
    requires slot.Special?
    requires forall k :: k in slot.candidates && k in commons ==> k !in slot.toDistribute
    ensures var r := Setup(slot, commons);
      Total(commons) - Total(r.1) == Total(r.0.toDistribute) - Total(slot.toDistribute)
  {
    var strip := Strip(commons, slot.candidates);
    var moved := Moved(commons, slot.candidates);
    assert strip.Keys !! moved.Keys;
    assert commons == strip + moved by {
      assert commons.Keys == (strip + moved).Keys;
    }
    TotalUnion(strip, moved);
    assert slot.toDistribute.Keys !! moved.Keys;
    TotalUnion(slot.toDistribute, moved);
  }

  /**
   A candidate the private pool already holds and the common pool holds again
   ends with the common pool's count: the earlier copies are dropped.
   */
  lemma SetupOverwrites(slot: Slot, commons: Pool, k: CardID)
    requires slot.Special? && k in slot.candidates && k in commons && k in slot.toDistribute
    ensures k in Setup(slot, commons).0.toDistribute
    ensures Setup(slot, commons).0.toDistribute[k] == commons[k]
    ensures k !in Setup(slot, commons).1
  {
  }

  /** The private-pool entries that a setup against `commons` overwrites. */
  function Overwritten(slot: Slot, commons: Pool): Pool
    requires slot.Special?
  {
    map k | k in slot.toDistribute && k in commons && k in slot.candidates :: slot.toDistribute[k]
  }

  /**
   Copy accounting of any setup: the private pool gains every copy moved out
   of the common pool and loses the old copies of the keys it overwrites.
   */
  lemma {:induction false} SetupAccounting(slot: Slot, commons: Pool)
    requires slot.Special?
    ensures var r := Setup(slot, commons);
      && Total(commons) == Total(r.1) + Total(Moved(commons, slot.candidates))
      && Total(r.0.toDistribute) + Total(Overwritten(slot, commons))
         == Total(slot.toDistribute) + Total(Moved(commons, slot.candidates))
  {
    var dist := slot.toDistribute;
    var strip := Strip(commons, slot.candidates);
    var moved := Moved(commons, slot.candidates);
    var lost := Overwritten(slot, commons);
    var kept := dist - moved.Keys;
    assert commons == strip + moved by {
      assert commons.Keys == (strip + moved).Keys;
    }
    TotalUnion(strip, moved);
    assert dist == kept + lost by {
      assert dist.Keys == (kept + lost).Keys;
    }
    TotalUnion(kept, lost);
    assert dist + moved == kept + moved by {
      assert (dist + moved).Keys == (kept + moved).Keys;
    }
    TotalUnion(kept, moved);
  }

  /**
   Setup against a common pool holding none of the candidates changes nothing;
   in particular a second setup against the pool the first one stripped is a
   no-op.
   */
  lemma SetupWithoutCandidates(slot: Slot, commons: Pool)
    requires slot.Special? ==> forall k :: k in slot.candidates ==> k !in commons
    ensures Setup(slot, commons) == (slot, commons)
  {
    if slot.Special? {
      assert Strip(commons, slot.candidates) == commons;
      assert Moved(commons, slot.candidates) == map[];
      assert slot.toDistribute + map[] == slot.toDistribute;
    }
  }

  /** A second setup against the common pool the first one left changes nothing. */
  lemma SetupTwice(slot: Slot, commons: Pool)
    ensures var (s, c) := Setup(slot, commons);
      Setup(s, c) == (s, c)
  {
    var (s, c) := Setup(slot, commons);
    SetupWithoutCandidates(s, c);
  }

  // ---------------------------------------------------------------------------
  // Pick
  // ---------------------------------------------------------------------------

  /**
   Whether a pick takes a copy from the private pool: the slot is special,
   the roll passes `roll <= rate`, and the private pool is not empty.
   */
  predicate DrawsSpecial(slot: Slot, roll: real)
  {
    slot.Special? && roll <= slot.rate && |slot.toDistribute| > 0
  }

  /**
   What the random collaborators promise for one pick: the roll lies in
   [0, 1); the key is a key of the private pool when that pool is drawn from;
   the basic-land index is in range when a basic land is returned.
   */
  predicate Ready(slot: Slot, o: Oracle)
  {
    && 0.0 <= o.roll < 1.0
    && (DrawsSpecial(slot, o.roll) ==> o.key in slot.toDistribute)
    && (!DrawsSpecial(slot, o.roll) ==> o.basicIndex < |slot.basics|)
  }

  /**
   `pick()`: returns the card for one pack and the slot afterwards. Either
   one copy of a private-pool key is taken (count down by one, key deleted at
   zero, other keys untouched), or a basic land is returned and the slot is
   left exactly as it was.
   */
  function Pick(slot: Slot, o: Oracle): (r: (CardID, Slot))
    requires Ready(slot, o)
    ensures SameConfig(slot, r.1)
    ensures r.0 in slot.basics || (slot.Special? && r.0 in slot.toDistribute)
    ensures r.1 != slot <==> DrawsSpecial(slot, o.roll)
    ensures !DrawsSpecial(slot, o.roll) ==> r.0 in slot.basics && r.1 == slot
    ensures DrawsSpecial(slot, o.roll) ==>
      && r.0 in slot.toDistribute
      && (r.0 in r.1.toDistribute <==> slot.toDistribute[r.0] > 1)
      && (r.0 in r.1.toDistribute ==> r.1.toDistribute[r.0] == slot.toDistribute[r.0] - 1)
      && (forall k :: k != r.0 ==> (k in r.1.toDistribute <==> k in slot.toDistribute))
      && (forall k :: k != r.0 && k in r.1.toDistribute ==> r.1.toDistribute[k] == slot.toDistribute[k])
  {
    if DrawsSpecial(slot, o.roll) then
      (o.key, slot.(toDistribute := RemoveCard(slot.toDistribute, o.key)))
    else
      (slot.basics[o.basicIndex], slot)
  }

  /** A pick from the private pool takes exactly one copy; a fallback takes none. */
  lemma PickTakesOneCopy(slot: Slot, o: Oracle)
    requires slot.Special? && Ready(slot, o)
    ensures Total(Pick(slot, o).1.toDistribute) + (if DrawsSpecial(slot, o.roll) then 1 else 0)
            == Total(slot.toDistribute)
  {
    if DrawsSpecial(slot, o.roll) {
      RemoveCardTotal(slot.toDistribute, o.key);
    }
  }

  /**
   With rate 0 the comparison `roll <= rate` passes only for a roll of exactly
   0: every other roll returns a basic land, but a roll of 0 still draws from a
   non-empty private pool.
   */
  lemma RateZero(slot: Slot, o: Oracle)
    requires slot.Special? && slot.rate == 0.0 && Ready(slot, o)
    ensures o.roll > 0.0 ==> Pick(slot, o).0 in slot.basics && Pick(slot, o).1 == slot
    ensures o.roll == 0.0 && slot.toDistribute != map[] ==> Pick(slot, o).0 in slot.toDistribute
  {
  }

  // ---------------------------------------------------------------------------
  // A session: successive picks
  // ---------------------------------------------------------------------------

  /** Every pick of the sequence meets `Ready` in the state the earlier picks left. */
  predicate Admissible(slot: Slot, os: seq<Oracle>)
    decreases |os|
  {
    |os| == 0 || (Ready(slot, os[0]) && Admissible(Pick(slot, os[0]).1, os[1..]))
  }

  /**
   One pick per oracle value, in order. Returns the cards picked and the slot
   at the end. Every card is a basic land or a key of the private pool as it
   was at the start, the private pool only loses keys, and the configuration
   never changes.
   */
  function Run(slot: Slot, os: seq<Oracle>): (r: (seq<CardID>, Slot))
    requires Admissible(slot, os)
    ensures |r.0| == |os|
    ensures SameConfig(slot, r.1)
    ensures slot.Special? ==> r.1.toDistribute.Keys <= slot.toDistribute.Keys
    ensures forall i :: 0 <= i < |r.0| ==>
      r.0[i] in slot.basics || (slot.Special? && r.0[i] in slot.toDistribute)
    decreases |os|
  {
    if |os| == 0 then ([], slot)
    else
      var p := Pick(slot, os[0]);
      var rest := Run(p.1, os[1..]);
      ([p.0] + rest.0, rest.1)
  }

  /**
   With rate 1 every roll in [0, 1) passes, so a non-empty private pool is
   always drawn from: with n copies in it, the first n picks take them all,
   one each, and every later pick returns a basic land with the pool empty.
   */
  lemma {:induction false} RateOneDrains(slot: Slot, os: seq<Oracle>)
    requires slot.Special? && 1.0 <= slot.rate
    requires Admissible(slot, os)
    ensures var n := Total(slot.toDistribute);
      var run := Run(slot, os);
      && (|os| <= n ==> Total(run.1.toDistribute) == n - |os|)
      && (n <= |os| ==> run.1.toDistribute == map[])
      && (forall i :: 0 <= i < |os| && i < n ==> run.0[i] in slot.toDistribute)
      && (forall i :: 0 <= i < |os| && n <= i ==> run.0[i] in slot.basics)
  {
    RateOneEmpties(slot, os);
    RateOneOrder(slot, os);
  }

  /** One pick at rate 1: a copy from a non-empty private pool, else a basic land. */
  lemma RateOneStep(slot: Slot, o: Oracle)
    requires slot.Special? && 1.0 <= slot.rate && Ready(slot, o)
    ensures var p := Pick(slot, o);
      && p.1.Special? && p.1.rate == slot.rate && p.1.basics == slot.basics
      && p.1.toDistribute.Keys <= slot.toDistribute.Keys
      && (slot.toDistribute == map[] ==> p.0 in slot.basics && p.1 == slot)
      && (slot.toDistribute != map[] ==>
            p.0 in slot.toDistribute && Total(p.1.toDistribute) == Total(slot.toDistribute) - 1)
  {
    PickTakesOneCopy(slot, o);
  }

  /** The count part of `RateOneDrains`. */
  lemma {:induction false} RateOneEmpties(slot: Slot, os: seq<Oracle>)
    requires slot.Special? && 1.0 <= slot.rate
    requires Admissible(slot, os)
    ensures var n := Total(slot.toDistribute);
      var last := Run(slot, os).1;
      && (|os| <= n ==> Total(last.toDistribute) == n - |os|)
      && (n <= |os| ==> last.toDistribute == map[])
    decreases |os|
  {
    if |os| > 0 {
      RateOneStep(slot, os[0]);
      RateOneEmpties(Pick(slot, os[0]).1, os[1..]);
    }
  }

  /** The order part of `RateOneDrains`: pool copies first, then basic lands. */
  lemma {:induction false} RateOneOrder(slot: Slot, os: seq<Oracle>)
    requires slot.Special? && 1.0 <= slot.rate
    requires Admissible(slot, os)
    ensures forall i :: 0 <= i < |os| && i < Total(slot.toDistribute) ==> Run(slot, os).0[i] in slot.toDistribute
    ensures forall i :: 0 <= i < |os| && Total(slot.toDistribute) <= i ==> Run(slot, os).0[i] in slot.basics
    decreases |os|
  {
    if |os| > 0 {
      var p := Pick(slot, os[0]);
      RateOneStep(slot, os[0]);
      RateOneOrder(p.1, os[1..]);
      assert |Run(p.1, os[1..]).0| == |os| - 1;
      OrderStep(Run(slot, os).0, p.0, Run(p.1, os[1..]).0, slot.toDistribute, p.1.toDistribute,
                slot.basics, Total(slot.toDistribute), Total(p.1.toDistribute));
    }
  }

  /**
   The sequence step of `RateOneOrder`: prefixing one pool card to a run whose
   first n - 1 cards come from the pool, or one basic land to a run of basic
   lands when the pool is empty.
   */
  lemma OrderStep(cards: seq<CardID>, head: CardID, rest: seq<CardID>, pool: Pool, pool': Pool,
                  basics: seq<CardID>, n: nat, n': nat)
    requires cards == [head] + rest
    requires forall j :: 0 <= j < |rest| && j < n' ==> rest[j] in pool'
    requires forall j :: 0 <= j < |rest| && n' <= j ==> rest[j] in basics
    requires pool'.Keys <= pool.Keys
    requires (n == 0 && n' == 0 && head in basics) || (0 < n && n' == n - 1 && head in pool)
    ensures forall i :: 0 <= i < |cards| && i < n ==> cards[i] in pool
    ensures forall i :: 0 <= i < |cards| && n <= i ==> cards[i] in basics
  {
  }

  /** The session of a fresh special slot with rate 1: setup, then successive picks. */
  lemma {:induction false} SpecialSessionAtRateOne(initial: Slot, commons: Pool, os: seq<Oracle>)
    requires initial.Special? && initial.toDistribute == map[] && initial.rate == 1.0
    requires Admissible(Setup(initial, commons).0, os)
    ensures var n := Total(commons) - Total(Setup(initial, commons).1);
      var run := Run(Setup(initial, commons).0, os);
      && (forall i :: 0 <= i < |os| && i < n ==> run.0[i] in initial.candidates && run.0[i] in commons)
      && (forall i :: 0 <= i < |os| && n <= i ==> run.0[i] in initial.basics)
      && (n <= |os| ==> run.1.toDistribute == map[])
      && (|os| <= n ==> Total(run.1.toDistribute) == n - |os|)
  {
    var slot := Setup(initial, commons).0;
    SetupConserves(initial, commons);
    SetupTransfersOwnership(initial, commons);
    DrainAfterSetup(initial, slot, commons, os);
  }

  /** `RateOneDrains`, restated for a slot whose private pool came out of `commons`. */
  lemma {:induction false} DrainAfterSetup(initial: Slot, slot: Slot, commons: Pool, os: seq<Oracle>)
    requires initial.Special? && slot.Special? && 1.0 <= slot.rate
    requires slot.basics == initial.basics
    requires forall k :: k in slot.toDistribute ==> k in initial.candidates && k in commons
    requires Admissible(slot, os)
    ensures var n := Total(slot.toDistribute);
      var run := Run(slot, os);
      && (forall i :: 0 <= i < |os| && i < n ==> run.0[i] in initial.candidates && run.0[i] in commons)
      && (forall i :: 0 <= i < |os| && n <= i ==> run.0[i] in initial.basics)
      && (n <= |os| ==> run.1.toDistribute == map[])
      && (|os| <= n ==> Total(run.1.toDistribute) == n - |os|)
  {
    RateOneDrains(slot, os);
  }

  /**
   Whatever the rate, the private pool of a session loses at most one copy per
   pick and never grows.
   */
  lemma {:induction false} RunBound(slot: Slot, os: seq<Oracle>)
    requires slot.Special? && Admissible(slot, os)
    ensures var last := Run(slot, os).1;
      && Total(last.toDistribute) <= Total(slot.toDistribute)
      && Total(slot.toDistribute) <= Total(last.toDistribute) + |os|
    decreases |os|
  {
    if |os| > 0 {
      var p := Pick(slot, os[0]);
      PickTakesOneCopy(slot, os[0]);
      RunBound(p.1, os[1..]);
    }
  }

  // ---------------------------------------------------------------------------
  // The candidate invariant
  // ---------------------------------------------------------------------------

  /** Every key of a special slot's private pool is one of its candidates. */
  predicate CandidatesOnly(slot: Slot)
  {
    slot.Special? ==> forall k :: k in slot.toDistribute ==> k in slot.candidates
  }

  /**
   Setup and pick keep the private pool within the candidates, so every card
   a slot hands out is one of its basic lands or one of its candidates.
   */
  lemma CandidatesOnlyKept(slot: Slot, commons: Pool, o: Oracle)
    requires CandidatesOnly(slot)
    ensures CandidatesOnly(Setup(slot, commons).0)
    ensures Ready(slot, o) ==> CandidatesOnly(Pick(slot, o).1)
    ensures Ready(slot, o) ==>
      Pick(slot, o).0 in slot.basics || (slot.Special? && Pick(slot, o).0 in slot.candidates)
  {
  }
}
