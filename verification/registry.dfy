/**
 The two registries of land slots, keyed by set code.

 - Every set of the basic-land table gets a basic slot.
 - A fixed list of sets gets a special slot, each with its own candidate list
   and rate.

 The candidate lists (card UUIDs) and the basic-land table are configuration
 data and come in as parameters.
 */
module Registry {
  import opened Pools
  import opened LandSlots

  /** Short code of a card set, such as "m19". */
  type SetCode = string

  /** A basic slot for every set of the basic-land table, seeded with that set's list. */
  function BasicRegistry(basicIds: map<SetCode, seq<CardID>>): (r: map<SetCode, Slot>)
    ensures r.Keys == basicIds.Keys
  {
    map s | s in basicIds :: Basic(basicIds[s])
  }

  /**
   Every registered basic slot hands out a basic land of its own set and
   stays as it was, and its setup leaves the common pool alone.
   */
  lemma BasicSlotPicksItsBasics(basicIds: map<SetCode, seq<CardID>>, s: SetCode, o: Oracle, commons: Pool)
    requires s in basicIds
    ensures var slot := BasicRegistry(basicIds)[s];
      && Setup(slot, commons) == (slot, commons)
      && (Ready(slot, o) ==> Pick(slot, o).0 in basicIds[s] && Pick(slot, o).1 == slot)
      && (Ready(slot, o) <==> 0.0 <= o.roll < 1.0 && o.basicIndex < |basicIds[s]|)
  {
  }

  /** The elements of `xs` that `keep` accepts. */
  function Filter(xs: seq<CardID>, keep: CardID -> bool): (r: seq<CardID>)
    ensures forall x :: x in r <==> x in xs && keep(x)
    ensures |r| <= |xs|
    ensures (forall x :: x in xs ==> keep(x)) ==> r == xs
  {
    if |xs| == 0 then []
    else
      var rest := Filter(xs[1..], keep);
      assert forall x :: x in xs <==> x == xs[0] || x in xs[1..];
      if keep(xs[0]) then [xs[0]] + rest else rest
  }

  /** The sets with a special land slot. */
  const SpecialSets: set<SetCode> := {"grn", "rna", "m19", "m20", "iko", "m21", "khm"}

  /**
   The special slots, each fresh (empty private pool):
   - grn and rna: rate 1 (their gates always come through this slot);
   - m19, m20, iko and m21: rate 1/2 (half of their gain lands);
   - khm: rate 5/12, and its basic lands restricted to the snow basics
     (`isSnowBasic` stands for the card-type test of the card database).
   */
  function SpecialRegistry(basicIds: map<SetCode, seq<CardID>>, candidateIds: map<SetCode, seq<CardID>>,
                           isSnowBasic: CardID -> bool): (r: map<SetCode, Slot>)
    requires SpecialSets <= basicIds.Keys && SpecialSets <= candidateIds.Keys
    ensures r.Keys == SpecialSets
    ensures forall s :: s in r ==> r[s].Special? && r[s].toDistribute == map[] && r[s].candidates == candidateIds[s]
    ensures forall s :: s in r && s != "khm" ==> r[s].basics == basicIds[s]
    ensures forall x :: x in r["khm"].basics <==> x in basicIds["khm"] && isSnowBasic(x)
    ensures r["grn"].rate == r["rna"].rate == 1.0
    ensures r["m19"].rate == r["m20"].rate == r["iko"].rate == r["m21"].rate == 0.5
    ensures r["khm"].rate == 5.0 / 12.0
  {
    map[
      "grn" := NewSpecial(basicIds["grn"], candidateIds["grn"], 1.0),
      "rna" := NewSpecial(basicIds["rna"], candidateIds["rna"], 1.0),
      "m19" := NewSpecial(basicIds["m19"], candidateIds["m19"], 1.0 / 2.0),
      "m20" := NewSpecial(basicIds["m20"], candidateIds["m20"], 1.0 / 2.0),
      "iko" := NewSpecial(basicIds["iko"], candidateIds["iko"], 1.0 / 2.0),
      "m21" := NewSpecial(basicIds["m21"], candidateIds["m21"], 1.0 / 2.0),
      "khm" := NewSpecial(Filter(basicIds["khm"], isSnowBasic), candidateIds["khm"], 5.0 / 12.0)
    ]
  }

  /**
   A whole session of grn or rna: setup moves n copies of candidate lands out
   of the common pool, and successive picks then hand out exactly those n
   copies first, one per pick, before every later pick returns a basic land.
   */
  lemma {:induction false} GatesDrainAfterSetup(basicIds: map<SetCode, seq<CardID>>, candidateIds: map<SetCode, seq<CardID>>,
                                                isSnowBasic: CardID -> bool, s: SetCode, commons: Pool, os: seq<Oracle>)
    requires SpecialSets <= basicIds.Keys && SpecialSets <= candidateIds.Keys
    requires s == "grn" || s == "rna"
    requires Admissible(Setup(SpecialRegistry(basicIds, candidateIds, isSnowBasic)[s], commons).0, os)
    ensures var setup := Setup(SpecialRegistry(basicIds, candidateIds, isSnowBasic)[s], commons);
      var n := Total(commons) - Total(setup.1);
      var run := Run(setup.0, os);
      && (forall i :: 0 <= i < |os| && i < n ==> run.0[i] in candidateIds[s] && run.0[i] in commons)
      && (forall i :: 0 <= i < |os| && n <= i ==> run.0[i] in basicIds[s])
      && (n <= |os| ==> run.1.toDistribute == map[])
      && (|os| <= n ==> Total(run.1.toDistribute) == n - |os|)
  {
    var initial := SpecialRegistry(basicIds, candidateIds, isSnowBasic)[s];
    assert initial == NewSpecial(basicIds[s], candidateIds[s], 1.0);
    SpecialSessionAtRateOne(initial, commons, os);
  }
}
