# Land slot of the booster generator

This project models the land slot of the MTGADraft booster-pack generator
(`src/LandSlot.js`) in Dafny and proves properties of that model. The land
slot picks the land card that goes into each generated pack.

- A **basic slot** (`genBasicLandSlot`) hands out a random basic land of its
  set. Its `setup` does nothing.
- A **special slot** (`landSlotHandler`) is built from three things: a list of
  basic lands, a list of candidate lands (gates, gain lands, snow taplands)
  and a rate.
  - `setup(commons)` moves every candidate found in the shared common-card
    pool, with its whole count, into the slot's private pool
    `landsToDistribute`.
  - `pick()` tests `Math.random() <= rate` and checks that the private pool
    is not empty. If both hold, it takes one copy of a random key of that
    pool. Otherwise it returns a random basic land.
- The **registries** are `BasicLandSlots`, with one basic slot per set of the
  basic-land table, and `SpecialLandSlots`, which configures seven sets by
  hand.

The model is functional:
- A pool is a `map<CardID, Copies>` with positive counts.
- `Setup` and `Pick` return the updated slot and pool instead of mutating
  them.
- A `Run` of successive picks stands for one draft session.
- The random calls of a pick arrive as an `Oracle` value. Its `roll` stands
  for `Math.random()` and is an exact real in [0, 1). Its `key` stands for
  the result of `getRandomKey`. Its `basicIndex` stands for the position
  `getRandom` picks. The predicate `Ready` states what those collaborators
  promise, plus one configuration precondition: a fallback pick needs a
  non-empty basic-land list.

Files:
- `pool.dfy` (module `Pools`): card pools, the copy count `Total`, and
  `RemoveCard`. `RemoveCard` stands for `removeCardFromDict`.
- `land_slot.dfy` (module `LandSlots`): the two slot variants, setup, pick,
  and sessions.
- `registry.dfy` (module `Registry`): the two registries.

Two consequences of the code are worth stating:
- **Rate 0 does not fully disable the private pool.** `pick` tests
  `Math.random() <= rate`, and `Math.random()` may return exactly 0, so at
  rate 0 a roll of 0 still draws from a non-empty pool (`LandSlots.RateZero`).
  No configured set uses rate 0.
- **A repeated `setup` is a no-op only against the pool the first setup
  stripped** (`SetupTwice`). Against a pool holding a candidate again, line 27
  overwrites the copies the slot still had (`SetupOverwrites`). Copies are
  therefore conserved only when no moved key is already in the private pool
  (`SetupConserves`); `SetupAccounting` gives the general balance.

## Model

| member | source | states |
|---|---|---|
| `Pools.RemoveCard` | src/LandSlot.js:35 | taking a card lowers its count by one, deletes the key when the count was 1, and leaves every other key and count as it was |
| `Pools.RemoveCardTotal` | src/LandSlot.js:35 | taking a card lowers the pool's copy total by exactly one |
| `LandSlots.NewSpecial` | src/LandSlot.js:18-23 | a configured special slot keeps its basic lands, candidates and rate, and starts with an empty private pool |
| `LandSlots.Transfer` | src/LandSlot.js:25-30 | the candidate loop leaves the common pool equal to its entries whose key is not a candidate, and the private pool equal to its old contents overlaid with the common pool's candidate entries |
| `LandSlots.Setup` | src/LandSlot.js:24-31 | a special slot's setup strips every candidate from the common pool and adds those entries, with their counts, to the private pool; the configuration never changes |
| `LandSlots.SetupTransfersOwnership` | src/LandSlot.js:25-29 | after setting up a fresh slot, the private pool holds exactly the candidates the common pool held, with the same counts; no candidate remains in the common pool; every other entry is unchanged; no key is in both pools |
| `LandSlots.SetupConserves` | src/LandSlot.js:27-28 | the copies removed from the common pool equal the copies added to the private pool, provided no moved key was already in the private pool |
| `LandSlots.SetupOverwrites` | src/LandSlot.js:27 | for every slot, pool and candidate held by both pools, setup leaves that key in the private pool with the common pool's count, so the earlier copies are lost, and removes it from the common pool |
| `LandSlots.SetupAccounting` | src/LandSlot.js:25-29 | for any setup, the common pool loses exactly the copies of its candidate entries, and the private pool gains those copies minus the old copies of the keys it overwrites |
| `LandSlots.SetupWithoutCandidates` | src/LandSlot.js:26 | setup against a common pool holding no candidate changes neither the slot nor the pool |
| `LandSlots.SetupTwice` | src/LandSlot.js:24-31 | a second setup against the pool the first setup left changes nothing |
| `LandSlots.Pick` | src/LandSlot.js:32-40 | the result is a basic land or a key of the private pool; the slot changes exactly when the roll passes and the pool is non-empty; then one copy of the returned key is taken and other keys are untouched; otherwise a basic land is returned and the slot is unchanged |
| `LandSlots.PickTakesOneCopy` | src/LandSlot.js:33-38 | a pick lowers the private pool's copy total by one when it draws from the pool, and by zero when it falls back to a basic land |
| `LandSlots.RateZero` | src/LandSlot.js:33 | at rate 0, any roll above 0 returns a basic land and leaves the slot unchanged; a roll of exactly 0 still draws from a non-empty pool |
| `LandSlots.Run` | src/LandSlot.js:32-40 | over successive picks, every card is a basic land or a key of the initial private pool; the pool only loses keys; the configuration never changes |
| `LandSlots.RateOneDrains` | src/LandSlot.js:32-40 | at rate 1 with n copies in the private pool, the first n picks come from the pool, the pool has n - k copies after k of those picks and is empty after n, and every later pick is a basic land |
| `LandSlots.SpecialSessionAtRateOne` | src/LandSlot.js:24-40 | for a fresh rate-1 slot, let n be the number of copies setup took from the common pool; the first n picks are candidates taken from that pool, and every later pick is a basic land with the private pool empty |
| `LandSlots.RunBound` | src/LandSlot.js:33-38 | at any rate, a session of k picks leaves the private pool with at most its initial copies and at most k fewer |
| `LandSlots.CandidatesOnlyKept` | src/LandSlot.js:25-36 | setup and pick keep every private-pool key among the candidates, so every card handed out is a basic land or a candidate |
| `Registry.BasicRegistry` | src/LandSlot.js:135-136 | the basic registry has a slot for exactly the sets of the basic-land table |
| `Registry.BasicSlotPicksItsBasics` | src/LandSlot.js:8-15 | a registered basic slot's setup leaves the common pool alone; its pick returns a basic land of its own set and leaves the slot unchanged; it can pick exactly when the basic-land index is in range |
| `Registry.Filter` | src/LandSlot.js:117 | the filtered list holds exactly the listed cards that the predicate accepts, and is no longer than the original |
| `Registry.SpecialRegistry` | src/LandSlot.js:45-133 | the special registry covers exactly grn, rna, m19, m20, iko, m21 and khm; every slot starts empty with its set's candidates; grn and rna have rate 1, the four others 1/2, and khm 5/12; khm's basic lands are exactly its snow basics |
| `Registry.GatesDrainAfterSetup` | src/LandSlot.js:46-55 | for grn and rna, let n be the number of copies setup took from the common pool; the first n picks are candidates of the set, and every later pick is a basic land of the set with the private pool empty |

## Left out

- `Math.random()`, `getRandom` and `getRandomKey` are not modelled. Their results are the fields of an `Oracle` value, constrained by `Ready`. Rates are exact reals, not floating point. Probabilities and convergence of the draw frequencies are not modelled.
- `getUnique` and the `Cards` database are not part of this model. A pick returns the bare card ID instead of a materialized card record.
- The khm snow-basic test reads card type strings from the card database. It is the parameter `isSnowBasic` of `Registry.SpecialRegistry`.
- `removeCardFromDict` lives in `cardUtils.js`, which is not part of this model. `Pools.RemoveCard` assumes it decrements the count and deletes the key at zero.
- `LandSlots.Ready`: a fallback pick needs `basicIndex < |basics|`, so a pick that would fall back from an empty basic-land list is not admissible. This is a configuration precondition, not a promise of `getRandom`: the source still calls `getRandom` on the empty list (lines 13 and 38) and passes its result to `getUnique`. The khm snow filter (line 117) could in principle produce an empty list; such a session is not modelled.
- Pool counts are positive (`Copies`), because the removal helper deletes a key when it reaches zero. A common pool entry with count 0 is not modelled.
- The literal card-ID lists and `BasicLandIDs.json` are configuration data. The registries take them as parameters. `Registry.SpecialRegistry` requires the seven configured sets in both tables; in the source a missing set gives `undefined` as a slot's list, and for khm line 117 calls `.filter` on `undefined`, which throws when the module loads.
- Mutation in place and the module-level singletons are not modelled. `Setup` and `Pick` return the new state instead.
- `Registry.BasicRegistry`: its contract states only the key set; what each slot does is stated by `Registry.BasicSlotPicksItsBasics`.
