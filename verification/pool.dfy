/**
 Card pools: how many copies of each card printing are still available.

 A pool maps a card identifier to a positive count. The helper that takes a
 copy out of a pool decrements the count and deletes the key when it reaches
 zero, so a key never stays in a pool with no copies left; the `Copies`
 subset type records that.
 */
module Pools {

  /** Opaque identifier of one card printing (a UUID in the card database). */
  type CardID = string

  /** A number of copies still available. */
  type Copies = n: nat | 0 < n witness 1

  type Pool = map<CardID, Copies>

  /** Some key of a non-empty pool; one fixed choice per pool. */
  ghost function AnyKey(p: Pool): (k: CardID)
    requires p != map[]
    ensures k in p
  {
    var k :| k in p; k
  }

  /** The number of copies held by a pool, over all its keys. */
  ghost function Total(p: Pool): (t: nat)
    ensures t == 0 <==> p == map[]
    decreases |p|
  {
    if p == map[] then 0
    else
      var k := AnyKey(p);
      assert |p - {k}| == |p| - 1 by { assert (p - {k}).Keys == p.Keys - {k}; }
      p[k] + Total(p - {k})
  }

  /** Removing any one key, not only the one `Total` happens to choose, splits off its count. */
  lemma {:induction false} TotalRemove(p: Pool, k: CardID)
    requires k in p
    ensures Total(p) == p[k] + Total(p - {k})
    decreases |p|
  {
    var j := AnyKey(p);
    if j != k {
      assert (p - {j}).Keys == p.Keys - {j};
      assert (p - {k}).Keys == p.Keys - {k};
      TotalRemove(p - {j}, k);
      TotalRemove(p - {k}, j);
      assert p - {j} - {k} == p - {k} - {j};
    }
  }

  /** Deleting a key of `b` from `a + b` deletes it from `b` alone. */
  lemma UnionRemove(a: Pool, b: Pool, k: CardID)
    requires k in b && k !in a
    ensures (a + b) - {k} == a + (b - {k})
  {
  }

  /** The copies of two pools with disjoint keys add up. */
  lemma {:induction false} TotalUnion(a: Pool, b: Pool)
    requires a.Keys !! b.Keys
    ensures Total(a + b) == Total(a) + Total(b)
    decreases |b|
  {
    if b != map[] {
      var k := AnyKey(b);
      var b' := b - {k};
      assert b'.Keys == b.Keys - {k};
      TotalUnion(a, b');
      TotalRemove(a + b, k);
      TotalRemove(b, k);
      UnionRemove(a, b, k);
      assert Total(a + b) == b[k] + Total(a + b');
    } else {
      assert a + b == a;
    }
  }

  /**
   Takes one copy of `c` out of `p`: its count drops by one and the key is
   deleted once no copy is left. Every other key keeps its count.
   */
  function RemoveCard(p: Pool, c: CardID): (r: Pool)
    requires c in p
    ensures c in r <==> p[c] > 1
    ensures c in r ==> r[c] == p[c] - 1
    ensures forall k :: k != c ==> (k in r <==> k in p)
    ensures forall k :: k != c && k in r ==> r[k] == p[k]
  {
    if p[c] == 1 then p - {c} else p[c := p[c] - 1]
  }

  /** Taking a copy lowers the pool's total by exactly one. */
  lemma RemoveCardTotal(p: Pool, c: CardID)
    requires c in p
    ensures Total(RemoveCard(p, c)) + 1 == Total(p)
  {
    var r := RemoveCard(p, c);
    TotalRemove(p, c);
    if c in r {
      TotalRemove(r, c);
      assert r - {c} == p - {c};
    } else {
      assert r == p - {c};
    }
  }
}
