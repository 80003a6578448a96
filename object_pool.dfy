/**
 * The live-object pool as far as the receiver looks at it.
 *
 * An object is named by its pool index.  Its back-reference to the table slot that spawned it
 * (a raw `s16*` in C) is an (area, slot index) pair, and its parent is a pool index, or `None`
 * for a parent outside the pool.  Marking for deletion only sets a flag; reaping is elsewhere.
 */
module ObjectPool {
  import opened Wrappers
  import opened MacroTable

  /** A respawn-info slot: the area whose table holds it and its index in that table. */
  datatype Slot = Slot(area: nat, index: nat)

  datatype PoolObject = PoolObject(
    respawnInfo: Option<Slot>,
    parent: Option<nat>,
    behavior: BehKind,
    syncId: nat,
    behParams: int,
    coinMask: int,
    markedForDeletion: bool)

  /**
   * `get_object_matching_respawn_info`: the first pool index, from `from` on, whose
   * back-reference is `slot`.  Every pool entry is searched, whether active or not.
   */
  function FirstMatch(pool: seq<PoolObject>, slot: Slot, from: nat := 0): (r: Option<nat>)
    requires from <= |pool|
    ensures r.Some? ==> from <= r.value < |pool| && pool[r.value].respawnInfo == Some(slot)
    ensures forall j :: from <= j < |pool| && (r.None? || j < r.value) ==> pool[j].respawnInfo != Some(slot)
    decreases |pool| - from
  {
    if from == |pool| then None
    else if pool[from].respawnInfo == Some(slot) then Some(from)
    else FirstMatch(pool, slot, from + 1)
  }

  /** Two pools whose back-references agree give the same search result. */
  lemma {:induction false} FirstMatchBackRefsOnly(p: seq<PoolObject>, q: seq<PoolObject>, slot: Slot, from: nat)
    requires from <= |p| == |q|
    requires forall j :: 0 <= j < |p| ==> p[j].respawnInfo == q[j].respawnInfo
    ensures FirstMatch(p, slot, from) == FirstMatch(q, slot, from)
    decreases |p| - from
  {
    if from < |p| {
      FirstMatchBackRefsOnly(p, q, slot, from + 1);
    }
  }

  /** The coin formation `formation` owns object `j`: a coin or coin spawner whose parent it is. */
  predicate IsCoinChild(pool: seq<PoolObject>, formation: nat, j: nat): (r: bool)
    requires j < |pool|
    ensures r ==> j != formation && pool[j].behavior != CoinFormation
  {
    && pool[j].parent == Some(formation)
    && j != formation
    && (pool[j].behavior == CoinFormationSpawn || pool[j].behavior == YellowCoin)
  }

  /** How many children of `formation` come before pool index `j`. */
  function ChildRank(pool: seq<PoolObject>, formation: nat, j: nat): (r: nat)
    requires j <= |pool|
    ensures r <= j
  {
    if j == 0 then 0
    else ChildRank(pool, formation, j - 1) + (if IsCoinChild(pool, formation, j - 1) then 1 else 0)
  }

  function Pow2(k: nat): (r: nat)
    ensures r >= 1
  {
    if k == 0 then 1 else 2 * Pow2(k - 1)
  }

  /** `mask & (1 << k)` is non-zero.  A byte-wide mask has no bit from 8 on. */
  predicate MaskBit(mask: int, k: nat): (r: bool)
    ensures 0 <= mask < 0x100 && k >= 8 ==> !r
  {
    Pow2Byte(k);
    (mask / Pow2(k)) % 2 == 1
  }

  lemma {:induction false} Pow2Byte(k: nat)
    ensures k >= 8 ==> Pow2(k) >= 0x100
  {
    if k > 8 {
      Pow2Byte(k - 1);
    }
  }

  /**
   * The cascade over a coin formation's children: the children are numbered in pool order by
   * a `u8` counter, and a child is marked exactly when the mask has the bit of its number.
   */
  function MarkCoinChildren(pool: seq<PoolObject>, formation: nat, mask: int): (r: seq<PoolObject>)
    ensures |r| == |pool|
  {
    seq(|pool|, j requires 0 <= j < |pool| =>
      if IsCoinChild(pool, formation, j) && MaskBit(mask, ChildRank(pool, formation, j) % 0x100)
      then pool[j].(markedForDeletion := true)
      else pool[j])
  }

  /** Children are numbered in pool order without gaps or repeats. */
  lemma {:induction false} ChildRankIncreasing(pool: seq<PoolObject>, formation: nat, i: nat, j: nat)
    requires i < j < |pool| && IsCoinChild(pool, formation, i)
    ensures ChildRank(pool, formation, i) < ChildRank(pool, formation, j)
    decreases j - i
  {
    if j > i + 1 {
      ChildRankIncreasing(pool, formation, i, j - 1);
    }
  }

  /** Each number below the child count belongs to exactly one child. */
  lemma {:induction false} ChildRankOnto(pool: seq<PoolObject>, formation: nat, n: nat, k: nat)
    requires n <= |pool| && k < ChildRank(pool, formation, n)
    ensures exists j :: 0 <= j < n && IsCoinChild(pool, formation, j) && ChildRank(pool, formation, j) == k
    decreases n
  {
    if k < ChildRank(pool, formation, n - 1) {
      ChildRankOnto(pool, formation, n - 1, k);
    } else {
      assert IsCoinChild(pool, formation, n - 1) && ChildRank(pool, formation, n - 1) == k;
    }
  }

  /**
   * The cascade touches nothing but the deletion flag of the formation's children: every other
   * object, the formation itself and every other field are left as they were, and no flag is
   * ever cleared.
   */
  lemma MarkCoinChildrenFrame(pool: seq<PoolObject>, formation: nat, mask: int, j: nat)
    requires j < |pool|
    ensures var r := MarkCoinChildren(pool, formation, mask);
      && r[j].(markedForDeletion := pool[j].markedForDeletion) == pool[j]
      && (pool[j].markedForDeletion ==> r[j].markedForDeletion)
      && (!IsCoinChild(pool, formation, j) ==> r[j] == pool[j])
  {
  }

  /**
   * The worked case: a formation at index 0 with three coins at 1, 2 and 3 and the mask 0b101
   * marks the first and third coin and leaves the second.
   */
  lemma CoinCascadeExample(formation: PoolObject, coin: PoolObject)
    requires coin.parent == Some(0) && coin.behavior == YellowCoin && !coin.markedForDeletion
    ensures var r := MarkCoinChildren([formation, coin, coin, coin], 0, 5);
      r[1].markedForDeletion && !r[2].markedForDeletion && r[3].markedForDeletion
  {
    var pool := [formation, coin, coin, coin];
    assert ChildRank(pool, 0, 1) == 0;
    assert ChildRank(pool, 0, 2) == 1;
    assert ChildRank(pool, 0, 3) == 2;
    assert Pow2(2) == 4;
  }
}
