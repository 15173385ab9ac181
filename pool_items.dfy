/**
 * The constant pool: a read-only array of tagged 64-bit items addressed by a
 * 1-based index (index 0 is never valid). Bits 60 to 63 of an item carry its
 * tags; every classifier answers false outside 1..count and never fails.
 */
module PoolItems {
  /** The pool as the engine sees it: `pool_item_count_` is the length of `items`. */
  datatype PoolItems = PoolItems(items: seq<bv64>)

  /** Bit `k` of a 64-bit item. */
  predicate Bit(x: bv64, k: nat)
    requires k < 64
  {
    (x >> k) & 1 == 1
  }

  predicate InRange(pool: PoolItems, index: nat) {
    1 <= index <= |pool.items|
  }

  predicate IsConstant(pool: PoolItems, index: nat) {
    if index > |pool.items| || index == 0 then false
    else pool.items[index - 1] & 0x8000_0000_0000_0000 == 0
  }

  predicate IsInText(pool: PoolItems, index: nat) {
    if index > |pool.items| || index == 0 then false
    else pool.items[index - 1] & 0x4000_0000_0000_0000 == 0x4000_0000_0000_0000
  }

  predicate IsFunctionTableList(pool: PoolItems, index: nat) {
    if index > |pool.items| || index == 0 then false
    else pool.items[index - 1] & 0x2000_0000_0000_0000 == 0x2000_0000_0000_0000
  }

  predicate IsFunctionInTable(pool: PoolItems, index: nat) {
    if index > |pool.items| || index == 0 then false
    else pool.items[index - 1] & 0x1000_0000_0000_0000 == 0x1000_0000_0000_0000
  }

  predicate IsTerminateFunction(pool: PoolItems, index: nat) {
    if index > |pool.items| || index == 0 then false
    else pool.items[index - 1] & 0x8000_0001_0000_0000 == 0x8000_0001_0000_0000
  }

  /**
   * `get_pool_item_constant`: 0 for anything that is not a constant (an
   * out-of-range index included); otherwise the item's low 32 bits, which the
   * tag strip leaves untouched.
   */
  function GetConstant(pool: PoolItems, index: nat): (r: bv32)
    ensures !IsConstant(pool, index) ==> r == 0
    ensures IsConstant(pool, index) ==> r as bv64 == pool.items[index - 1] & 0xFFFF_FFFF
  {
    if !IsConstant(pool, index) then 0
    else ((pool.items[index - 1] & !(0x1000_0000_0000_0000 | 0x2000_0000_0000_0000 | 0x4000_0000_0000_0000)) & 0xFFFF_FFFF) as bv32
  }

  /**
   * Each classifier is one tag test on the item at `index - 1`, and false out
   * of range: constant iff bit 63 is clear, in-text iff bit 62, function-table
   * list iff bit 61, function-in-table iff bit 60, terminate iff bits 63 and 32.
   */
  lemma {:induction false} TagBits(pool: PoolItems, index: nat)
    ensures !InRange(pool, index) ==>
      !IsConstant(pool, index) && !IsInText(pool, index) && !IsFunctionTableList(pool, index)
      && !IsFunctionInTable(pool, index) && !IsTerminateFunction(pool, index)
    ensures InRange(pool, index) ==>
      var item := pool.items[index - 1];
      && (IsConstant(pool, index) <==> !Bit(item, 63))
      && (IsInText(pool, index) <==> Bit(item, 62))
      && (IsFunctionTableList(pool, index) <==> Bit(item, 61))
      && (IsFunctionInTable(pool, index) <==> Bit(item, 60))
      && (IsTerminateFunction(pool, index) <==> Bit(item, 63) && Bit(item, 32))
  {
  }

  /** A terminate-function item is never a constant, so its payload reads as 0. */
  lemma {:induction false} TerminateIsNotConstant(pool: PoolItems, index: nat)
    ensures IsTerminateFunction(pool, index) ==> !IsConstant(pool, index) && GetConstant(pool, index) == 0
  {
  }

  /** The pool read through the 32-bit element type the class declares. */
  function Widen(items: seq<bv32>): (wide: seq<bv64>)
    ensures |wide| == |items|
    ensures forall i | 0 <= i < |items| :: wide[i] == items[i] as bv64
  {
    if items == [] then [] else [items[0] as bv64] + Widen(items[1..])
  }

  /**
   * With 32-bit items, as the class declares them, every tag test reads a
   * zero upper half: every in-range item is a constant whose payload is the
   * raw item, and no item is ever in-text, a function table or a terminator.
   */
  lemma {:induction false} DeclaredWidthDropsTags(items: seq<bv32>, index: nat)
    ensures var pool := PoolItems(Widen(items));
      && (IsConstant(pool, index) <==> 1 <= index <= |items|)
      && !IsInText(pool, index) && !IsFunctionTableList(pool, index)
      && !IsFunctionInTable(pool, index) && !IsTerminateFunction(pool, index)
      && (1 <= index <= |items| ==> GetConstant(pool, index) == items[index - 1])
  {
    var pool := PoolItems(Widen(items));
    if 1 <= index <= |items| {
      assert pool.items[index - 1] == items[index - 1] as bv64;
    }
  }
}
