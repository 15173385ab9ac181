/**
 * The test suite's modifiable constant pool: an interning table of plain
 * values and host functions with 1-based indices, built into the word list
 * the VM loads, and dispatching HLE calls to the host function an index names.
 */
module PoolBuilder {
  import opened Wrappers

  /** A C `uint32_t` value. */
  type U32 = n: nat | n < 0x1_0000_0000

  /** The word `build` emits for a function item. */
  const FUNCTION_WORD: U32 := 0x8000_0000

  /**
   * `ModifiablePoolItem`: a host function pointer and its user data (0 is the
   * null pointer) and a stored value. A value item has both pointers null, a
   * function item a stored value of 0.
   */
  datatype PoolItem = PoolItem(func: nat, data: nat, value: U32)

  function ValueItem(v: U32): PoolItem { PoolItem(0, 0, v) }

  function FunctionItem(f: nat, d: nat): PoolItem { PoolItem(f, d, 0) }

  /** The word an item builds to. */
  function Word(item: PoolItem): (w: U32)
    ensures item.func != 0 ==> w == FUNCTION_WORD
    ensures item.func == 0 ==> w == item.value
  {
    if item.func != 0 then FUNCTION_WORD else item.value
  }

  /** `build`'s result: one word per item, in order. */
  function Built(items: seq<PoolItem>): (words: seq<U32>)
    ensures |words| == |items|
    ensures forall i | 0 <= i < |items| :: words[i] == Word(items[i])
  {
    seq(|items|, i requires 0 <= i < |items| => Word(items[i]))
  }

  /** The first index at which `Matches` holds, or |items| if none. */
  function FirstWhere(items: seq<PoolItem>, key: PoolItem, byValue: bool): (k: nat)
    ensures k <= |items|
    ensures k < |items| ==> Matches(items[k], key, byValue)
    ensures forall j | 0 <= j < k :: !Matches(items[j], key, byValue)
  {
    if items == [] then 0
    else if Matches(items[0], key, byValue) then 0
    else 1 + FirstWhere(items[1..], key, byValue)
  }

  /**
   * The item test of the two `get`s: a value item stored with value `key.value`,
   * or the function pointer and user data of `key`.
   */
  predicate Matches(item: PoolItem, key: PoolItem, byValue: bool)
  {
    if byValue then item.func == 0 && item.value == key.value
    else item.func == key.func && item.data == key.data
  }

  /**
   * `get(value)` as written: the first item whose stored value is `v`,
   * function items included, or |items| when no item holds `v`.
   */
  function ValueIndexAsWritten(items: seq<PoolItem>, v: U32): (k: nat)
    ensures k <= |items|
    ensures k < |items| ==> items[k].value == v
    ensures forall j | 0 <= j < k :: items[j].value != v
  {
    if items == [] then 0
    else if items[0].value == v then 0
    else 1 + ValueIndexAsWritten(items[1..], v)
  }

  /** `get(0)` as written hands out a function item's index, which builds to 0x80000000, not 0. */
  lemma {:induction false} GetZeroFindsFunctionItem()
    ensures var items := [FunctionItem(1, 0)];
      ValueIndexAsWritten(items, 0) == 0 && Built(items)[0] == FUNCTION_WORD
  {
  }

  /** The table after interning `key`: unchanged when a match exists, else `key` appended. */
  function Interned(items: seq<PoolItem>, key: PoolItem, byValue: bool): seq<PoolItem>
  {
    if FirstWhere(items, key, byValue) < |items| then items else items + [key]
  }

  /** Interning the same key again finds the same index and changes nothing. */
  lemma {:induction false} InternIdempotent(items: seq<PoolItem>, key: PoolItem, byValue: bool)
    requires Matches(key, key, byValue)
    ensures var after := Interned(items, key, byValue);
      && FirstWhere(after, key, byValue) == FirstWhere(items, key, byValue)
      && Interned(after, key, byValue) == after
  {
    var k := FirstWhere(items, key, byValue);
    if k == |items| {
      var after := items + [key];
      assert forall j | 0 <= j < k :: after[j] == items[j];
      assert after[k] == key;
    }
  }

  /** Interning never changes or reorders the items already there. */
  lemma {:induction false} InternKeepsItems(items: seq<PoolItem>, key: PoolItem, byValue: bool)
    ensures Interned(items, key, byValue)[..|items|] == items
    ensures |Interned(items, key, byValue)| <= |items| + 1
  {
  }

  /** After interning a value, its index builds to that value. */
  lemma {:induction false} InternedValueBuilds(items: seq<PoolItem>, v: U32)
    ensures var after, k := Interned(items, ValueItem(v), true), FirstWhere(items, ValueItem(v), true);
      k < |after| && Built(after)[k] == v
  {
    var k := FirstWhere(items, ValueItem(v), true);
    if k == |items| {
      assert Interned(items, ValueItem(v), true)[k] == ValueItem(v);
    }
  }

  /** The errors `hle_handler` throws: "Invalid HLE code". */
  datatype HleFault = InvalidHleCode

  /** `ModifiablePoolItems`. */
  class ModifiablePoolItems {
    var items: seq<PoolItem>

    constructor ()
      ensures items == []
    {
      items := [];
    }

    /** The linear search `get` does with `find_if`. */
    method Find(key: PoolItem, byValue: bool) returns (k: nat)
      ensures k == FirstWhere(items, key, byValue)
    {
      k := 0;
      while k < |items| && !Matches(items[k], key, byValue)
        invariant k <= |items|
        invariant forall j | 0 <= j < k :: !Matches(items[j], key, byValue)
      {
        k := k + 1;
      }
    }

    /**
     * `get(value)`: the 1-based index of the value item holding `v`,
     * appending one if there is none.
     */
    method GetValue(v: U32) returns (index: nat)
      modifies this`items
      ensures index == FirstWhere(old(items), ValueItem(v), true) + 1
      ensures items == Interned(old(items), ValueItem(v), true)
      ensures 1 <= index <= |items| && Built(items)[index - 1] == v
    {
      var k := Find(ValueItem(v), true);
      InternedValueBuilds(items, v);
      if k == |items| {
        items := items + [ValueItem(v)];
      }
      index := k + 1;
    }

    /**
     * `get(func, data)`: the 1-based index of the item holding this function
     * and user data, appending one if there is none.
     */
    method GetFunction(f: nat, d: nat) returns (index: nat)
      modifies this`items
      ensures index == FirstWhere(old(items), FunctionItem(f, d), false) + 1
      ensures items == Interned(old(items), FunctionItem(f, d), false)
      ensures 1 <= index <= |items| && items[index - 1].func == f && items[index - 1].data == d
    {
      var k := Find(FunctionItem(f, d), false);
      if k == |items| {
        items := items + [FunctionItem(f, d)];
      }
      index := k + 1;
    }

    /** `build`. */
    method Build() returns (words: seq<U32>)
      ensures words == Built(items)
    {
      words := [];
      for i := 0 to |items|
        invariant words == Built(items[..i])
      {
        assert items[..i + 1] == items[..i] + [items[i]];
        words := words + [Word(items[i])];
      }
      assert items[..|items|] == items;
    }

    /** `hle_handler(code)`: the host function and user data item `code` calls. */
    function HleHandler(code: int): (r: Result<(nat, nat), HleFault>)
      reads this
      ensures r.Ok? <==> 1 <= code <= |items| && items[code - 1].func != 0
      ensures r.Ok? ==> r.value == (items[code - 1].func, items[code - 1].data)
    {
      if code <= 0 || code > |items| then Err(InvalidHleCode)
      else if items[code - 1].func == 0 then Err(InvalidHleCode)
      else Ok((items[code - 1].func, items[code - 1].data))
    }
  }

  /** A registered host function is what an HLE call on its index dispatches to. */
  lemma {:induction false} RegisteredFunctionDispatches(p: ModifiablePoolItems, f: nat, d: nat, index: nat)
    requires f != 0 && 1 <= index <= |p.items|
    requires p.items[index - 1].func == f && p.items[index - 1].data == d
    ensures p.HleHandler(index) == Ok((f, d))
    ensures Built(p.items)[index - 1] == FUNCTION_WORD
  {
  }
}
