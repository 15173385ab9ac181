/**
 * The guest state that the translator's emitted code acts on: a register
 * file of `TotalCount` 32-bit slots, a byte-addressed memory, and the address
 * of the instruction being lowered. The IR the translator builds is modelled
 * by its run-time effect on this state.
 */
module Translator {
  import opened Wrappers
  import Registers
  import opened Instructions
  import opened PoolItems
  import opened Common
  import opened SpecialFunction

  /** Why lowering an instruction fails. */
  datatype Fault =
    | InvalidRegister(reg: bv8)              // operand not a multiple of 4: `get_register_pointer` throws
    | RegisterOutOfRange(reg: bv8)           // aligned but past the last slot
    | RegisterFileOverrun(offset: int, count: int) // a bulk copy running past the register file
    | InvalidImmediate(dword: bv32)          // `fetch_immediate` throws
    | MemoryOutOfRange(address: int, size: int)

  /** A register operand that `get_register_pointer` resolves to a slot of the file. */
  predicate Addressable(reg: bv8) {
    Registers.InFile(reg as int)
  }

  /** The slot a register operand addresses (`reg >> 2`). */
  function Index(reg: bv8): nat {
    Registers.Slot(reg as int)
  }

  /**
   * `get_register_pointer`: a misaligned operand is refused; an aligned one
   * addresses slot `reg >> 2`, which must lie inside the file.
   */
  function RegisterSlot(reg: bv8): (r: Result<nat, Fault>)
    ensures r.Ok? <==> Addressable(reg)
    ensures r.Ok? ==> r.value == Index(reg) && 4 * r.value == reg as int && r.value < Registers.TotalCount
    ensures reg % 4 != 0 ==> r == Err(InvalidRegister(reg))
  {
    if reg & 3 != 0 then Err(InvalidRegister(reg))
    else if Index(reg) >= Registers.TotalCount then Err(RegisterOutOfRange(reg))
    else Ok(Index(reg))
  }

  /** The fault `get_register_pointer` raises for an operand, if any. */
  function Check(reg: bv8): (f: Option<Fault>)
    ensures f.None? <==> Addressable(reg)
    ensures f.Some? ==> RegisterSlot(reg) == Err(f.value)
  {
    match RegisterSlot(reg)
    case Err(e) => Some(e)
    case Ok(_) => None
  }

  /** Operands are resolved in evaluation order: the first fault wins. */
  function OrElse(first: Option<Fault>, next: Option<Fault>): (f: Option<Fault>)
    ensures f.None? <==> first.None? && next.None?
    ensures first.Some? ==> f == first
  {
    if first.Some? then first else next
  }

  /** `get_register<std::uint32_t>`: the slot's value. */
  function ReadRegister(regs: seq<bv32>, reg: bv8): (r: Result<bv32, Fault>)
    requires |regs| == Registers.TotalCount
    ensures r.Ok? <==> Addressable(reg)
    ensures r.Ok? ==> r.value == regs[Index(reg)]
    ensures r.Err? ==> RegisterSlot(reg) == Err(r.error)
  {
    match RegisterSlot(reg)
    case Err(e) => Err(e)
    case Ok(slot) => Ok(regs[slot])
  }

  /** `get_register<std::uint8_t>`: the low byte of the slot (the file is little-endian). */
  function LowByte(x: bv32): (b: bv8)
    ensures b as bv32 == x & 0xFF
  {
    (x & 0xFF) as bv8
  }

  /** `get_register<std::uint16_t>`: the low half of the slot. */
  function LowHalf(x: bv32): (h: bv16)
    ensures h as bv32 == x & 0xFFFF
  {
    (x & 0xFFFF) as bv16
  }

  /** Byte `j` (0 to 3) of a little-endian word. */
  function WordByte(w: bv32, j: nat): bv8
    requires j < 4
  {
    if j == 0 then Byte0(w) else if j == 1 then Byte1(w) else if j == 2 then Byte2(w) else Byte3(w)
  }

  /** The four bytes of a word, least significant first. */
  function WordBytes(w: bv32): (b: seq<bv8>)
    ensures |b| == 4 && forall j | 0 <= j < 4 :: b[j] == WordByte(w, j)
  {
    [Byte0(w), Byte1(w), Byte2(w), Byte3(w)]
  }

  /** The little-endian word stored at byte `a`. */
  function LoadWord(mem: seq<bv8>, a: nat): bv32
    requires a + 4 <= |mem|
  {
    Bytes(mem[a], mem[a + 1], mem[a + 2], mem[a + 3])
  }

  /** The little-endian halfword stored at byte `a`. */
  function LoadHalf(mem: seq<bv8>, a: nat): bv16
    requires a + 2 <= |mem|
  {
    (mem[a] as bv16) | ((mem[a + 1] as bv16) << 8)
  }

  /** `mem` with `bytes` written from offset `a` on. */
  function Splice<T>(mem: seq<T>, a: nat, bytes: seq<T>): (r: seq<T>)
    requires a + |bytes| <= |mem|
    ensures |r| == |mem|
    ensures forall j | 0 <= j < |mem| :: r[j] == if a <= j < a + |bytes| then bytes[j - a] else mem[j]
  {
    mem[..a] + bytes + mem[a + |bytes|..]
  }

  /** A word written as four bytes reads back as the same word. */
  lemma {:induction false} WordRoundTrip(mem: seq<bv8>, a: nat, w: bv32)
    requires a + 4 <= |mem|
    ensures LoadWord(Splice(mem, a, WordBytes(w)), a) == w
  {
    var m := Splice(mem, a, WordBytes(w));
    assert m[a] == Byte0(w) && m[a + 1] == Byte1(w) && m[a + 2] == Byte2(w) && m[a + 3] == Byte3(w);
    FullViewsRoundTrip(w);
    BytesOfWord(w);
  }

  /** A word is the composition of its own bytes. */
  lemma {:induction false} BytesOfWord(w: bv32)
    ensures Bytes(Byte0(w), Byte1(w), Byte2(w), Byte3(w)) == w
  {
    var v := Bytes(Byte0(w), Byte1(w), Byte2(w), Byte3(w));
    assert Byte0(v) == Byte0(w) && Byte1(v) == Byte1(w) && Byte2(v) == Byte2(w) && Byte3(v) == Byte3(w);
    WordDeterminedByBytes(v, w);
  }

  /** Two words with the same four bytes are equal. */
  lemma {:induction false} WordDeterminedByBytes(v: bv32, w: bv32)
    requires Byte0(v) == Byte0(w) && Byte1(v) == Byte1(w) && Byte2(v) == Byte2(w) && Byte3(v) == Byte3(w)
    ensures v == w
  {
  }

  /** The low half of a word, stored as two bytes, reads back as that half. */
  lemma {:induction false} HalfRoundTrip(mem: seq<bv8>, a: nat, w: bv32)
    requires a + 2 <= |mem|
    ensures LoadHalf(Splice(mem, a, WordBytes(w)[..2]), a) == LowHalf(w)
  {
    var m := Splice(mem, a, WordBytes(w)[..2]);
    assert m[a] == Byte0(w) && m[a + 1] == Byte1(w);
  }

  /** The register file seen as 4 * |regs| bytes, slot by slot, little-endian. */
  function RegisterBytes(regs: seq<bv32>): (b: seq<bv8>)
    ensures |b| == 4 * |regs|
  {
    if regs == [] then [] else WordBytes(regs[0]) + RegisterBytes(regs[1..])
  }

  /** Byte `j` of slot `s` sits at offset 4 * s + j of the byte view. */
  lemma {:induction false} RegisterBytesAt(regs: seq<bv32>, s: nat, j: nat)
    requires s < |regs| && j < 4
    ensures RegisterBytes(regs)[4 * s + j] == WordByte(regs[s], j)
  {
    if s > 0 {
      RegisterBytesAt(regs[1..], s - 1, j);
    }
  }

  /** Bytes grouped into little-endian words: the inverse of `RegisterBytes`. */
  function Words(bytes: seq<bv8>): (w: seq<bv32>)
    requires |bytes| % 4 == 0
    ensures |w| == |bytes| / 4
  {
    if bytes == [] then [] else [LoadWord(bytes, 0)] + Words(bytes[4..])
  }

  lemma {:induction false} WordsAt(bytes: seq<bv8>, s: nat)
    requires |bytes| % 4 == 0 && s < |bytes| / 4
    ensures Words(bytes)[s] == LoadWord(bytes, 4 * s)
  {
    if s > 0 {
      WordsAt(bytes[4..], s - 1);
    }
  }

  /** Grouping the bytes of a register file into words gives the file back. */
  lemma {:induction false} WordsOfRegisterBytes(regs: seq<bv32>)
    ensures Words(RegisterBytes(regs)) == regs
  {
    if regs != [] {
      var b := RegisterBytes(regs);
      assert b[..4] == WordBytes(regs[0]);
      assert b[4..] == RegisterBytes(regs[1..]);
      BytesOfWord(regs[0]);
      WordsOfRegisterBytes(regs[1..]);
    }
  }

  /** Splitting words into bytes and grouping them again gives the bytes back. */
  lemma {:induction false} RegisterBytesOfWords(bytes: seq<bv8>)
    requires |bytes| % 4 == 0
    ensures RegisterBytes(Words(bytes)) == bytes
  {
    if bytes != [] {
      var w := LoadWord(bytes, 0);
      assert WordBytes(w) == bytes[..4];
      RegisterBytesOfWords(bytes[4..]);
      assert bytes == bytes[..4] + bytes[4..];
    }
  }

  /** Guest memory is indexed from `memory_base`; an access past its end is refused. */
  function MemoryFault(size: nat, address: bv32, width: nat): (f: Option<Fault>)
    ensures f.None? <==> address as int + width <= size
  {
    if address as int + width <= size then None else Some(MemoryOutOfRange(address as int, width))
  }

  /**
   * A byte-wise copy into guest memory (the `CreateMemCpy` / `CreateStore`
   * of the lowered code): exactly the bytes from `a` to `a + |bytes|` change.
   */
  method WriteBytes(mem: array<bv8>, a: nat, bytes: seq<bv8>)
    requires a + |bytes| <= mem.Length
    modifies mem
    ensures mem[..] == Splice(old(mem[..]), a, bytes)
  {
    var k := 0;
    while k < |bytes|
      invariant 0 <= k <= |bytes|
      invariant forall j | 0 <= j < mem.Length :: mem[j] == if a <= j < a + k then bytes[j - a] else old(mem[j])
    {
      mem[a + k] := bytes[k];
      k := k + 1;
    }
  }

  /**
   * The immediate `fetch_immediate` produces for the instruction at `at`: the
   * dword after the instruction word, resolved as `read_immediate` does, with
   * "Invalid immediate" where that finds nothing.
   */
  function FetchedImmediate(pool: PoolItems, mem: seq<bv8>, at: bv32): Result<bv32, Fault> {
    if at as int + 8 > |mem| then Err(MemoryOutOfRange(at as int + 4, 4))
    else ResolveImmediate(pool, LoadWord(mem, at as nat + 4))
  }

  /**
   * How `fetch_immediate` resolves the fetched dword: an inline immediate
   * first, then a pool constant, and "Invalid immediate" otherwise.
   */
  function ResolveImmediate(pool: PoolItems, dword: bv32): Result<bv32, Fault> {
    match GetImmediatePipDword(dword)
    case Some(v) => Ok(v)
    case None =>
      if IsConstant(pool, dword as nat) then Ok(GetConstant(pool, dword as nat))
      else Err(InvalidImmediate(dword))
  }

  /**
   * `fetch_immediate` resolves the dword in the same order as
   * `read_immediate`, and throws exactly where that finds nothing.
   */
  lemma {:induction false} FetchMatchesReadImmediate(pool: PoolItems, mem: seq<bv8>, at: bv32)
    requires at as int + 8 <= |mem|
    ensures var dword := LoadWord(mem, at as nat + 4);
      match ReadImmediate(pool, dword)
      case Some(v) => FetchedImmediate(pool, mem, at) == Ok(v)
      case None => FetchedImmediate(pool, mem, at) == Err(InvalidImmediate(dword))
  {
  }

  /**
   * An instruction followed by a `make_constant` word of a value below 2^30
   * fetches exactly that value, whatever the pool holds.
   */
  lemma {:induction false} FetchInlineConstant(pool: PoolItems, mem: seq<bv8>, at: bv32, value: bv32)
    requires at as int + 8 <= |mem| && value < 0x4000_0000
    requires LoadWord(mem, at as nat + 4) == MakeConstant(value)
    ensures FetchedImmediate(pool, mem, at) == Ok(value)
  {
    SmallConstantRoundTrip(value);
  }

  /**
   * The translator's view of the guest: the register file (`VMContext::regs_`),
   * guest memory, the constant pool, whether task support is on, the address
   * of the instruction being lowered (`current_addr_`), and the special
   * functions the lowered code has called so far.
   */
  class Machine {
    const regs: array<bv32>
    const mem: array<bv8>
    const pool: PoolItems
    const useTask: bool
    var cur: bv32
    var calls: seq<SpecialPoolFunction>

    /** The register file has exactly `TotalCount` 32-bit slots. */
    predicate Valid()
      reads this
    {
      regs.Length == Registers.TotalCount
    }

    constructor (mem: array<bv8>, pool: PoolItems, useTask: bool)
      ensures Valid() && fresh(regs)
      ensures this.mem == mem && this.pool == pool && this.useTask == useTask
      ensures regs[..] == seq(Registers.TotalCount, _ => 0) && cur == 0 && calls == []
    {
      this.regs := new bv32[Registers.TotalCount](_ => 0);
      this.mem := mem;
      this.pool := pool;
      this.useTask := useTask;
      this.cur := 0;
      this.calls := [];
    }

    /**
     * `fetch_immediate`: reads the dword after the current instruction,
     * advances the cursor by one word, and resolves the dword.
     */
    method FetchImmediate() returns (r: Result<bv32, Fault>)
      modifies this`cur
      ensures cur == old(cur) + 4
      ensures r == FetchedImmediate(pool, mem[..], old(cur))
    {
      if cur as int + 8 > mem.Length {
        r := Err(MemoryOutOfRange(cur as int + 4, 4));
      } else {
        var a := cur as int + 4;
        var dword := Bytes(mem[a], mem[a + 1], mem[a + 2], mem[a + 3]);
        assert dword == LoadWord(mem[..], a);
        r := ResolveImmediate(pool, dword);
      }
      cur := cur + 4;
    }

    /** `get_register<std::uint32_t>`. */
    method GetRegister(reg: bv8) returns (r: Result<bv32, Fault>)
      requires Valid()
      ensures r == ReadRegister(regs[..], reg)
    {
      if reg & 3 != 0 {
        return Err(InvalidRegister(reg));
      }
      if Index(reg) >= regs.Length {
        return Err(RegisterOutOfRange(reg));
      }
      r := Ok(regs[reg as int / 4]);
    }

    /** `set_register`: writes exactly one slot; there is no zero-register check. */
    method SetRegister(reg: bv8, value: bv32) returns (fault: Option<Fault>)
      requires Valid()
      modifies regs
      ensures fault == Check(reg)
      ensures regs[..] == if fault.None? then old(regs[..])[Index(reg) := value] else old(regs[..])
    {
      var slot := RegisterSlot(reg);
      if slot.Err? {
        return Some(slot.error);
      }
      regs[slot.value] := value;
      fault := None;
    }
  }
}
