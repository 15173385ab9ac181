/**
 * SYSCPY and SYSSET: bulk copy and fill of guest memory, lowered to
 * `memcpy` and `memset` on the guest memory. Both read three registers of the
 * two-sources encoding and change only memory.
 */
module Memory {
  import opened Wrappers
  import opened Instructions
  import opened Translator

  /** SYSCPY's operands `(src, dst, size)`, read from rs, rd and rt in that order. */
  function CopyOperands(regs: seq<bv32>, i: TwoSourcesEncoding): (r: Result<(nat, nat, nat), Fault>)
    requires |regs| == 32
    ensures r.Ok? <==> Addressable(i.rs) && Addressable(i.rd) && Addressable(i.rt)
    ensures r.Ok? ==> r.value == (regs[Index(i.rs)] as nat, regs[Index(i.rd)] as nat, regs[Index(i.rt)] as nat)
  {
    var src := ReadRegister(regs, i.rs);
    var dst := ReadRegister(regs, i.rd);
    var size := ReadRegister(regs, i.rt);
    if src.Err? then Err(src.error)
    else if dst.Err? then Err(dst.error)
    else if size.Err? then Err(size.error)
    else Ok((src.value as nat, dst.value as nat, size.value as nat))
  }

  /**
   * `size` bytes from `src` written at `dst`. An empty copy touches no byte
   * and succeeds wherever it points; otherwise a range past the end of guest
   * memory is refused, the source range first.
   */
  function CopyWithin(mem: seq<bv8>, src: nat, dst: nat, size: nat): (r: Result<seq<bv8>, Fault>)
    ensures r.Ok? <==> size == 0 || (src + size <= |mem| && dst + size <= |mem|)
    ensures size == 0 ==> r == Ok(mem)
  {
    if size == 0 then Ok(mem)
    else if src + size > |mem| then Err(MemoryOutOfRange(src, size))
    else if dst + size > |mem| then Err(MemoryOutOfRange(dst, size))
    else Ok(Splice(mem, dst, mem[src..src + size]))
  }

  /** The memory after SYSCPY. */
  function Copied(regs: seq<bv32>, mem: seq<bv8>, i: TwoSourcesEncoding): Result<seq<bv8>, Fault>
    requires |regs| == 32
  {
    match CopyOperands(regs, i)
    case Err(e) => Err(e)
    case Ok((src, dst, size)) => CopyWithin(mem, src, dst, size)
  }

  /** SYSSET's operands `(dst, value, size)`, read from rd, rs (its low byte) and rt in that order. */
  function FillOperands(regs: seq<bv32>, i: TwoSourcesEncoding): (r: Result<(nat, bv8, nat), Fault>)
    requires |regs| == 32
    ensures r.Ok? <==> Addressable(i.rd) && Addressable(i.rs) && Addressable(i.rt)
    ensures r.Ok? ==> r.value == (regs[Index(i.rd)] as nat, LowByte(regs[Index(i.rs)]), regs[Index(i.rt)] as nat)
  {
    var dst := ReadRegister(regs, i.rd);
    var value := ReadRegister(regs, i.rs);
    var size := ReadRegister(regs, i.rt);
    if dst.Err? then Err(dst.error)
    else if value.Err? then Err(value.error)
    else if size.Err? then Err(size.error)
    else Ok((dst.value as nat, LowByte(value.value), size.value as nat))
  }

  /**
   * `size` bytes from `dst` set to `value`. An empty fill touches no byte and
   * succeeds wherever it points; otherwise a range past the end of guest
   * memory is refused.
   */
  function FillWithin(mem: seq<bv8>, dst: nat, value: bv8, size: nat): (r: Result<seq<bv8>, Fault>)
    ensures r.Ok? <==> size == 0 || dst + size <= |mem|
    ensures size == 0 ==> r == Ok(mem)
  {
    if size == 0 then Ok(mem)
    else if dst + size > |mem| then Err(MemoryOutOfRange(dst, size))
    else Ok(Splice(mem, dst, seq(size, _ => value)))
  }

  /** The memory after SYSSET. */
  function Filled(regs: seq<bv32>, mem: seq<bv8>, i: TwoSourcesEncoding): Result<seq<bv8>, Fault>
    requires |regs| == 32
  {
    match FillOperands(regs, i)
    case Err(e) => Err(e)
    case Ok((dst, value, size)) => FillWithin(mem, dst, value, size)
  }

  /** A failing operand read reports the first operand, in source order, that is not a register. */
  lemma {:induction false} CopyOperandsFaultOrder(regs: seq<bv32>, i: TwoSourcesEncoding)
    requires |regs| == 32
    ensures var r := CopyOperands(regs, i);
      && (!Addressable(i.rs) ==> r == Err(RegisterSlot(i.rs).error))
      && (Addressable(i.rs) && !Addressable(i.rd) ==> r == Err(RegisterSlot(i.rd).error))
      && (Addressable(i.rs) && Addressable(i.rd) && !Addressable(i.rt) ==> r == Err(RegisterSlot(i.rt).error))
  {
  }

  lemma {:induction false} FillOperandsFaultOrder(regs: seq<bv32>, i: TwoSourcesEncoding)
    requires |regs| == 32
    ensures var r := FillOperands(regs, i);
      && (!Addressable(i.rd) ==> r == Err(RegisterSlot(i.rd).error))
      && (Addressable(i.rd) && !Addressable(i.rs) ==> r == Err(RegisterSlot(i.rs).error))
      && (Addressable(i.rd) && Addressable(i.rs) && !Addressable(i.rt) ==> r == Err(RegisterSlot(i.rt).error))
  {
  }

  /** The bytes spliced in at `a` read back from `a` on. */
  lemma {:induction false} SpliceReadsBack(mem: seq<bv8>, a: nat, bytes: seq<bv8>)
    requires a + |bytes| <= |mem|
    ensures Splice(mem, a, bytes)[a..a + |bytes|] == bytes
  {
    var r := Splice(mem, a, bytes);
    forall j | 0 <= j < |bytes|
      ensures r[a..a + |bytes|][j] == bytes[j]
    {
      assert r[a + j] == bytes[j];
    }
  }

  /**
   * After a successful copy the destination holds the source bytes as they
   * were before the copy, and every other byte is unchanged.
   */
  lemma {:induction false} CopyWithinEffect(mem: seq<bv8>, src: nat, dst: nat, size: nat)
    requires CopyWithin(mem, src, dst, size).Ok?
    ensures |CopyWithin(mem, src, dst, size).value| == |mem|
    ensures size != 0 ==> CopyWithin(mem, src, dst, size).value[dst..dst + size] == mem[src..src + size]
    ensures forall j | 0 <= j < |mem| && !(dst <= j < dst + size) :: CopyWithin(mem, src, dst, size).value[j] == mem[j]
  {
    if size != 0 {
      SpliceReadsBack(mem, dst, mem[src..src + size]);
    }
  }

  /** A copy onto itself leaves memory as it was. */
  lemma {:induction false} CopyOntoItself(mem: seq<bv8>, a: nat, size: nat)
    requires size == 0 || a + size <= |mem|
    ensures CopyWithin(mem, a, a, size) == Ok(mem)
  {
    if size == 0 {
      return;
    }
    var r := CopyWithin(mem, a, a, size).value;
    assert r == mem[..a] + mem[a..a + size] + mem[a + size..];
    assert mem == mem[..a] + mem[a..a + size] + mem[a + size..];
  }

  /**
   * After a successful fill the range holds `value` throughout and every
   * other byte is unchanged.
   */
  lemma {:induction false} FillWithinEffect(mem: seq<bv8>, dst: nat, value: bv8, size: nat)
    requires FillWithin(mem, dst, value, size).Ok?
    ensures |FillWithin(mem, dst, value, size).value| == |mem|
    ensures forall j | dst <= j < dst + size :: FillWithin(mem, dst, value, size).value[j] == value
    ensures forall j | 0 <= j < |mem| && !(dst <= j < dst + size) :: FillWithin(mem, dst, value, size).value[j] == mem[j]
  {
  }

  /** Filling a range a second time with the same byte changes nothing. */
  lemma {:induction false} FillIdempotent(mem: seq<bv8>, dst: nat, value: bv8, size: nat)
    requires FillWithin(mem, dst, value, size).Ok?
    ensures FillWithin(FillWithin(mem, dst, value, size).value, dst, value, size)
         == FillWithin(mem, dst, value, size)
  {
    var once := FillWithin(mem, dst, value, size).value;
    FillWithinEffect(mem, dst, value, size);
    FillWithinEffect(once, dst, value, size);
    assert FillWithin(once, dst, value, size).value == once;
  }

  /** Copying a filled range elsewhere fills the destination with the same byte. */
  lemma {:induction false} CopyOfFill(mem: seq<bv8>, a: nat, value: bv8, size: nat, dst: nat)
    requires a + size <= |mem| && dst + size <= |mem|
    requires forall j | a <= j < a + size :: mem[j] == value
    ensures FillWithin(mem, dst, value, size).Ok?
    ensures CopyWithin(mem, a, dst, size) == FillWithin(mem, dst, value, size)
  {
    assert mem[a..a + size] == seq(size, _ => value);
  }

  /**
   * SYSCPY (`CreateMemCpy(dst, src, size)`): memory becomes `Copied`;
   * the register file is untouched.
   */
  method SYSCPY(m: Machine, w: bv32) returns (fault: Option<Fault>)
    requires m.Valid()
    modifies m.mem
    ensures m.regs[..] == old(m.regs[..])
    ensures match Copied(m.regs[..], old(m.mem[..]), TwoSourcesView(w))
      case Err(e) => fault == Some(e) && m.mem[..] == old(m.mem[..])
      case Ok(after) => fault.None? && m.mem[..] == after
  {
    var i := TwoSourcesView(w);
    var ops := CopyOperands(m.regs[..], i);
    if ops.Err? {
      return Some(ops.error);
    }
    var (src, dst, size) := ops.value;
    assert Copied(m.regs[..], m.mem[..], i) == CopyWithin(m.mem[..], src, dst, size);
    fault := CopyInPlace(m.mem, src, dst, size);
  }

  /** The `memcpy` itself: guest memory becomes `CopyWithin` of what it was. */
  method CopyInPlace(mem: array<bv8>, src: nat, dst: nat, size: nat) returns (fault: Option<Fault>)
    modifies mem
    ensures match CopyWithin(old(mem[..]), src, dst, size)
      case Err(e) => fault == Some(e) && mem[..] == old(mem[..])
      case Ok(after) => fault.None? && mem[..] == after
  {
    if size == 0 {
      return None;
    }
    if src + size > mem.Length {
      return Some(MemoryOutOfRange(src, size));
    }
    if dst + size > mem.Length {
      return Some(MemoryOutOfRange(dst, size));
    }
    WriteBytes(mem, dst, mem[src..src + size]);
    fault := None;
  }

  /**
   * SYSSET (`CreateMemSet(dst, value, size)`): memory becomes `Filled`;
   * the register file is untouched.
   */
  method SYSSET(m: Machine, w: bv32) returns (fault: Option<Fault>)
    requires m.Valid()
    modifies m.mem
    ensures m.regs[..] == old(m.regs[..])
    ensures match Filled(m.regs[..], old(m.mem[..]), TwoSourcesView(w))
      case Err(e) => fault == Some(e) && m.mem[..] == old(m.mem[..])
      case Ok(after) => fault.None? && m.mem[..] == after
  {
    var i := TwoSourcesView(w);
    var ops := FillOperands(m.regs[..], i);
    if ops.Err? {
      return Some(ops.error);
    }
    var (dst, value, size) := ops.value;
    assert Filled(m.regs[..], m.mem[..], i) == FillWithin(m.mem[..], dst, value, size);
    if size == 0 {
      return None;
    }
    if dst + size > m.mem.Length {
      return Some(MemoryOutOfRange(dst, size));
    }
    WriteBytes(m.mem, dst, seq(size, _ => value));
    fault := None;
  }
}
