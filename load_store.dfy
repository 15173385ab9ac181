/**
 * Loads and stores. LDI and LDQ load immediates; the displacement forms
 * address guest memory at rs plus the fetched immediate; STORE and RESTORE
 * move a contiguous span of the register file to and from the stack.
 */
module LoadStore {
  import opened Wrappers
  import Registers
  import opened Instructions
  import opened PoolItems
  import opened Common
  import opened Translator
  import opened Arithmetic

  /** Register-file slots of the two registers STORE and RESTORE update. */
  const SpSlot: nat := Registers.SP / 4
  const RaSlot: nat := Registers.RA / 4

  /** The register file and guest memory after a bulk move. */
  datatype State = State(regs: seq<bv32>, mem: seq<bv8>)

  /** The five displacement loads: width and extension of the loaded value. */
  datatype LoadKind = Word | HalfSigned | HalfUnsigned | ByteSigned | ByteUnsigned

  /** Bytes a load of this kind reads. */
  function LoadWidth(k: LoadKind): (n: nat)
    ensures 1 <= n <= 4
  {
    match k
    case Word => 4
    case HalfSigned => 2
    case HalfUnsigned => 2
    case ByteSigned => 1
    case ByteUnsigned => 1
  }

  /**
   * The value a load of kind `k` writes to rd: the little-endian word, or the
   * halfword or byte at `a` widened by sign (`CreateSExt`) or zero (`CreateZExt`).
   */
  function Loaded(mem: seq<bv8>, a: nat, k: LoadKind): bv32
    requires a + LoadWidth(k) <= |mem|
  {
    match k
    case Word => LoadWord(mem, a)
    case HalfSigned => SignExtend16(LoadHalf(mem, a))
    case HalfUnsigned => LoadHalf(mem, a) as bv32
    case ByteSigned => SignExtend8(mem[a])
    case ByteUnsigned => mem[a] as bv32
  }

  /** LDHd keeps the signed value of the halfword it reads. */
  lemma {:induction false} SignedHalfLoad(mem: seq<bv8>, a: nat)
    requires a + 2 <= |mem|
    ensures Signed(Loaded(mem, a, HalfSigned)) == Signed16(LoadHalf(mem, a))
  {
    SignExtend16PreservesValue(LoadHalf(mem, a));
  }

  /** LDBd keeps the signed value of the byte it reads. */
  lemma {:induction false} SignedByteLoad(mem: seq<bv8>, a: nat)
    requires a + 1 <= |mem|
    ensures Signed(Loaded(mem, a, ByteSigned)) == Signed8(mem[a])
  {
    SignExtend8PreservesValue(mem[a]);
  }

  /**
   * The effective address of a displacement access from the value read from
   * rs and the fetched immediate: their sum, wrapping at 2^32. The two are
   * arguments of one call, whose evaluation order C++ leaves open; the model
   * fixes one order, rs first, so a bad rs faults before the immediate is
   * fetched and leaves the cursor where it was.
   */
  function Displaced(base: Result<bv32, Fault>, imm: Result<bv32, Fault>): Result<bv32, Fault> {
    if base.Err? then base else if imm.Err? then imm else Ok(Add(base.value, imm.value))
  }

  /** The cursor after a displacement access: past the immediate once rs was read. */
  function CursorAfter(at: bv32, base: Result<bv32, Fault>): bv32 {
    if base.Ok? then at + 4 else at
  }

  /**
   * STORE as written. With rs == ZR it sets RA from the word below SP and
   * lowers SP by 4 (see StoreReturnAddress). Otherwise it copies `count`
   * bytes of the register file, from rs's slot on, to the `count` bytes
   * below SP, and lowers SP by `count`.
   */
  function Store(regs: seq<bv32>, mem: seq<bv8>, rs: bv8, count: bv8): (r: Result<State, Fault>)
    requires |regs| == Registers.TotalCount
    ensures r.Ok? ==> |r.value.regs| == |regs| && |r.value.mem| == |mem|
    ensures r.Ok? ==> r.value.regs[SpSlot] == Sub(regs[SpSlot], if rs == 0 then 4 else count as bv32)
    ensures r.Ok? ==> forall s | 0 <= s < |regs| && s != SpSlot && s != RaSlot :: r.value.regs[s] == regs[s]
    ensures r.Ok? && rs != 0 ==> r.value.regs[RaSlot] == regs[RaSlot]
  {
    if rs == 0 then StoreReturnAddress(regs, mem) else StoreSpan(regs, mem, rs, count)
  }

  /**
   * STORE ZR as written: RA := the word at SP - 4, SP := SP - 4, memory
   * untouched. Nothing saves RA; see StoreZeroLosesReturnAddress.
   */
  function StoreReturnAddress(regs: seq<bv32>, mem: seq<bv8>): (r: Result<State, Fault>)
    requires |regs| == Registers.TotalCount
    ensures r.Ok? <==> Sub(regs[SpSlot], 4) as int + 4 <= |mem|
    ensures r.Ok? ==> r.value.mem == mem && |r.value.regs| == |regs|
    ensures r.Ok? ==> r.value.regs[SpSlot] == Sub(regs[SpSlot], 4)
    ensures r.Ok? ==> r.value.regs[RaSlot] == LoadWord(mem, Sub(regs[SpSlot], 4) as nat)
    ensures r.Ok? ==> forall s | 0 <= s < |regs| && s != SpSlot && s != RaSlot :: r.value.regs[s] == regs[s]
  {
    var a := Sub(regs[SpSlot], 4);
    match MemoryFault(|mem|, a, 4)
    case Some(f) => Err(f)
    case None => Ok(State(regs[RaSlot := LoadWord(mem, a as nat)][SpSlot := a], mem))
  }

  /**
   * STORE of the `count` bytes from register rs on, to just below SP. An
   * empty span copies nothing, wherever SP points, and only lowers SP by 0.
   */
  function StoreSpan(regs: seq<bv32>, mem: seq<bv8>, rs: bv8, count: bv8): (r: Result<State, Fault>)
    requires |regs| == Registers.TotalCount
    ensures r.Ok? <==> Addressable(rs) && rs as int + count as int <= 4 * Registers.TotalCount
                       && (count as int == 0 || Sub(regs[SpSlot], count as bv32) as int + count as int <= |mem|)
    ensures r.Ok? ==> r.value.regs == regs[SpSlot := Sub(regs[SpSlot], count as bv32)] && |r.value.mem| == |mem|
    ensures r.Ok? && count as int == 0 ==> r.value.mem == mem
  {
    var base := Sub(regs[SpSlot], count as bv32);
    match Check(rs)
    case Some(f) => Err(f)
    case None =>
      if rs as int + count as int > 4 * Registers.TotalCount then Err(RegisterFileOverrun(rs as int, count as int))
      else if count as int == 0 then Ok(State(regs[SpSlot := base], mem))
      else match MemoryFault(|mem|, base, count as nat)
        case Some(f) => Err(f)
        case None =>
          Ok(State(regs[SpSlot := base], Splice(mem, base as nat, RegisterBytes(regs)[rs as int..rs as int + count as int])))
  }

  /**
   * STORE ZR as evidently intended: RA is pushed, that is written to the word
   * below SP, and SP := SP - 4, so that RESTORE ZR pops it again.
   */
  function PushReturnAddress(regs: seq<bv32>, mem: seq<bv8>): (r: Result<State, Fault>)
    requires |regs| == Registers.TotalCount
    ensures r.Ok? <==> Sub(regs[SpSlot], 4) as int + 4 <= |mem|
    ensures r.Ok? ==> r.value.regs == regs[SpSlot := Sub(regs[SpSlot], 4)] && |r.value.mem| == |mem|
    ensures r.Ok? ==> LoadWord(r.value.mem, Sub(regs[SpSlot], 4) as nat) == regs[RaSlot]
  {
    var a := Sub(regs[SpSlot], 4);
    match MemoryFault(|mem|, a, 4)
    case Some(f) => Err(f)
    case None =>
      WordRoundTrip(mem, a as nat, regs[RaSlot]);
      Ok(State(regs[SpSlot := a], Splice(mem, a as nat, WordBytes(regs[RaSlot]))))
  }

  /**
   * STORE with the ZR case corrected: RA pushed for rs == ZR, the span
   * copied otherwise. The STORE handler below follows this definition.
   */
  function Push(regs: seq<bv32>, mem: seq<bv8>, rs: bv8, count: bv8): (r: Result<State, Fault>)
    requires |regs| == Registers.TotalCount
    ensures r.Ok? ==> |r.value.mem| == |mem|
    ensures r.Ok? ==> r.value.regs == regs[SpSlot := Sub(regs[SpSlot], if rs == 0 then 4 else count as bv32)]
    ensures rs != 0 ==> r == Store(regs, mem, rs, count)
  {
    if rs == 0 then PushReturnAddress(regs, mem) else StoreSpan(regs, mem, rs, count)
  }

  /**
   * The register operand RESTORE's copy starts at: `rs - count + 4`, cast
   * back to the one-byte register type, so it wraps modulo 256.
   */
  function RestoreBase(rs: bv8, count: bv8): bv8 {
    rs - count + 4
  }

  /**
   * RESTORE. With rs == ZR it sets RA from the word at SP and raises SP by 4.
   * Otherwise it copies the `count` bytes at SP into the register file from
   * byte `rs - count + 4` on, and raises SP by `count`.
   */
  function Restore(regs: seq<bv32>, mem: seq<bv8>, rs: bv8, count: bv8): (r: Result<State, Fault>)
    requires |regs| == Registers.TotalCount
    ensures r.Ok? ==> |r.value.regs| == |regs| && r.value.mem == mem
    ensures r.Ok? ==> r.value.regs[SpSlot] == Add(regs[SpSlot], if rs == 0 then 4 else count as bv32)
  {
    if rs == 0 then RestoreReturnAddress(regs, mem) else RestoreSpan(regs, mem, RestoreBase(rs, count), count)
  }

  /** RESTORE ZR: RA := the word at SP, SP := SP + 4. */
  function RestoreReturnAddress(regs: seq<bv32>, mem: seq<bv8>): (r: Result<State, Fault>)
    requires |regs| == Registers.TotalCount
    ensures r.Ok? <==> regs[SpSlot] as int + 4 <= |mem|
    ensures r.Ok? ==> r.value.mem == mem && |r.value.regs| == |regs|
    ensures r.Ok? ==> r.value.regs[SpSlot] == Add(regs[SpSlot], 4)
    ensures r.Ok? ==> r.value.regs[RaSlot] == LoadWord(mem, regs[SpSlot] as nat)
    ensures r.Ok? ==> forall s | 0 <= s < |regs| && s != SpSlot && s != RaSlot :: r.value.regs[s] == regs[s]
  {
    var sp := regs[SpSlot];
    match MemoryFault(|mem|, sp, 4)
    case Some(f) => Err(f)
    case None => Ok(State(regs[RaSlot := LoadWord(mem, sp as nat)][SpSlot := Add(sp, 4)], mem))
  }

  /**
   * RESTORE of the `count` bytes at SP into the register file from register
   * t on. An empty span reads nothing, wherever SP points.
   */
  function RestoreSpan(regs: seq<bv32>, mem: seq<bv8>, t: bv8, count: bv8): (r: Result<State, Fault>)
    requires |regs| == Registers.TotalCount
    ensures r.Ok? <==> Addressable(t) && t as int + count as int <= 4 * Registers.TotalCount
                       && (count as int == 0 || regs[SpSlot] as int + count as int <= |mem|)
    ensures r.Ok? ==> |r.value.regs| == |regs| && r.value.mem == mem
    ensures r.Ok? ==> r.value.regs[SpSlot] == Add(regs[SpSlot], count as bv32)
  {
    var sp := regs[SpSlot];
    if Check(t).Some? then Err(Check(t).value)
    else if t as int + count as int > 4 * Registers.TotalCount then Err(RegisterFileOverrun(t as int, count as int))
    else if count as int == 0 then Ok(State(CopyIn(regs, t as nat, [])[SpSlot := Add(sp, count as bv32)], mem))
    else if MemoryFault(|mem|, sp, count as nat).Some? then Err(MemoryFault(|mem|, sp, count as nat).value)
    else Ok(State(CopyIn(regs, t as nat, mem[sp as int..sp as int + count as int])[SpSlot := Add(sp, count as bv32)], mem))
  }

  /** The register file with `chunk` copied over its bytes from offset t on. */
  function CopyIn(regs: seq<bv32>, t: nat, chunk: seq<bv8>): (w: seq<bv32>)
    requires |regs| == Registers.TotalCount && t + |chunk| <= 4 * Registers.TotalCount
    ensures |w| == Registers.TotalCount
  {
    Words(Splice(RegisterBytes(regs), t, chunk))
  }

  /** A slot whose four bytes are those of `w` reads back as `w`. */
  lemma {:induction false} SlotFromBytes(bytes: seq<bv8>, s: nat, w: bv32)
    requires |bytes| % 4 == 0 && s < |bytes| / 4
    requires forall p | 4 * s <= p < 4 * s + 4 :: bytes[p] == WordByte(w, p - 4 * s)
    ensures Words(bytes)[s] == w
  {
    WordsAt(bytes, s);
    BytesOfWord(w);
  }

  /**
   * Copying a span of a register file's bytes back over a file that differs
   * from it only in SP's slot restores every other slot.
   */
  lemma {:induction false} SpanRestoresSlots(regs: seq<bv32>, x: bv32, lo: nat, hi: nat)
    requires |regs| == Registers.TotalCount && lo <= hi <= 4 * Registers.TotalCount
    ensures CopyIn(regs[SpSlot := x], lo, RegisterBytes(regs)[lo..hi])[SpSlot := regs[SpSlot]] == regs
  {
    var moved := regs[SpSlot := x];
    var span := RegisterBytes(regs)[lo..hi];
    var bytes := Splice(RegisterBytes(moved), lo, span);
    forall slot | 0 <= slot < Registers.TotalCount && slot != SpSlot
      ensures Words(bytes)[slot] == regs[slot]
    {
      forall p | 4 * slot <= p < 4 * slot + 4
        ensures bytes[p] == WordByte(regs[slot], p - 4 * slot)
      {
        RegisterBytesAt(regs, slot, p - 4 * slot);
        if lo <= p < hi {
          assert bytes[p] == span[p - lo] == RegisterBytes(regs)[p];
        } else {
          RegisterBytesAt(moved, slot, p - 4 * slot);
          assert bytes[p] == RegisterBytes(moved)[p];
        }
      }
      SlotFromBytes(bytes, slot, regs[slot]);
    }
    assert Words(bytes)[SpSlot := regs[SpSlot]] == regs;
  }

  /** What a successful STORE of a span leaves behind; an empty span leaves memory as it was. */
  lemma {:induction false} StoredState(regs: seq<bv32>, mem: seq<bv8>, r: bv8, count: bv8)
    requires |regs| == Registers.TotalCount
    requires r != 0
    requires Store(regs, mem, r, count).Ok?
    ensures Addressable(r) && r as int + count as int <= 4 * Registers.TotalCount
    ensures count != 0 ==> Sub(regs[SpSlot], count as bv32) as int + count as int <= |mem|
    ensures Store(regs, mem, r, count).value
      == State(regs[SpSlot := Sub(regs[SpSlot], count as bv32)],
               if count == 0 then mem
               else Splice(mem, Sub(regs[SpSlot], count as bv32) as nat, RegisterBytes(regs)[r as int..r as int + count as int]))
  {
  }

  /** RESTORE of a span whose checks all pass copies the bytes at SP in. */
  lemma {:induction false} RestoreSpanCopies(regs: seq<bv32>, mem: seq<bv8>, t: bv8, count: bv8)
    requires |regs| == Registers.TotalCount
    requires Addressable(t) && t as int + count as int <= 4 * Registers.TotalCount
    requires regs[SpSlot] as int + count as int <= |mem|
    ensures var sp := regs[SpSlot];
      RestoreSpan(regs, mem, t, count)
        == Ok(State(CopyIn(regs, t as nat, mem[sp as int..sp as int + count as int])[SpSlot := Add(sp, count as bv32)], mem))
  {
  }

  /** The operand that names a span by its last register leads back to its first. */
  lemma RestoreOperand(r: bv8, count: bv8)
    requires r != 0 && Addressable(r) && r as int + count as int <= 4 * Registers.TotalCount && count != 0
    ensures r + count - 4 != 0 && RestoreBase(r + count - 4, count) == r
  {
  }

  /** RESTORE over the state STORE left behind: SP lowered to `base`, the span at `base`. */
  lemma {:induction false} RestoreStored(regs: seq<bv32>, stored: seq<bv8>, r: bv8, count: bv8, base: bv32, span: seq<bv8>)
    requires |regs| == Registers.TotalCount
    requires r != 0 && Addressable(r) && r as int + count as int <= 4 * Registers.TotalCount && count != 0
    requires base == Sub(regs[SpSlot], count as bv32) && span == RegisterBytes(regs)[r as int..r as int + count as int]
    requires base as int + count as int <= |stored| && stored[base as int..base as int + count as int] == span
    ensures Restore(regs[SpSlot := base], stored, r + count - 4, count) == Ok(State(regs, stored))
  {
    var moved := regs[SpSlot := base];
    RestoreOperand(r, count);
    assert Restore(moved, stored, r + count - 4, count) == RestoreSpan(moved, stored, r, count);
    assert moved[SpSlot] == base;
    RestoreSpanCopies(moved, stored, r, count);
    SubAddCancel(regs[SpSlot], count as bv32);
    SpanRestoresSlots(regs, base, r as nat, r as nat + count as nat);
  }

  /**
   * RESTORE undoes STORE: after storing the span that starts at register r
   * and is `count` bytes long, restoring the same span (named by its last
   * register, `r + count - 4`) gives back the whole register file, SP
   * included; memory keeps the stored copy.
   */
  lemma {:induction false} StoreRestoreRoundTrip(regs: seq<bv32>, mem: seq<bv8>, r: bv8, count: bv8)
    requires |regs| == Registers.TotalCount
    requires r != 0 && count != 0
    requires Store(regs, mem, r, count).Ok?
    ensures var s := Store(regs, mem, r, count).value;
      Restore(s.regs, s.mem, r + count - 4, count) == Ok(State(regs, s.mem))
  {
    StoredState(regs, mem, r, count);
    var base := Sub(regs[SpSlot], count as bv32);
    var span := RegisterBytes(regs)[r as int..r as int + count as int];
    var stored := Splice(mem, base as nat, span);
    assert stored[base as int..base as int + count as int] == span;
    RestoreStored(regs, stored, r, count, base, span);
  }

  /** RESTORE ZR pops the word that PushReturnAddress pushed, and SP with it. */
  lemma {:induction false} PopPushedReturnAddress(regs: seq<bv32>, mem: seq<bv8>, count: bv8)
    requires |regs| == Registers.TotalCount
    requires PushReturnAddress(regs, mem).Ok?
    ensures var s := PushReturnAddress(regs, mem).value;
      Restore(s.regs, s.mem, 0, count) == Ok(State(regs, s.mem))
  {
    var sp := regs[SpSlot];
    var a := Sub(sp, 4);
    var s := PushReturnAddress(regs, mem).value;
    assert s.regs[SpSlot] == a && s.regs[RaSlot] == regs[RaSlot];
    assert Restore(s.regs, s.mem, 0, count) == Ok(State(s.regs[RaSlot := regs[RaSlot]][SpSlot := Add(a, 4)], s.mem));
    SubAddCancel(sp, 4);
    assert s.regs[RaSlot := regs[RaSlot]][SpSlot := sp] == regs;
  }

  /**
   * With the corrected ZR case, every successful STORE is undone by the
   * matching RESTORE: ZR for ZR, otherwise the span's last register.
   */
  lemma {:induction false} PushRestoreRoundTrip(regs: seq<bv32>, mem: seq<bv8>, r: bv8, count: bv8)
    requires |regs| == Registers.TotalCount
    requires r == 0 || count != 0
    requires Push(regs, mem, r, count).Ok?
    ensures var s := Push(regs, mem, r, count).value;
      Restore(s.regs, s.mem, if r == 0 then 0 else r + count - 4, count) == Ok(State(regs, s.mem))
  {
    if r == 0 {
      PopPushedReturnAddress(regs, mem, count);
    } else {
      StoreRestoreRoundTrip(regs, mem, r, count);
    }
  }

  /**
   * STORE ZR as written does not save RA: over zeroed memory, STORE ZR then
   * RESTORE ZR leaves RA zero, whatever it held (for example SP = 8 and
   * RA = 0x1234 over 16 zero bytes).
   */
  lemma {:induction false} StoreZeroLosesReturnAddress(regs: seq<bv32>, mem: seq<bv8>)
    requires |regs| == Registers.TotalCount
    requires forall j | 0 <= j < |mem| :: mem[j] == 0
    requires regs[RaSlot] != 0
    requires StoreReturnAddress(regs, mem).Ok?
    ensures var s := StoreReturnAddress(regs, mem).value;
      && s.mem == mem
      && RestoreReturnAddress(s.regs, s.mem).Ok?
      && RestoreReturnAddress(s.regs, s.mem).value.regs[RaSlot] == 0 != regs[RaSlot]
  {
    var a := Sub(regs[SpSlot], 4);
    ZeroWord(mem, a as nat);
    var s := StoreReturnAddress(regs, mem).value;
    assert s.regs[RaSlot] == 0;
    assert s.regs[SpSlot] == a;
    LoadsZero(s.regs, mem);
  }

  /** Over zeroed memory, RESTORE ZR sets RA to 0. */
  lemma LoadsZero(regs: seq<bv32>, mem: seq<bv8>)
    requires |regs| == Registers.TotalCount
    requires forall j | 0 <= j < |mem| :: mem[j] == 0
    requires RestoreReturnAddress(regs, mem).Ok?
    ensures RestoreReturnAddress(regs, mem).value.regs[RaSlot] == 0
  {
    ZeroWord(mem, regs[SpSlot] as nat);
  }

  /** Four zero bytes make the word 0. */
  lemma ZeroWord(mem: seq<bv8>, a: nat)
    requires a + 4 <= |mem| && mem[a] == 0 && mem[a + 1] == 0 && mem[a + 2] == 0 && mem[a + 3] == 0
    ensures LoadWord(mem, a) == 0
  {
    assert Bytes(0, 0, 0, 0) == 0;
  }

  /** A word stored at `a` loads back as that word. */
  lemma {:induction false} StoreWordLoadWord(mem: seq<bv8>, a: nat, v: bv32)
    requires a + 4 <= |mem|
    ensures Loaded(Splice(mem, a, WordBytes(v)[..4]), a, Word) == v
  {
    assert WordBytes(v)[..4] == WordBytes(v);
    WordRoundTrip(mem, a, v);
  }

  /** A halfword stored at `a` loads back as rd's low half, zero-extended by LDHUd. */
  lemma {:induction false} StoreHalfLoadHalf(mem: seq<bv8>, a: nat, v: bv32)
    requires a + 2 <= |mem|
    ensures Loaded(Splice(mem, a, WordBytes(v)[..2]), a, HalfUnsigned) == v & 0xFFFF
  {
    HalfRoundTrip(mem, a, v);
  }

  /** ... and sign-extended by LDHd. */
  lemma {:induction false} StoreHalfLoadSignedHalf(mem: seq<bv8>, a: nat, v: bv32)
    requires a + 2 <= |mem|
    ensures Loaded(Splice(mem, a, WordBytes(v)[..2]), a, HalfSigned) == SignExtend16(LowHalf(v))
  {
    HalfRoundTrip(mem, a, v);
  }

  /** A byte stored at `a` loads back as rd's low byte, zero-extended by LDBUd. */
  lemma {:induction false} StoreByteLoadByte(mem: seq<bv8>, a: nat, v: bv32)
    requires a + 1 <= |mem|
    ensures Loaded(Splice(mem, a, WordBytes(v)[..1]), a, ByteUnsigned) == LowByte(v) as bv32
  {
    var m := Splice(mem, a, WordBytes(v)[..1]);
    assert m[a] == Byte0(v) == LowByte(v);
  }

  /** ... and sign-extended by LDBd. */
  lemma {:induction false} StoreByteLoadSignedByte(mem: seq<bv8>, a: nat, v: bv32)
    requires a + 1 <= |mem|
    ensures Loaded(Splice(mem, a, WordBytes(v)[..1]), a, ByteSigned) == SignExtend8(LowByte(v))
  {
    var m := Splice(mem, a, WordBytes(v)[..1]);
    assert m[a] == Byte0(v) == LowByte(v);
  }

  /** LDI: rd := the fetched immediate. */
  method LDI(m: Machine, w: bv32) returns (fault: Option<Fault>)
    requires m.Valid()
    modifies m.regs, m`cur
    ensures var rd := TwoSourcesView(w).rd;
      && m.cur == old(m.cur) + 4
      && match FetchedImmediate(m.pool, m.mem[..], old(m.cur))
         case Err(e) => fault == Some(e) && m.regs[..] == old(m.regs[..])
         case Ok(v) =>
           && fault == Check(rd)
           && m.regs[..] == if fault.Some? then old(m.regs[..]) else old(m.regs[..])[Index(rd) := v]
  {
    var value := m.FetchImmediate();
    if value.Err? { return Some(value.error); }
    fault := m.SetRegister(TwoSourcesView(w).rd, value.value);
  }

  /** LDQ: rd := the word view's 16-bit immediate, sign-extended. */
  method LDQ(m: Machine, w: bv32) returns (fault: Option<Fault>)
    requires m.Valid()
    modifies m.regs
    ensures var rd := TwoSourcesView(w).rd;
      && fault == Check(rd)
      && m.regs[..] == if fault.Some? then old(m.regs[..]) else old(m.regs[..])[Index(rd) := SignExtend16(WordView(w).imm)]
  {
    fault := m.SetRegister(TwoSourcesView(w).rd, SignExtend16(WordView(w).imm));
  }

  /** LDQ's operand is the immediate's signed value, in [-2^15, 2^15). */
  lemma {:induction false} QuickLoadIsSigned(w: bv32)
    ensures Signed(SignExtend16(WordView(w).imm)) == Signed16(WordView(w).imm)
    ensures -0x8000 <= Signed(SignExtend16(WordView(w).imm)) < 0x8000
  {
    SignExtend16PreservesValue(WordView(w).imm);
  }

  /**
   * The effective address of a displacement access. Reads rs, then fetches
   * the immediate: the one order of the two the model fixes (see Displaced).
   */
  method EffectiveAddress(m: Machine, rs: bv8) returns (r: Result<bv32, Fault>)
    requires m.Valid()
    modifies m`cur
    ensures m.cur == CursorAfter(old(m.cur), ReadRegister(m.regs[..], rs))
    ensures r == Displaced(ReadRegister(m.regs[..], rs), FetchedImmediate(m.pool, m.mem[..], old(m.cur)))
  {
    var base := m.GetRegister(rs);
    if base.Err? { return Err(base.error); }
    var imm := m.FetchImmediate();
    if imm.Err? { return Err(imm.error); }
    r := Ok(Add(base.value, imm.value));
  }

  /**
   * The displacement loads: rd := the value of kind `k` at rs + imm. The
   * destination is checked when the code is lowered, the address when it runs.
   */
  method LoadDisplaced(m: Machine, w: bv32, k: LoadKind) returns (fault: Option<Fault>)
    requires m.Valid()
    modifies m.regs, m`cur
    ensures var i := TwoSourcesView(w);
      && m.cur == CursorAfter(old(m.cur), ReadRegister(old(m.regs[..]), i.rs))
      && match Displaced(ReadRegister(old(m.regs[..]), i.rs), FetchedImmediate(m.pool, m.mem[..], old(m.cur)))
         case Err(e) => fault == Some(e) && m.regs[..] == old(m.regs[..])
         case Ok(a) =>
           && fault == OrElse(Check(i.rd), MemoryFault(m.mem.Length, a, LoadWidth(k)))
           && m.regs[..] == if fault.Some? then old(m.regs[..]) else old(m.regs[..])[Index(i.rd) := Loaded(m.mem[..], a as nat, k)]
  {
    var i := TwoSourcesView(w);
    var address := EffectiveAddress(m, i.rs);
    if address.Err? { return Some(address.error); }
    var a := address.value;
    var f := Check(i.rd);
    if f.Some? { return f; }
    if a as int + LoadWidth(k) > m.mem.Length {
      return Some(MemoryOutOfRange(a as int, LoadWidth(k)));
    }
    fault := m.SetRegister(i.rd, Loaded(m.mem[..], a as nat, k));
  }

  /** LDWd: rd := the word at rs + imm. */
  method LDWd(m: Machine, w: bv32) returns (fault: Option<Fault>)
    requires m.Valid()
    modifies m.regs, m`cur
    ensures var i := TwoSourcesView(w);
      && m.cur == CursorAfter(old(m.cur), ReadRegister(old(m.regs[..]), i.rs))
      && match Displaced(ReadRegister(old(m.regs[..]), i.rs), FetchedImmediate(m.pool, m.mem[..], old(m.cur)))
         case Err(e) => fault == Some(e) && m.regs[..] == old(m.regs[..])
         case Ok(a) =>
           && fault == OrElse(Check(i.rd), MemoryFault(m.mem.Length, a, 4))
           && m.regs[..] == if fault.Some? then old(m.regs[..]) else old(m.regs[..])[Index(i.rd) := LoadWord(m.mem[..], a as nat)]
  {
    fault := LoadDisplaced(m, w, Word);
  }

  /** LDHd: rd := the halfword at rs + imm, sign-extended. */
  method LDHd(m: Machine, w: bv32) returns (fault: Option<Fault>)
    requires m.Valid()
    modifies m.regs, m`cur
    ensures var i := TwoSourcesView(w);
      && m.cur == CursorAfter(old(m.cur), ReadRegister(old(m.regs[..]), i.rs))
      && match Displaced(ReadRegister(old(m.regs[..]), i.rs), FetchedImmediate(m.pool, m.mem[..], old(m.cur)))
         case Err(e) => fault == Some(e) && m.regs[..] == old(m.regs[..])
         case Ok(a) =>
           && fault == OrElse(Check(i.rd), MemoryFault(m.mem.Length, a, 2))
           && m.regs[..] == if fault.Some? then old(m.regs[..]) else old(m.regs[..])[Index(i.rd) := SignExtend16(LoadHalf(m.mem[..], a as nat))]
  {
    fault := LoadDisplaced(m, w, HalfSigned);
  }

  /** LDHUd: rd := the halfword at rs + imm, zero-extended. */
  method LDHUd(m: Machine, w: bv32) returns (fault: Option<Fault>)
    requires m.Valid()
    modifies m.regs, m`cur
    ensures var i := TwoSourcesView(w);
      && m.cur == CursorAfter(old(m.cur), ReadRegister(old(m.regs[..]), i.rs))
      && match Displaced(ReadRegister(old(m.regs[..]), i.rs), FetchedImmediate(m.pool, m.mem[..], old(m.cur)))
         case Err(e) => fault == Some(e) && m.regs[..] == old(m.regs[..])
         case Ok(a) =>
           && fault == OrElse(Check(i.rd), MemoryFault(m.mem.Length, a, 2))
           && m.regs[..] == if fault.Some? then old(m.regs[..]) else old(m.regs[..])[Index(i.rd) := LoadHalf(m.mem[..], a as nat) as bv32]
  {
    fault := LoadDisplaced(m, w, HalfUnsigned);
  }

  /** LDBd: rd := the byte at rs + imm, sign-extended. */
  method LDBd(m: Machine, w: bv32) returns (fault: Option<Fault>)
    requires m.Valid()
    modifies m.regs, m`cur
    ensures var i := TwoSourcesView(w);
      && m.cur == CursorAfter(old(m.cur), ReadRegister(old(m.regs[..]), i.rs))
      && match Displaced(ReadRegister(old(m.regs[..]), i.rs), FetchedImmediate(m.pool, m.mem[..], old(m.cur)))
         case Err(e) => fault == Some(e) && m.regs[..] == old(m.regs[..])
         case Ok(a) =>
           && fault == OrElse(Check(i.rd), MemoryFault(m.mem.Length, a, 1))
           && m.regs[..] == if fault.Some? then old(m.regs[..]) else old(m.regs[..])[Index(i.rd) := SignExtend8(m.mem[a])]
  {
    fault := LoadDisplaced(m, w, ByteSigned);
  }

  /** LDBUd: rd := the byte at rs + imm, zero-extended. */
  method LDBUd(m: Machine, w: bv32) returns (fault: Option<Fault>)
    requires m.Valid()
    modifies m.regs, m`cur
    ensures var i := TwoSourcesView(w);
      && m.cur == CursorAfter(old(m.cur), ReadRegister(old(m.regs[..]), i.rs))
      && match Displaced(ReadRegister(old(m.regs[..]), i.rs), FetchedImmediate(m.pool, m.mem[..], old(m.cur)))
         case Err(e) => fault == Some(e) && m.regs[..] == old(m.regs[..])
         case Ok(a) =>
           && fault == OrElse(Check(i.rd), MemoryFault(m.mem.Length, a, 1))
           && m.regs[..] == if fault.Some? then old(m.regs[..]) else old(m.regs[..])[Index(i.rd) := m.mem[a] as bv32]
  {
    fault := LoadDisplaced(m, w, ByteUnsigned);
  }

  /**
   * The displacement stores: the low `n` bytes of rd (`get_register<T>` of
   * the store's width) are written at rs + imm; no register changes.
   */
  method StoreDisplaced(m: Machine, w: bv32, n: nat) returns (fault: Option<Fault>)
    requires m.Valid() && n <= 4
    modifies m.mem, m`cur
    ensures var i := TwoSourcesView(w);
      && m.cur == CursorAfter(old(m.cur), ReadRegister(old(m.regs[..]), i.rs))
      && match Displaced(ReadRegister(m.regs[..], i.rs), FetchedImmediate(m.pool, old(m.mem[..]), old(m.cur)))
         case Err(e) => fault == Some(e) && m.mem[..] == old(m.mem[..])
         case Ok(a) =>
           match ReadRegister(m.regs[..], i.rd)
           case Err(e) => fault == Some(e) && m.mem[..] == old(m.mem[..])
           case Ok(v) =>
             && fault == MemoryFault(m.mem.Length, a, n)
             && m.mem[..] == if fault.Some? then old(m.mem[..]) else Splice(old(m.mem[..]), a as nat, WordBytes(v)[..n])
  {
    var i := TwoSourcesView(w);
    var address := EffectiveAddress(m, i.rs);
    if address.Err? { return Some(address.error); }
    var a := address.value;
    var value := m.GetRegister(i.rd);
    if value.Err? { return Some(value.error); }
    if a as int + n > m.mem.Length {
      return Some(MemoryOutOfRange(a as int, n));
    }
    WriteBytes(m.mem, a as nat, WordBytes(value.value)[..n]);
    fault := None;
  }

  /** STWd: the word rd is written at rs + imm. */
  method STWd(m: Machine, w: bv32) returns (fault: Option<Fault>)
    requires m.Valid()
    modifies m.mem, m`cur
    ensures var i := TwoSourcesView(w);
      && m.cur == CursorAfter(old(m.cur), ReadRegister(old(m.regs[..]), i.rs))
      && match Displaced(ReadRegister(m.regs[..], i.rs), FetchedImmediate(m.pool, old(m.mem[..]), old(m.cur)))
         case Err(e) => fault == Some(e) && m.mem[..] == old(m.mem[..])
         case Ok(a) =>
           match ReadRegister(m.regs[..], i.rd)
           case Err(e) => fault == Some(e) && m.mem[..] == old(m.mem[..])
           case Ok(v) =>
             && fault == MemoryFault(m.mem.Length, a, 4)
             && m.mem[..] == if fault.Some? then old(m.mem[..]) else Splice(old(m.mem[..]), a as nat, WordBytes(v))
  {
    fault := StoreDisplaced(m, w, 4);
    assert forall v: bv32 :: WordBytes(v)[..4] == WordBytes(v);
  }

  /** STHd: rd's low halfword is written at rs + imm. */
  method STHd(m: Machine, w: bv32) returns (fault: Option<Fault>)
    requires m.Valid()
    modifies m.mem, m`cur
    ensures var i := TwoSourcesView(w);
      && m.cur == CursorAfter(old(m.cur), ReadRegister(old(m.regs[..]), i.rs))
      && match Displaced(ReadRegister(m.regs[..], i.rs), FetchedImmediate(m.pool, old(m.mem[..]), old(m.cur)))
         case Err(e) => fault == Some(e) && m.mem[..] == old(m.mem[..])
         case Ok(a) =>
           match ReadRegister(m.regs[..], i.rd)
           case Err(e) => fault == Some(e) && m.mem[..] == old(m.mem[..])
           case Ok(v) =>
             && fault == MemoryFault(m.mem.Length, a, 2)
             && m.mem[..] == if fault.Some? then old(m.mem[..]) else Splice(old(m.mem[..]), a as nat, WordBytes(v)[..2])
  {
    fault := StoreDisplaced(m, w, 2);
  }

  /** STBd: rd's low byte is written at rs + imm. */
  method STBd(m: Machine, w: bv32) returns (fault: Option<Fault>)
    requires m.Valid()
    modifies m.mem, m`cur
    ensures var i := TwoSourcesView(w);
      && m.cur == CursorAfter(old(m.cur), ReadRegister(old(m.regs[..]), i.rs))
      && match Displaced(ReadRegister(m.regs[..], i.rs), FetchedImmediate(m.pool, old(m.mem[..]), old(m.cur)))
         case Err(e) => fault == Some(e) && m.mem[..] == old(m.mem[..])
         case Ok(a) =>
           match ReadRegister(m.regs[..], i.rd)
           case Err(e) => fault == Some(e) && m.mem[..] == old(m.mem[..])
           case Ok(v) =>
             && fault == MemoryFault(m.mem.Length, a, 1)
             && m.mem[..] == if fault.Some? then old(m.mem[..]) else Splice(old(m.mem[..]), a as nat, WordBytes(v)[..1])
  {
    fault := StoreDisplaced(m, w, 1);
  }

  /**
   * STORE, with the ZR case corrected (Push): RA pushed for ZR, otherwise
   * the span copied below SP; SP lowered in both cases.
   */
  method STORE(m: Machine, w: bv32) returns (fault: Option<Fault>)
    requires m.Valid()
    modifies m.regs, m.mem
    ensures var i := RangeRegView(w);
      match Push(old(m.regs[..]), old(m.mem[..]), i.rs, i.count)
      case Err(e) => fault == Some(e) && m.regs[..] == old(m.regs[..]) && m.mem[..] == old(m.mem[..])
      case Ok(s) => fault.None? && m.regs[..] == s.regs && m.mem[..] == s.mem
  {
    var i := RangeRegView(w);
    if i.rs == 0 {
      fault := PushReturnAddressInPlace(m);
    } else {
      fault := StoreSpanInPlace(m, i.rs, i.count);
    }
  }

  /** STORE ZR, corrected: RA written to the word below SP, SP lowered by 4. */
  method PushReturnAddressInPlace(m: Machine) returns (fault: Option<Fault>)
    requires m.Valid()
    modifies m.regs, m.mem
    ensures match PushReturnAddress(old(m.regs[..]), old(m.mem[..]))
      case Err(e) => fault == Some(e) && m.regs[..] == old(m.regs[..]) && m.mem[..] == old(m.mem[..])
      case Ok(s) => fault.None? && m.regs[..] == s.regs && m.mem[..] == s.mem
  {
    var a := Sub(m.regs[SpSlot], 4);
    if a as int + 4 > m.mem.Length {
      return Some(MemoryOutOfRange(a as int, 4));
    }
    WriteBytes(m.mem, a as nat, WordBytes(m.regs[RaSlot]));
    m.regs[SpSlot] := a;
    fault := None;
  }

  /** STORE of a span: `count` bytes of the file from rs on copied below SP, SP lowered by `count`. */
  method StoreSpanInPlace(m: Machine, rs: bv8, count: bv8) returns (fault: Option<Fault>)
    requires m.Valid()
    modifies m.regs, m.mem
    ensures match StoreSpan(old(m.regs[..]), old(m.mem[..]), rs, count)
      case Err(e) => fault == Some(e) && m.regs[..] == old(m.regs[..]) && m.mem[..] == old(m.mem[..])
      case Ok(s) => fault.None? && m.regs[..] == s.regs && m.mem[..] == s.mem
  {
    var checked := StoreSpan(m.regs[..], m.mem[..], rs, count);
    if checked.Err? {
      return Some(checked.error);
    }
    var base := Sub(m.regs[SpSlot], count as bv32);
    if count != 0 {
      WriteBytes(m.mem, base as nat, RegisterBytes(m.regs[..])[rs as int..rs as int + count as int]);
    }
    m.regs[SpSlot] := base;
    fault := None;
  }

  /** RESTORE: RA popped for ZR, otherwise the span at SP copied into the file; SP raised. */
  method RESTORE(m: Machine, w: bv32) returns (fault: Option<Fault>)
    requires m.Valid()
    modifies m.regs
    ensures var i := RangeRegView(w);
      match Restore(old(m.regs[..]), m.mem[..], i.rs, i.count)
      case Err(e) => fault == Some(e) && m.regs[..] == old(m.regs[..])
      case Ok(s) => fault.None? && m.regs[..] == s.regs
  {
    var i := RangeRegView(w);
    if i.rs == 0 {
      fault := PopReturnAddressInPlace(m);
    } else {
      fault := RestoreSpanInPlace(m, RestoreBase(i.rs, i.count), i.count);
    }
  }

  /** RESTORE ZR: RA := the word at SP, SP raised by 4. */
  method PopReturnAddressInPlace(m: Machine) returns (fault: Option<Fault>)
    requires m.Valid()
    modifies m.regs
    ensures match RestoreReturnAddress(old(m.regs[..]), m.mem[..])
      case Err(e) => fault == Some(e) && m.regs[..] == old(m.regs[..])
      case Ok(s) => fault.None? && m.regs[..] == s.regs
  {
    var sp := m.regs[SpSlot];
    if sp as int + 4 > m.mem.Length {
      return Some(MemoryOutOfRange(sp as int, 4));
    }
    m.regs[RaSlot] := LoadWord(m.mem[..], sp as nat);
    m.regs[SpSlot] := Add(sp, 4);
    fault := None;
  }

  /** RESTORE of a span: the `count` bytes at SP copied into the file from register t on, SP raised by `count`. */
  method RestoreSpanInPlace(m: Machine, t: bv8, count: bv8) returns (fault: Option<Fault>)
    requires m.Valid()
    modifies m.regs
    ensures match RestoreSpan(old(m.regs[..]), m.mem[..], t, count)
      case Err(e) => fault == Some(e) && m.regs[..] == old(m.regs[..])
      case Ok(s) => fault.None? && m.regs[..] == s.regs
  {
    var checked := RestoreSpan(m.regs[..], m.mem[..], t, count);
    if checked.Err? {
      return Some(checked.error);
    }
    Overwrite(m.regs, checked.value.regs);
    fault := None;
  }

  /** Overwrites the register file slot by slot with `values`. */
  method Overwrite(regs: array<bv32>, values: seq<bv32>)
    requires |values| == regs.Length
    modifies regs
    ensures regs[..] == values
  {
    var j := 0;
    while j < regs.Length
      invariant 0 <= j <= regs.Length
      invariant regs[..j] == values[..j]
    {
      regs[j] := values[j];
      j := j + 1;
    }
  }
}
