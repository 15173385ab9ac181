/**
 * ADD, SUB and their immediate (`i`, fetched from the next dword) and quick
 * (`Q`, the sign-extended rt byte) forms: each reads its sources, then
 * overwrites the slot of rd with the 32-bit wrapped result.
 */
module Arithmetic {
  import opened Wrappers
  import opened Instructions
  import opened Common
  import opened Translator

  /** Addition and subtraction of 32-bit words, wrapping at 2^32. */
  function Add(a: bv32, b: bv32): bv32 { a + b }

  function Sub(a: bv32, b: bv32): bv32 { a - b }

  /** Adding back what was subtracted, or subtracting what was added, restores the word. */
  lemma {:induction false} SubAddCancel(a: bv32, b: bv32)
    ensures Add(Sub(a, b), b) == a
  {
    var d := a - b;
    assert Sub(a, b) == d;
    SubThenAdd(a, b);
    assert Add(d, b) == a;
  }

  lemma {:induction false} AddSubCancel(a: bv32, b: bv32)
    ensures Sub(Add(a, b), b) == a
  {
    var d := a + b;
    assert Add(a, b) == d;
    AddThenSub(a, b);
    assert Sub(d, b) == a;
  }

  lemma SubThenAdd(a: bv32, b: bv32)
    ensures (a - b) + b == a
  {
  }

  lemma AddThenSub(a: bv32, b: bv32)
    ensures (a + b) - b == a
  {
  }

  /** rd := rs + rt, wrapping at 2^32; sources read before rd is written. */
  method ADD(m: Machine, w: bv32) returns (fault: Option<Fault>)
    requires m.Valid()
    modifies m.regs
    ensures var i := TwoSourcesView(w);
      && fault == OrElse(Check(i.rs), OrElse(Check(i.rt), Check(i.rd)))
      && m.regs[..] == if fault.Some? then old(m.regs[..])
         else old(m.regs[..])[Index(i.rd) := Add(old(m.regs[Index(i.rs)]), old(m.regs[Index(i.rt)]))]
  {
    var i := TwoSourcesView(w);
    var lhs := m.GetRegister(i.rs);
    if lhs.Err? { return Some(lhs.error); }
    var rhs := m.GetRegister(i.rt);
    if rhs.Err? { return Some(rhs.error); }
    fault := m.SetRegister(i.rd, Add(lhs.value, rhs.value));
  }

  /** rd := rs - rt, wrapping at 2^32. */
  method SUB(m: Machine, w: bv32) returns (fault: Option<Fault>)
    requires m.Valid()
    modifies m.regs
    ensures var i := TwoSourcesView(w);
      && fault == OrElse(Check(i.rs), OrElse(Check(i.rt), Check(i.rd)))
      && m.regs[..] == if fault.Some? then old(m.regs[..])
         else old(m.regs[..])[Index(i.rd) := Sub(old(m.regs[Index(i.rs)]), old(m.regs[Index(i.rt)]))]
  {
    var i := TwoSourcesView(w);
    var lhs := m.GetRegister(i.rs);
    if lhs.Err? { return Some(lhs.error); }
    var rhs := m.GetRegister(i.rt);
    if rhs.Err? { return Some(rhs.error); }
    fault := m.SetRegister(i.rd, Sub(lhs.value, rhs.value));
  }

  /**
   * rd := rs + imm, where imm is the fetched immediate; the cursor moves past
   * the immediate dword once rs has been read.
   */
  method ADDi(m: Machine, w: bv32) returns (fault: Option<Fault>)
    requires m.Valid()
    modifies m.regs, m`cur
    ensures var i := TwoSourcesView(w);
      match ReadRegister(old(m.regs[..]), i.rs)
      case Err(e) => fault == Some(e) && m.regs[..] == old(m.regs[..]) && m.cur == old(m.cur)
      case Ok(lhs) =>
        && m.cur == old(m.cur) + 4
        && match FetchedImmediate(m.pool, m.mem[..], old(m.cur))
           case Err(e) => fault == Some(e) && m.regs[..] == old(m.regs[..])
           case Ok(imm) =>
             && fault == Check(i.rd)
             && m.regs[..] == if fault.Some? then old(m.regs[..]) else old(m.regs[..])[Index(i.rd) := Add(lhs, imm)]
  {
    var i := TwoSourcesView(w);
    var lhs := m.GetRegister(i.rs);
    if lhs.Err? { return Some(lhs.error); }
    var rhs := m.FetchImmediate();
    if rhs.Err? { return Some(rhs.error); }
    fault := m.SetRegister(i.rd, Add(lhs.value, rhs.value));
  }

  /** rd := rs - imm, where imm is the fetched immediate. */
  method SUBi(m: Machine, w: bv32) returns (fault: Option<Fault>)
    requires m.Valid()
    modifies m.regs, m`cur
    ensures var i := TwoSourcesView(w);
      match ReadRegister(old(m.regs[..]), i.rs)
      case Err(e) => fault == Some(e) && m.regs[..] == old(m.regs[..]) && m.cur == old(m.cur)
      case Ok(lhs) =>
        && m.cur == old(m.cur) + 4
        && match FetchedImmediate(m.pool, m.mem[..], old(m.cur))
           case Err(e) => fault == Some(e) && m.regs[..] == old(m.regs[..])
           case Ok(imm) =>
             && fault == Check(i.rd)
             && m.regs[..] == if fault.Some? then old(m.regs[..]) else old(m.regs[..])[Index(i.rd) := Sub(lhs, imm)]
  {
    var i := TwoSourcesView(w);
    var lhs := m.GetRegister(i.rs);
    if lhs.Err? { return Some(lhs.error); }
    var rhs := m.FetchImmediate();
    if rhs.Err? { return Some(rhs.error); }
    fault := m.SetRegister(i.rd, Sub(lhs.value, rhs.value));
  }

  /** rd := rs + sign_extend(rt), the rt byte read as a signed 8-bit quantity. */
  method ADDQ(m: Machine, w: bv32) returns (fault: Option<Fault>)
    requires m.Valid()
    modifies m.regs
    ensures var i := TwoSourcesView(w);
      && fault == OrElse(Check(i.rs), Check(i.rd))
      && m.regs[..] == if fault.Some? then old(m.regs[..])
         else old(m.regs[..])[Index(i.rd) := Add(old(m.regs[Index(i.rs)]), SignExtend8(i.rt))]
  {
    var i := TwoSourcesView(w);
    var lhs := m.GetRegister(i.rs);
    if lhs.Err? { return Some(lhs.error); }
    fault := m.SetRegister(i.rd, Add(lhs.value, SignExtend8(i.rt)));
  }

  /** rd := rs - sign_extend(rt). */
  method SUBQ(m: Machine, w: bv32) returns (fault: Option<Fault>)
    requires m.Valid()
    modifies m.regs
    ensures var i := TwoSourcesView(w);
      && fault == OrElse(Check(i.rs), Check(i.rd))
      && m.regs[..] == if fault.Some? then old(m.regs[..])
         else old(m.regs[..])[Index(i.rd) := Sub(old(m.regs[Index(i.rs)]), SignExtend8(i.rt))]
  {
    var i := TwoSourcesView(w);
    var lhs := m.GetRegister(i.rs);
    if lhs.Err? { return Some(lhs.error); }
    fault := m.SetRegister(i.rd, Sub(lhs.value, SignExtend8(i.rt)));
  }

  /** The quick operand is the rt byte's signed value, in [-128, 128). */
  lemma {:induction false} QuickOperandIsSigned(rt: bv8)
    ensures Signed(SignExtend8(rt)) == Signed8(rt)
    ensures -128 <= Signed(SignExtend8(rt)) < 128
  {
    SignExtend8PreservesValue(rt);
  }
}
