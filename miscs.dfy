/**
 * The single-source register operations NOT, NEG, EXSB and EXSH, the empty
 * NOP, and SLEEP / KILLTASK, which call into the scheduler only when task
 * support is enabled.
 */
module Miscs {
  import opened Wrappers
  import opened Instructions
  import opened Common
  import opened SpecialFunction
  import opened Translator
  import Arithmetic

  /** Bitwise complement and two's-complement negation of a word. */
  function Complement(x: bv32): bv32 { !x }

  function Negate(x: bv32): bv32 { 0 - x }

  /** Complement and negation are involutions, and -x == ~x + 1. */
  lemma {:induction false} ComplementInvolution(x: bv32)
    ensures Complement(Complement(x)) == x
  {
  }

  lemma {:induction false} NegateInvolution(x: bv32)
    ensures Negate(Negate(x)) == x
  {
  }

  lemma {:induction false} NegateIsComplementPlusOne(x: bv32)
    ensures Negate(x) == Arithmetic.Add(Complement(x), 1)
    ensures Arithmetic.Add(x, Negate(x)) == 0
  {
  }

  /** rd := ~rs. */
  method NOT(m: Machine, w: bv32) returns (fault: Option<Fault>)
    requires m.Valid()
    modifies m.regs
    ensures var i := TwoSourcesView(w);
      && fault == OrElse(Check(i.rs), Check(i.rd))
      && m.regs[..] == if fault.Some? then old(m.regs[..])
         else old(m.regs[..])[Index(i.rd) := Complement(old(m.regs[Index(i.rs)]))]
  {
    var i := TwoSourcesView(w);
    var value := m.GetRegister(i.rs);
    if value.Err? { return Some(value.error); }
    fault := m.SetRegister(i.rd, Complement(value.value));
  }

  /** rd := 0 - rs, wrapping at 2^32. */
  method NEG(m: Machine, w: bv32) returns (fault: Option<Fault>)
    requires m.Valid()
    modifies m.regs
    ensures var i := TwoSourcesView(w);
      && fault == OrElse(Check(i.rs), Check(i.rd))
      && m.regs[..] == if fault.Some? then old(m.regs[..])
         else old(m.regs[..])[Index(i.rd) := Negate(old(m.regs[Index(i.rs)]))]
  {
    var i := TwoSourcesView(w);
    var value := m.GetRegister(i.rs);
    if value.Err? { return Some(value.error); }
    fault := m.SetRegister(i.rd, Negate(value.value));
  }

  /** rd := the low byte of rs, sign-extended; rd may be rs itself. */
  method EXSB(m: Machine, w: bv32) returns (fault: Option<Fault>)
    requires m.Valid()
    modifies m.regs
    ensures var i := TwoSourcesView(w);
      && fault == OrElse(Check(i.rs), Check(i.rd))
      && m.regs[..] == if fault.Some? then old(m.regs[..])
         else old(m.regs[..])[Index(i.rd) := SignExtend8(LowByte(old(m.regs[Index(i.rs)])))]
  {
    var i := TwoSourcesView(w);
    var value := m.GetRegister(i.rs);
    if value.Err? { return Some(value.error); }
    fault := m.SetRegister(i.rd, SignExtend8(LowByte(value.value)));
  }

  /** rd := the low half of rs, sign-extended. */
  method EXSH(m: Machine, w: bv32) returns (fault: Option<Fault>)
    requires m.Valid()
    modifies m.regs
    ensures var i := TwoSourcesView(w);
      && fault == OrElse(Check(i.rs), Check(i.rd))
      && m.regs[..] == if fault.Some? then old(m.regs[..])
         else old(m.regs[..])[Index(i.rd) := SignExtend16(LowHalf(old(m.regs[Index(i.rs)])))]
  {
    var i := TwoSourcesView(w);
    var value := m.GetRegister(i.rs);
    if value.Err? { return Some(value.error); }
    fault := m.SetRegister(i.rd, SignExtend16(LowHalf(value.value)));
  }

  /** Extending a byte keeps its signed value: EXSB's result reads as int8. */
  lemma {:induction false} ExtendedByteValue(x: bv32)
    ensures Signed(SignExtend8(LowByte(x))) == Signed8(LowByte(x))
    ensures SignExtend8(LowByte(x)) & 0xFF == x & 0xFF
  {
    SignExtend8PreservesValue(LowByte(x));
  }

  /** Extending a half keeps its signed value: EXSH's result reads as int16. */
  lemma {:induction false} ExtendedHalfValue(x: bv32)
    ensures Signed(SignExtend16(LowHalf(x))) == Signed16(LowHalf(x))
    ensures SignExtend16(LowHalf(x)) & 0xFFFF == x & 0xFFFF
  {
    SignExtend16PreservesValue(LowHalf(x));
  }

  /** NOP changes nothing. */
  method NOP(m: Machine, w: bv32)
    requires m.Valid()
    ensures unchanged(m, m.regs, m.mem)
  {
  }

  /** SLEEP yields the current task when task support is on, and is a no-op otherwise. */
  method SLEEP(m: Machine, w: bv32)
    requires m.Valid()
    modifies m`calls
    ensures m.calls == if m.useTask then old(m.calls) + [YIELD_TASK] else old(m.calls)
  {
    if m.useTask {
      m.calls := m.calls + [YIELD_TASK];
    }
  }

  /** KILLTASK ends the current task when task support is on, and is a no-op otherwise. */
  method KILLTASK(m: Machine, w: bv32)
    requires m.Valid()
    modifies m`calls
    ensures m.calls == if m.useTask then old(m.calls) + [KILL_CURRENT_TASK] else old(m.calls)
  {
    if m.useTask {
      m.calls := m.calls + [KILL_CURRENT_TASK];
    }
  }
}
