/**
 * The 30 conditional branches: BEQ, BNE, BLT, BLTU, BLE, BLEU, BGT, BGTU,
 * BGE and BGEU, each in three forms. The register form compares rd with rs
 * and takes its offset from the immediate that follows the instruction; the
 * "i" form compares rd with the signed 8-bit immediate held in the rs byte
 * (the code as written reads a register there; see ComparisonAsWritten) and
 * takes its offset from rt (in words); the "IB" form compares rd with the
 * 8-bit immediate held in the rs byte, widened by a chosen extension. Each
 * lowers to one `icmp` and a conditional branch with two successors.
 */
module ControlFlow {
  import opened Wrappers
  import opened Instructions
  import opened Common
  import opened Translator

  /** The `icmp` predicates the branches use. */
  datatype Predicate = EQ | NE | SGE | UGE | SGT | UGT | SLE | ULE | SLT | ULT

  /** Where a branch gets its offset and its right-hand operand. */
  datatype Form =
    | Fetched        // rhs is rs, offset is the following immediate
    | InInstruction  // rhs is the rs byte sign-extended, offset is 4 * rt
    | Immediate8     // rhs is the rs byte itself, offset is 4 * rt

  /** `icmp p lhs, rhs` on 32-bit operands, read unsigned or as two's complement. */
  predicate Holds(p: Predicate, lhs: bv32, rhs: bv32) {
    var ul, ur, sl, sr := lhs as int, rhs as int, Signed(lhs), Signed(rhs);
    match p
    case EQ => lhs == rhs
    case NE => lhs != rhs
    case UGE => ul >= ur
    case UGT => ul > ur
    case ULE => ul <= ur
    case ULT => ul < ur
    case SGE => sl >= sr
    case SGT => sl > sr
    case SLE => sl <= sr
    case SLT => sl < sr
  }

  /** The predicate that holds exactly when `p` does not. */
  function Negation(p: Predicate): Predicate {
    match p
    case EQ => NE  case NE => EQ
    case UGE => ULT  case ULT => UGE
    case UGT => ULE  case ULE => UGT
    case SGE => SLT  case SLT => SGE
    case SGT => SLE  case SLE => SGT
  }

  /** The predicate that holds of the swapped operands exactly when `p` holds. */
  function Swapped(p: Predicate): Predicate {
    match p
    case EQ => EQ  case NE => NE
    case UGE => ULE  case ULE => UGE
    case UGT => ULT  case ULT => UGT
    case SGE => SLE  case SLE => SGE
    case SGT => SLT  case SLT => SGT
  }

  lemma {:induction false} NegationHolds(p: Predicate, lhs: bv32, rhs: bv32)
    ensures Holds(Negation(p), lhs, rhs) <==> !Holds(p, lhs, rhs)
    ensures Negation(Negation(p)) == p
  {
    match p
    case EQ =>
    case NE =>
    case UGE =>
    case UGT =>
    case ULE =>
    case ULT =>
    case SGE =>
    case SGT =>
    case SLE =>
    case SLT =>
  }

  lemma {:induction false} SwappedHolds(p: Predicate, lhs: bv32, rhs: bv32)
    ensures Holds(Swapped(p), rhs, lhs) <==> Holds(p, lhs, rhs)
    ensures Swapped(Swapped(p)) == p
  {
    match p
    case EQ =>
    case NE =>
    case UGE =>
    case UGT =>
    case ULE =>
    case ULT =>
    case SGE =>
    case SGT =>
    case SLE =>
    case SLT =>
  }

  /** On words whose sign bit is clear the signed and unsigned predicates agree. */
  lemma {:induction false} SignedAgreesOnNonNegative(p: Predicate, lhs: bv32, rhs: bv32)
    requires lhs < 0x8000_0000 && rhs < 0x8000_0000
    ensures Holds(p, lhs, rhs) <==> Holds(Unsigned(p), lhs, rhs)
  {
    match p
    case EQ =>
    case NE =>
    case UGE =>
    case UGT =>
    case ULE =>
    case ULT =>
    case SGE =>
    case SGT =>
    case SLE =>
    case SLT =>
  }

  /** The unsigned counterpart of a predicate. */
  function Unsigned(p: Predicate): Predicate {
    match p
    case SGE => UGE  case SGT => UGT  case SLE => ULE  case SLT => ULT
    case _ => p
  }

  /** The signed and unsigned orders differ: -1 is below 0 signed and above it unsigned. */
  lemma {:induction false} SignednessMatters()
    ensures Holds(SLT, 0xFFFF_FFFF, 0) && !Holds(ULT, 0xFFFF_FFFF, 0)
  {
  }

  /** A branch handler: its predicate and its form. */
  datatype Handler = Handler(pred: Predicate, form: Form)

  /** The handler each conditional-branch opcode dispatches to. */
  function BranchKind(op: Opcode): Option<Handler> {
    match op
    case BEQ => Some(Handler(EQ, Fetched))    case BEQI => Some(Handler(EQ, InInstruction))    case BEQIB => Some(Handler(EQ, Immediate8))
    case BNE => Some(Handler(NE, Fetched))    case BNEI => Some(Handler(NE, InInstruction))    case BNEIB => Some(Handler(NE, Immediate8))
    case BGE => Some(Handler(SGE, Fetched))   case BGEI => Some(Handler(SGE, InInstruction))   case BGEIB => Some(Handler(SGE, Immediate8))
    case BGEU => Some(Handler(UGE, Fetched))  case BGEUI => Some(Handler(UGE, InInstruction))  case BGEUIB => Some(Handler(UGE, Immediate8))
    case BGT => Some(Handler(SGT, Fetched))   case BGTI => Some(Handler(SGT, InInstruction))   case BGTIB => Some(Handler(SGT, Immediate8))
    case BGTU => Some(Handler(UGT, Fetched))  case BGTUI => Some(Handler(UGT, InInstruction))  case BGTUIB => Some(Handler(UGT, Immediate8))
    case BLE => Some(Handler(SLE, Fetched))   case BLEI => Some(Handler(SLE, InInstruction))   case BLEIB => Some(Handler(SLE, Immediate8))
    case BLEU => Some(Handler(ULE, Fetched))  case BLEUI => Some(Handler(ULE, InInstruction))  case BLEUIB => Some(Handler(ULE, Immediate8))
    case BLT => Some(Handler(SLT, Fetched))   case BLTI => Some(Handler(SLT, InInstruction))   case BLTIB => Some(Handler(SLT, Immediate8))
    case BLTU => Some(Handler(ULT, Fetched))  case BLTUI => Some(Handler(ULT, InInstruction))  case BLTUIB => Some(Handler(ULT, Immediate8))
    case _ => None
  }

  /** The opcode whose handler uses predicate `p` in form `form`. */
  function OpcodeOf(p: Predicate, form: Form): Opcode {
    match (p, form)
    case (EQ, Fetched) => BEQ   case (EQ, InInstruction) => BEQI   case (EQ, Immediate8) => BEQIB
    case (NE, Fetched) => BNE   case (NE, InInstruction) => BNEI   case (NE, Immediate8) => BNEIB
    case (SGE, Fetched) => BGE  case (SGE, InInstruction) => BGEI  case (SGE, Immediate8) => BGEIB
    case (UGE, Fetched) => BGEU case (UGE, InInstruction) => BGEUI case (UGE, Immediate8) => BGEUIB
    case (SGT, Fetched) => BGT  case (SGT, InInstruction) => BGTI  case (SGT, Immediate8) => BGTIB
    case (UGT, Fetched) => BGTU case (UGT, InInstruction) => BGTUI case (UGT, Immediate8) => BGTUIB
    case (SLE, Fetched) => BLE  case (SLE, InInstruction) => BLEI  case (SLE, Immediate8) => BLEIB
    case (ULE, Fetched) => BLEU case (ULE, InInstruction) => BLEUI case (ULE, Immediate8) => BLEUIB
    case (SLT, Fetched) => BLT  case (SLT, InInstruction) => BLTI  case (SLT, Immediate8) => BLTIB
    case (ULT, Fetched) => BLTU case (ULT, InInstruction) => BLTUI case (ULT, Immediate8) => BLTUIB
  }

  /**
   * Each of the 10 x 3 pairs of a predicate and a form has its own opcode,
   * which dispatches to that pair's handler.
   */
  lemma {:induction false} OpcodeOfIsHandled(p: Predicate, form: Form)
    ensures BranchKind(OpcodeOf(p, form)) == Some(Handler(p, form))
  {
    match form
    case Fetched => FetchedOpcodes(p);
    case InInstruction => InInstructionOpcodes(p);
    case Immediate8 => Immediate8Opcodes(p);
  }

  lemma {:induction false} FetchedOpcodes(p: Predicate)
    ensures BranchKind(OpcodeOf(p, Fetched)) == Some(Handler(p, Fetched))
  {
  }

  lemma {:induction false} InInstructionOpcodes(p: Predicate)
    ensures BranchKind(OpcodeOf(p, InInstruction)) == Some(Handler(p, InInstruction))
  {
  }

  lemma {:induction false} Immediate8Opcodes(p: Predicate)
    ensures BranchKind(OpcodeOf(p, Immediate8)) == Some(Handler(p, Immediate8))
  {
  }

  /** Distinct pairs have distinct opcodes. */
  lemma {:induction false} OpcodeOfInjective(h1: Handler, h2: Handler)
    requires OpcodeOf(h1.pred, h1.form) == OpcodeOf(h2.pred, h2.form)
    ensures h1 == h2
  {
    OpcodeOfIsHandled(h1.pred, h1.form);
    OpcodeOfIsHandled(h2.pred, h2.form);
  }

  /**
   * The lowered conditional branch: the `icmp` outcome and the two
   * successor addresses.
   */
  datatype CondBranch = CondBranch(condition: bool, taken: bv32, fallthrough: bv32)

  /** Where control goes when the lowered branch runs. */
  function Next(b: CondBranch): (next: bv32)
    ensures next == b.taken || next == b.fallthrough
    ensures b.taken != b.fallthrough ==> (next == b.taken <==> b.condition)
  {
    if b.condition then b.taken else b.fallthrough
  }

  /**
   * The successors of a register-form branch as written: `fetch_immediate`
   * has already advanced the current address past the instruction word, so
   * both targets are formed from `at + 4`.
   */
  function FetchedTargetsAsWritten(at: bv32, offset: bv32): (bv32, bv32) {
    var cur := at + 4;
    (cur + offset, cur + 4)
  }

  /**
   * The successors a register-form branch at `at` is meant to have: the
   * offset counts from the branch itself, as in the "i" and "IB" forms, and
   * execution falls through past the immediate.
   */
  function FetchedTargets(at: bv32, offset: bv32): (bv32, bv32) {
    (at + offset, at + 8)
  }

  /** As written, the taken target overshoots by one word. */
  lemma {:induction false} FetchedTargetOvershoots(at: bv32, offset: bv32)
    ensures FetchedTargetsAsWritten(at, offset).0 == FetchedTargets(at, offset).0 + 4
    ensures FetchedTargetsAsWritten(at, offset).0 != FetchedTargets(at, offset).0
    ensures FetchedTargetsAsWritten(at, offset).1 == FetchedTargets(at, offset).1
  {
  }

  /**
   * A register-form branch (BLTU, say) at address 0 with immediate 20 should
   * reach the instruction at byte 20, past three instruction words and two
   * immediates; as written it reaches 24.
   */
  lemma {:induction false} FetchedTargetExample()
    ensures FetchedTargets(0, 20).0 == 20
    ensures FetchedTargetsAsWritten(0, 20).0 == 24
  {
  }

  /**
   * How the IB form's 8-bit immediate meets the 32-bit register in the
   * comparison: the lowering compares an i32 with an i8 constant, which
   * fixes no extension, so the model leaves the choice open.
   */
  datatype Widening = ZeroExtend | SignExtend

  function Widen(widen: Widening, b: bv8): bv32 {
    match widen
    case ZeroExtend => b as bv32
    case SignExtend => SignExtend8(b)
  }

  /** 4 * rt, computed in 32 bits. */
  function WordOffset(rt: bv8): bv32 {
    (rt as bv32) << 2
  }

  /** `icmp p` once both operands are read, the first fault winning. */
  function Compared(p: Predicate, lhs: Result<bv32, Fault>, rhs: Result<bv32, Fault>): Result<bool, Fault> {
    if lhs.Err? then Err(lhs.error)
    else if rhs.Err? then Err(rhs.error)
    else Ok(Holds(p, lhs.value, rhs.value))
  }

  /**
   * The right-hand operand as written: the register-compare helper reads the
   * rs byte as a register for both the register and the "i" form; the IB
   * form widens the byte itself.
   */
  function RightOperandAsWritten(regs: seq<bv32>, form: Form, rs: bv8, widen: Widening): Result<bv32, Fault>
    requires |regs| == 32
  {
    if form == Immediate8 then Ok(Widen(widen, rs)) else ReadRegister(regs, rs)
  }

  /**
   * The right-hand operand as evidently intended: only the register form
   * reads a register; the "i" form compares with the rs byte as a signed
   * 8-bit immediate.
   */
  function RightOperand(regs: seq<bv32>, form: Form, rs: bv8, widen: Widening): Result<bv32, Fault>
    requires |regs| == 32
  {
    match form
    case Fetched => ReadRegister(regs, rs)
    case InInstruction => Ok(SignExtend8(rs))
    case Immediate8 => Ok(Widen(widen, rs))
  }

  /** The `icmp` of a branch as written: rd against rs read by `RightOperandAsWritten`. */
  function ComparisonAsWritten(regs: seq<bv32>, h: Handler, w: bv32, widen: Widening): Result<bool, Fault>
    requires |regs| == 32
  {
    var i := TwoSourcesView(w);
    Compared(h.pred, ReadRegister(regs, i.rd), RightOperandAsWritten(regs, h.form, i.rs, widen))
  }

  /**
   * The `icmp` of a branch: the table's predicate applied to rd, read first,
   * and to the right-hand operand: the rs register for the register form,
   * the sign-extended rs byte for the "i" form, and the rs byte widened by
   * `widen` for the IB form.
   */
  function Comparison(regs: seq<bv32>, h: Handler, w: bv32, widen: Widening): Result<bool, Fault>
    requires |regs| == 32
  {
    var i := TwoSourcesView(w);
    Compared(h.pred, ReadRegister(regs, i.rd), RightOperand(regs, h.form, i.rs, widen))
  }

  /**
   * As written, the jump-table guard `bgtui $s0,11,36` faults, because 11 is
   * no register, and `bleui $r0,4,12` compares R0 with SP instead of 4.
   */
  lemma {:induction false} InInstructionReadsRegister(regs: seq<bv32>, op: bv8, widen: Widening)
    requires |regs| == 32
    ensures ComparisonAsWritten(regs, Handler(UGT, InInstruction), MakeBinaryInstruction(op, 16, 11, 9), widen)
         == Err(InvalidRegister(11))
    ensures ComparisonAsWritten(regs, Handler(ULE, InInstruction), MakeBinaryInstruction(op, 120, 4, 3), widen)
         == Ok(Holds(ULE, regs[30], regs[1]))
  {
  }

  /**
   * With the rs byte read as a signed immediate, an "i"-form branch never
   * faults on it: it compares rd with the byte's int8 value, and the two
   * jump-table guards compare S0 with 11 and R0 with 4.
   */
  lemma {:induction false} ImmediateBoundCompares(regs: seq<bv32>, p: Predicate, w: bv32, widen: Widening, op: bv8)
    requires |regs| == 32
    ensures var i := TwoSourcesView(w);
      Comparison(regs, Handler(p, InInstruction), w, widen)
        == if Addressable(i.rd) then Ok(Holds(p, regs[Index(i.rd)], SignExtend8(i.rs))) else Err(ReadRegister(regs, i.rd).error)
    ensures Signed(SignExtend8(TwoSourcesView(w).rs)) == Signed8(TwoSourcesView(w).rs)
    ensures Comparison(regs, Handler(UGT, InInstruction), MakeBinaryInstruction(op, 16, 11, 9), widen)
         == Ok(regs[4] as int > 11)
    ensures Comparison(regs, Handler(ULE, InInstruction), MakeBinaryInstruction(op, 120, 4, 3), widen)
         == Ok(regs[30] as int <= 4)
  {
    SignExtend8PreservesValue(TwoSourcesView(w).rs);
    assert SignExtend8(11) == 11;
    assert SignExtend8(4) == 4;
  }

  /** The branch that handler `h` lowers the instruction at `at` to. */
  function BranchOf(regs: seq<bv32>, pool: PoolItems.PoolItems, mem: seq<bv8>, at: bv32,
                    h: Handler, w: bv32, widen: Widening): Result<CondBranch, Fault>
    requires |regs| == 32
  {
    match Comparison(regs, h, w, widen)
    case Err(e) => Err(e)
    case Ok(condition) =>
      if h.form != Fetched then
        Ok(CondBranch(condition, at + WordOffset(TwoSourcesView(w).rt), at + 4))
      else
        match FetchedImmediate(pool, mem, at)
        case Err(e) => Err(e)
        case Ok(offset) =>
          var (taken, fallthrough) := FetchedTargets(at, offset);
          Ok(CondBranch(condition, taken, fallthrough))
  }

  /** Whether lowering the branch consumes the following immediate: both operands were read. */
  predicate FetchesImmediate(regs: seq<bv32>, h: Handler, w: bv32, widen: Widening)
    requires |regs| == 32
  {
    h.form == Fetched && Comparison(regs, h, w, widen).Ok?
  }

  /**
   * Every form branches to its offset from the branch's own address when the
   * comparison holds, and otherwise to the next instruction: the word after
   * the instruction, or after its immediate for the register form.
   */
  lemma {:induction false} BranchTargets(regs: seq<bv32>, pool: PoolItems.PoolItems, mem: seq<bv8>, at: bv32,
                                         h: Handler, w: bv32, widen: Widening)
    requires |regs| == 32
    requires BranchOf(regs, pool, mem, at, h, w, widen).Ok?
    ensures var b := BranchOf(regs, pool, mem, at, h, w, widen).value;
      var i := TwoSourcesView(w);
      && (h.form == Fetched ==>
            b.taken == at + FetchedImmediate(pool, mem, at).value && b.fallthrough == at + 8)
      && (h.form != Fetched ==>
            b.taken == at + WordOffset(i.rt) && b.fallthrough == at + 4)
  {
  }

  /**
   * The condition is the table's predicate applied to rd and to the rs
   * register (register form), the sign-extended rs byte ("i" form) or the
   * widened rs byte (IB form).
   */
  lemma {:induction false} BranchCondition(regs: seq<bv32>, pool: PoolItems.PoolItems, mem: seq<bv8>, at: bv32,
                                           h: Handler, w: bv32, widen: Widening)
    requires |regs| == 32
    requires BranchOf(regs, pool, mem, at, h, w, widen).Ok?
    ensures var b := BranchOf(regs, pool, mem, at, h, w, widen).value;
      var i := TwoSourcesView(w);
      var Handler(p, form) := h;
      b.condition <==> Holds(p, regs[Index(i.rd)],
                             match form
                             case Fetched => regs[Index(i.rs)]
                             case InInstruction => SignExtend8(i.rs)
                             case Immediate8 => Widen(widen, i.rs))
  {
  }

  /**
   * Lowering fails exactly when rd is not addressable or, for the register
   * form, rs is not addressable or the following immediate is invalid.
   */
  lemma {:induction false} BranchFails(regs: seq<bv32>, pool: PoolItems.PoolItems, mem: seq<bv8>, at: bv32,
                                       h: Handler, w: bv32, widen: Widening)
    requires |regs| == 32
    ensures var i := TwoSourcesView(w);
      var form := h.form;
      BranchOf(regs, pool, mem, at, h, w, widen).Err? <==>
        || !Addressable(i.rd)
        || (form == Fetched && !Addressable(i.rs))
        || (form == Fetched && FetchedImmediate(pool, mem, at).Err?)
  {
  }

  /** `BranchOf` once the comparison is known. */
  lemma {:induction false} BranchOfComparison(regs: seq<bv32>, pool: PoolItems.PoolItems, mem: seq<bv8>, at: bv32,
                                              h: Handler, w: bv32, widen: Widening, condition: bool)
    requires |regs| == 32
    requires Comparison(regs, h, w, widen) == Ok(condition)
    ensures BranchOf(regs, pool, mem, at, h, w, widen)
        == if h.form != Fetched
           then Ok(CondBranch(condition, at + WordOffset(TwoSourcesView(w).rt), at + 4))
           else match FetchedImmediate(pool, mem, at)
             case Err(e) => Err(e)
             case Ok(offset) => Ok(CondBranch(condition, FetchedTargets(at, offset).0, FetchedTargets(at, offset).1))
  {
  }

  /**
   * `create_compare_two_registers_branch` / `create_compare_with_8bit_immediate`
   * for the opcode's handler. Only the current address moves (by one word,
   * when the immediate is fetched); registers and memory are untouched.
   */
  method Branch(m: Machine, h: Handler, w: bv32, widen: Widening) returns (r: Result<CondBranch, Fault>)
    requires m.Valid()
    modifies m`cur
    ensures r == BranchOf(m.regs[..], m.pool, m.mem[..], old(m.cur), h, w, widen)
    ensures m.cur == if FetchesImmediate(m.regs[..], h, w, widen) then old(m.cur) + 4 else old(m.cur)
  {
    var at := m.cur;
    if !FetchesImmediate(m.regs[..], h, w, widen) {
      // no immediate is consumed: the branch is formed from the instruction alone
      return BranchOf(m.regs[..], m.pool, m.mem[..], at, h, w, widen);
    }
    var condition := Comparison(m.regs[..], h, w, widen).value;
    BranchOfComparison(m.regs[..], m.pool, m.mem[..], at, h, w, widen, condition);
    ghost var regs := m.regs[..];
    var offset := m.FetchImmediate();
    assert m.regs[..] == regs;
    if offset.Err? {
      return Err(offset.error);
    }
    var (taken, fallthrough) := FetchedTargets(at, offset.value);
    r := Ok(CondBranch(condition, taken, fallthrough));
  }
}
