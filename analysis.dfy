/**
 * The branch classifier of the program analysis, and the queue handling of
 * its `analyze` driver: the queue is emptied, seeded with the entry offset,
 * and each popped offset is taken as the start of a code block only when it
 * falls inside the text section.
 */
module Analysis {
  import opened Wrappers
  import opened Instructions
  import ControlFlow

  /** `is_non_conditional_direct_branch`: a jump or call to a known address. */
  predicate IsNonConditionalDirectBranch(op: Opcode) {
    match op
    case JPl => true
    case CALLl => true
    case _ => false
  }

  /** `is_direct_branch`: the 30 compare-branches and the two unconditional ones. */
  predicate IsDirectBranch(op: Opcode) {
    match op
    case BEQ => true   case BEQI => true   case BEQIB => true
    case BNE => true   case BNEI => true   case BNEIB => true
    case BLT => true   case BLTI => true   case BLTIB => true
    case BLTU => true  case BLTUI => true  case BLTUIB => true
    case BLE => true   case BLEI => true   case BLEIB => true
    case BLEU => true  case BLEUI => true  case BLEUIB => true
    case BGT => true   case BGTI => true   case BGTIB => true
    case BGTU => true  case BGTUI => true  case BGTUIB => true
    case BGE => true   case BGEI => true   case BGEIB => true
    case BGEU => true  case BGEUI => true  case BGEUIB => true
    case JPl => true
    case CALLl => true
    case _ => false
  }

  /** `is_indirect_branch`: a jump, call or return through a register. */
  predicate IsIndirectBranch(op: Opcode) {
    match op
    case JPr => true
    case CALLr => true
    case RET => true
    case _ => false
  }

  /** Every unconditional direct branch is a direct branch. */
  lemma {:induction false} NonConditionalIsDirect(op: Opcode)
    ensures IsNonConditionalDirectBranch(op) ==> IsDirectBranch(op)
  {
  }

  /**
   * The direct branches are exactly the opcodes with a conditional-branch
   * handler in the translator, plus JPl and CALLl, which are the unconditional
   * ones; no conditional branch is unconditional.
   */
  lemma {:induction false} DirectIsConditionalOrUnconditional(op: Opcode)
    ensures IsDirectBranch(op) <==> ControlFlow.BranchKind(op).Some? || IsNonConditionalDirectBranch(op)
    ensures ControlFlow.BranchKind(op).Some? ==> !IsNonConditionalDirectBranch(op)
  {
  }

  /** No indirect branch is direct. */
  lemma {:induction false} IndirectIsNotDirect(op: Opcode)
    ensures IsIndirectBranch(op) ==> !IsDirectBranch(op)
  {
  }

  /** A code block found by the analysis. */
  datatype CodeBlock = CodeBlock(addr: bv32, length: nat, routine: bool)

  /**
   * The analysis state: the text section `[textBase, textBase + textSize)`
   * and the queue of offsets still to be looked at.
   */
  class ProgramAnalysis {
    const textBase: nat
    const textSize: nat
    var queue: seq<bv32>

    constructor (textBase: nat, textSize: nat)
      ensures this.textBase == textBase && this.textSize == textSize && queue == []
    {
      this.textBase := textBase;
      this.textSize := textSize;
      this.queue := [];
    }

    /** An address inside the text section. */
    predicate InText(addr: nat)
      reads this
    {
      textBase <= addr < textBase + textSize
    }

    /** The address a queued offset stands for. */
    function Address(offset: bv32): (addr: nat)
      reads this
      ensures addr >= textBase
    {
      textBase + offset as nat
    }

    /** The block starts the queue `q` leads to, in queue order: its in-text addresses. */
    function BlockStarts(q: seq<bv32>): (starts: seq<nat>)
      reads this
      ensures |starts| <= |q|
      ensures forall a | a in starts :: InText(a)
      ensures forall a | a in starts :: exists j | 0 <= j < |q| :: Address(q[j]) == a
      ensures forall j | 0 <= j < |q| && InText(Address(q[j])) :: Address(q[j]) in starts
    {
      if q == [] then []
      else if InText(Address(q[0])) then [Address(q[0])] + BlockStarts(q[1..])
      else BlockStarts(q[1..])
    }

    /**
     * The starts of a queue are those of its parts, in order, and a single
     * offset contributes its address exactly when that lies in the text: the
     * starts are the queue's in-text addresses in queue order.
     */
    lemma {:induction false} BlockStartsInQueueOrder(q: seq<bv32>, r: seq<bv32>)
      ensures BlockStarts(q + r) == BlockStarts(q) + BlockStarts(r)
      ensures |r| == 1 ==> BlockStarts(r) == if InText(Address(r[0])) then [Address(r[0])] else []
    {
      if q != [] {
        assert (q + r)[1..] == q[1..] + r;
        BlockStartsInQueueOrder(q[1..], r);
      } else {
        assert q + r == r;
      }
      if |r| == 1 {
        assert r[1..] == [];
      }
    }

    /**
     * Pops the front offset; yields its address when it lies in the text
     * section, and nothing (the `continue`) otherwise.
     */
    method PopBlockStart() returns (start: Option<nat>)
      requires queue != []
      modifies this`queue
      ensures queue == old(queue[1..])
      ensures start == if InText(Address(old(queue[0]))) then Some(Address(old(queue[0]))) else None
    {
      var addr := textBase + queue[0] as nat;
      queue := queue[1..];
      if addr < textBase || addr >= textBase + textSize {
        return None;
      }
      start := Some(addr);
    }

    /**
     * `analyze`: empties the queue, seeds it with the entry offset, and works
     * the queue off, collecting the block starts the block scan would begin
     * at. It finds no code blocks: the result is always empty.
     */
    method Analyze(entry: bv32) returns (results: seq<CodeBlock>, starts: seq<nat>)
      modifies this`queue
      ensures results == []
      ensures queue == []
      ensures starts == BlockStarts([entry])
      ensures starts == if InText(Address(entry)) then [Address(entry)] else []
    {
      results := [];
      while queue != []
        decreases |queue|
      {
        queue := queue[1..];
      }
      queue := queue + [entry];
      assert queue == [entry];
      starts := [];
      while queue != []
        invariant queue == [] || queue == [entry]
        invariant starts + BlockStarts(queue) == BlockStarts([entry])
        decreases |queue|
      {
        var start := PopBlockStart();
        if start.Some? {
          starts := starts + [start.value];
        }
      }
    }
  }

  /**
   * The lower bound of the window test never fails: a queued offset is
   * unsigned, so its address is never below the text base; only offsets at
   * or past `textSize` are skipped.
   */
  lemma {:induction false} OnlyTheUpperBoundSkips(a: ProgramAnalysis, offset: bv32)
    ensures a.InText(a.Address(offset)) <==> offset as nat < a.textSize
  {
  }
}
