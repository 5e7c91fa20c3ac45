/** The target side of the lowering pass: an abstract LLVM function body as
    the translator builds it through the inkwell builder. Blocks are numbered
    in creation order; each phi keeps its block and its list of incoming
    (value, predecessor) pairs; every emitted instruction is logged together
    with the block it was placed in, so the code of one block is the
    sub-sequence of the log tagged with that block. */
module LlvmModel {

  /** A basic block, numbered in creation order across the whole module. */
  type Block = nat

  /** A phi node, numbered in creation order within one function. */
  type PhiId = nat

  const TWO_64: nat := 0x1_0000_0000_0000_0000

  /** A 64-bit integer value of the target function. */
  datatype IntVal =
    | Const(bits: nat)        // `i64_type().const_int(bits, false)`
    | InstResult(id: nat)     // the result of the id-th emitted instruction
    | PhiResult(phi: PhiId)   // the value a phi selects
    | Param(index: nat)       // the index-th formal parameter

  datatype IntBinOp = Add | Sub

  datatype IntPredicate = EQ

  datatype Op =
    | IntBinary(binop: IntBinOp, lhs: IntVal, rhs: IntVal)
    | IntCompare(pred: IntPredicate, lhs: IntVal, rhs: IntVal)
    | Br(dest: Block)
    | CondBr(cond: IntVal, thenDest: Block, elseDest: Block)
    | RetVoid

  /** One log entry: `op` was built while the builder was positioned at the
      end of `block`. */
  datatype Emitted = Emitted(block: Block, op: Op)

  datatype Incoming = Incoming(value: IntVal, from: Block)

  datatype PhiNode = PhiNode(block: Block, incoming: seq<Incoming>)

  /** `phi.add_incoming(&[(value, from)])`: the phi gains one pair at the end
      of its list and no other phi changes. */
  function AddIncoming(phis: seq<PhiNode>, p: PhiId, inc: Incoming): (r: seq<PhiNode>)
    ensures |r| == |phis|
    ensures forall q :: 0 <= q < |r| && q != p ==> r[q] == phis[q]
    ensures p < |phis| ==> r[p].block == phis[p].block && r[p].incoming == phis[p].incoming + [inc]
  {
    if p < |phis| then phis[p := phis[p].(incoming := phis[p].incoming + [inc])] else phis
  }

  // ---------------------------------------------------------------------
  // Meaning of integer values: two's-complement arithmetic modulo 2^64.
  // ---------------------------------------------------------------------

  /** What the function's parameters and phis hold at the point of
      evaluation. */
  datatype Frame = Frame(args: seq<nat>, phis: map<PhiId, nat>)

  predicate RefsBelow(v: IntVal, n: nat) {
    v.InstResult? ==> v.id < n
  }

  predicate OpRefsBelow(op: Op, n: nat) {
    match op
    case IntBinary(_, l, r) => RefsBelow(l, n) && RefsBelow(r, n)
    case IntCompare(_, l, r) => RefsBelow(l, n) && RefsBelow(r, n)
    case CondBr(c, _, _) => RefsBelow(c, n)
    case _ => true
  }

  /** Every instruction only uses results of instructions emitted before it. */
  predicate CodeScoped(code: seq<Emitted>) {
    forall i :: 0 <= i < |code| ==> OpRefsBelow(code[i].op, i)
  }

  function Rank(v: IntVal): nat {
    if v.InstResult? then v.id + 1 else 0
  }

  /** The 64-bit value `v` denotes; an instruction without a value (a
      terminator) denotes 0, a comparison denotes 1 or 0. */
  function Eval(code: seq<Emitted>, fr: Frame, v: IntVal): (r: nat)
    requires CodeScoped(code) && RefsBelow(v, |code|)
    ensures r < TWO_64
    decreases Rank(v)
  {
    match v
    case Const(bits) => bits % TWO_64
    case Param(i) => if i < |fr.args| then fr.args[i] % TWO_64 else 0
    case PhiResult(p) => if p in fr.phis then fr.phis[p] % TWO_64 else 0
    case InstResult(id) =>
      match code[id].op
      case IntBinary(Add, l, r) => (Eval(code, fr, l) + Eval(code, fr, r)) % TWO_64
      case IntBinary(Sub, l, r) => (Eval(code, fr, l) - Eval(code, fr, r)) % TWO_64
      case IntCompare(EQ, l, r) => if Eval(code, fr, l) == Eval(code, fr, r) then 1 else 0
      case _ => 0
  }

  /** Appending to the log never changes what an existing value denotes. */
  lemma {:induction false} EvalAppend(code: seq<Emitted>, more: seq<Emitted>, fr: Frame, v: IntVal)
    requires CodeScoped(code + more) && RefsBelow(v, |code|)
    ensures CodeScoped(code)
    ensures Eval(code + more, fr, v) == Eval(code, fr, v)
    decreases Rank(v)
  {
    assert forall i :: 0 <= i < |code| ==> (code + more)[i] == code[i];
    if v.InstResult? {
      var op := code[v.id].op;
      assert (code + more)[v.id].op == op;
      match op
      case IntBinary(_, l, r) =>
        EvalAppend(code, more, fr, l);
        EvalAppend(code, more, fr, r);
      case IntCompare(_, l, r) =>
        EvalAppend(code, more, fr, l);
        EvalAppend(code, more, fr, r);
      case _ =>
    }
  }
}
