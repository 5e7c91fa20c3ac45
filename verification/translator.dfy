/** The lowering pass of `src/translator.rs`: one Cretonne function in
    block-parameter SSA form becomes an LLVM function in phi-node SSA form.

    The translator is a state transformer. `State` carries the block memo
    (`TranslatorData::ebb_to_entry`), the value environment
    (`FunctionContext::values`), the builder's insertion block and the
    target function under construction. Every `panic!`, failed `unwrap` or
    failed index in the source is an `Err`; every `println!` that skips an
    instruction leaves the state as it was. */
module Translator {
  import opened CtonIr
  import opened LlvmModel

  /** The ways the source aborts a translation. */
  datatype Error =
    | UnboundValue(value: Value)        // `fnctx.values[&v]` on a missing key
    | ExpectedPhi(value: Value)         // `into_phi_value` on a `TV::Int`
    | UnknownOp(opcode: Opcode)         // panic in `translate_binary` / `translate_unary_imm`
    | MissingResult                     // `inst_results(inst)[0]` of an instruction without results
    | MissingCondition                  // `args[0]` of a `brz` without arguments
    | UnknownEbb(ebb: Ebb)              // `dfg.ebb_params` of a block the function lacks
    | NoEntryEbb                        // `layout.entry_block().unwrap()` of an empty layout
    | NoEntryBlock                      // `get_entry_basic_block().unwrap()` of a function without blocks
    | MissingFunctionParam(index: nat)  // `get_nth_param(i).unwrap()` beyond the signature
    | UnknownExternalName               // panic in `create_func` on a non-`TestCase` name
    | NameOutOfBounds                   // `ascii[0..length]` beyond the byte array

  datatype Result<T> = Ok(value: T) | Err(error: Error) {
    predicate IsFailure() {
      Err?
    }

    function PropagateFailure<U>(): Result<U>
      requires Err?
    {
      Err(error)
    }

    function Extract(): T
      requires Ok?
    {
      value
    }
  }

  /** What a source value is bound to: a plain integer, or a phi that still
      collects incoming edges (`enum TV`). */
  datatype TV = Int(iv: IntVal) | Phi(phi: PhiId) {

    /** `into_int_value`: total; an integer binding is used as it is and a
        phi is used through the value it selects. */
    function IntoIntValue(): (r: IntVal)
      ensures Int? ==> r == iv
      ensures Phi? ==> r == PhiResult(phi)
    {
      match this
      case Int(x) => x
      case Phi(p) => PhiResult(p)
    }

    /** `into_phi_value`: only a phi binding can receive incoming edges. */
    function IntoPhiValue(v: Value): (r: Result<PhiId>)
      ensures r.Ok? <==> Phi?
      ensures r.Ok? ==> this == Phi(r.value) && IntoIntValue() == PhiResult(r.value)
      ensures r.Err? ==> r.error == ExpectedPhi(v)
    {
      match this
      case Phi(p) => Ok(p)
      case Int(_) => Err(ExpectedPhi(v))
    }
  }

  /** The translator's working state for one function. The blocks of the
      function being built are `base .. next - 1`, in creation order. */
  datatype State = State(
    memo: map<Ebb, Block>,
    values: map<Value, TV>,
    base: Block,
    next: Block,
    cur: Block,
    phis: seq<PhiNode>,
    code: seq<Emitted>)

  /** The state at the start of a function: an empty environment and no
      blocks yet; `memo` is whatever the translator holds at that point. */
  function Start(memo: map<Ebb, Block>, next: Block): State {
    State(memo, map[], next, next, next, [], [])
  }

  /** `func.append_basic_block("")`. */
  function AppendBlock(s: State): (State, Block) {
    (s.(next := s.next + 1), s.next)
  }

  /** Builds `op` at the end of the insertion block; the instruction's
      result is named by its position in the log. */
  function Emit(s: State, op: Op): (State, IntVal) {
    (s.(code := s.code + [Emitted(s.cur, op)]), InstResult(|s.code|))
  }

  // ---------------------------------------------------------------------
  // Block memo (`TranslatorData::entry_bb_for_ebb`)
  // ---------------------------------------------------------------------

  /** The target block of `ebb`: created and recorded on the first request,
      returned from the memo on every later one. */
  function EntryBlockFor(s: State, ebb: Ebb): (r: (State, Block))
    ensures ebb in r.0.memo && r.0.memo[ebb] == r.1
    ensures r.0.memo.Keys == s.memo.Keys + {ebb}
    ensures forall e :: e in s.memo ==> r.0.memo[e] == s.memo[e]
    ensures ebb in s.memo ==> r.0 == s
    ensures ebb !in s.memo ==> r.1 == s.next && r.0.next == s.next + 1
    ensures r.0 == s.(memo := r.0.memo, next := r.0.next)
  {
    if ebb in s.memo then (s, s.memo[ebb])
    else
      var (s1, bb) := AppendBlock(s);
      (s1.(memo := s.memo[ebb := bb]), bb)
  }

  // ---------------------------------------------------------------------
  // Environment lookups (`fnctx.values[&v]` followed by `into_*_value`)
  // ---------------------------------------------------------------------

  function LookupInt(values: map<Value, TV>, v: Value): (r: Result<IntVal>)
    ensures r.Ok? <==> v in values
    ensures r.Ok? ==> r.value == values[v].IntoIntValue()
    ensures r.Err? ==> r.error == UnboundValue(v)
  {
    if v in values then Ok(values[v].IntoIntValue()) else Err(UnboundValue(v))
  }

  function LookupPhi(values: map<Value, TV>, v: Value): (r: Result<PhiId>)
    ensures r.Ok? <==> v in values && values[v].Phi?
    ensures r.Ok? ==> values[v] == Phi(r.value)
    ensures r.Err? ==> r.error == (if v in values then ExpectedPhi(v) else UnboundValue(v))
  {
    if v in values then values[v].IntoPhiValue(v) else Err(UnboundValue(v))
  }

  function FirstResult(inst: Inst): Result<Value> {
    if |inst.results| == 0 then Err(MissingResult) else Ok(inst.results[0])
  }

  function EbbParamsOf(f: Function, ebb: Ebb): Result<seq<Value>> {
    if ebb in f.ebbParams then Ok(f.ebbParams[ebb]) else Err(UnknownEbb(ebb))
  }

  // ---------------------------------------------------------------------
  // Pass 1: one phi per block parameter (`translate_ebb_params`)
  // ---------------------------------------------------------------------

  /** `v` is bound to a phi created for one of the occurrences of `v` in
      `params`, the phis being numbered from `first`. */
  predicate BoundToOwnPhi(values: map<Value, TV>, params: seq<Value>, first: PhiId, v: Value) {
    && v in values
    && values[v].Phi?
    && first <= values[v].phi < first + |params|
    && params[values[v].phi - first] == v
  }

  /** Binds `params[i]` to the phi `first + i`, in order, so that a value
      listed twice ends up bound to the phi of its last occurrence. */
  function BindParams(values: map<Value, TV>, params: seq<Value>, first: PhiId): (r: map<Value, TV>)
    ensures r.Keys == values.Keys + set v | v in params
    ensures forall v :: v in values && v !in params ==> r[v] == values[v]
    ensures forall v :: v in params ==> BoundToOwnPhi(r, params, first, v)
    decreases |params|
  {
    if |params| == 0 then values
    else
      var tail := params[1..];
      var r := BindParams(values[params[0] := Phi(first)], tail, first + 1);
      assert params == [params[0]] + tail;
      forall v | v in params
        ensures BoundToOwnPhi(r, params, first, v)
      {
        if v in tail {
          assert BoundToOwnPhi(r, tail, first + 1, v);
          assert params[r[v].phi - first] == tail[r[v].phi - first - 1];
        }
      }
      r
  }

  /** Positions the builder at the block of `ebb` and creates one empty phi
      there per parameter of `ebb`, binding each parameter to its phi. */
  function TranslateEbbParams(f: Function, s: State, ebb: Ebb): (r: Result<State>)
    ensures r.Ok? <==> ebb in f.ebbParams
    ensures r.Ok? ==>
              var params := f.ebbParams[ebb];
              && r.value.memo == EntryBlockFor(s, ebb).0.memo
              && r.value.next == EntryBlockFor(s, ebb).0.next
              && r.value.cur == r.value.memo[ebb]
              && |r.value.phis| == |s.phis| + |params|
              && r.value.phis[..|s.phis|] == s.phis
              && (forall k :: |s.phis| <= k < |r.value.phis| ==> r.value.phis[k] == PhiNode(r.value.cur, []))
              && (forall v :: v in params ==> BoundToOwnPhi(r.value.values, params, |s.phis|, v))
              && (forall v :: v in s.values && v !in params ==> v in r.value.values && r.value.values[v] == s.values[v])
              && r.value.values.Keys == s.values.Keys + set v | v in params
              && r.value.code == s.code
              && r.value.base == s.base
  {
    var (s1, bb) := EntryBlockFor(s, ebb);
    var params :- EbbParamsOf(f, ebb);
    Ok(s1.(cur := bb,
           phis := s1.phis + seq(|params|, _ => PhiNode(bb, [])),
           values := BindParams(s1.values, params, |s1.phis|)))
  }

  /** `v` is bound to a phi, ready to receive incoming edges. */
  predicate PhiBound(values: map<Value, TV>, v: Value) {
    v in values && values[v].Phi?
  }

  /** The first loop of `translate_function`: parameters of every block in
      layout order. */
  function Pass1(f: Function, s: State, layout: seq<LayoutEbb>): (r: Result<State>)
    ensures r.Ok? <==> forall i :: 0 <= i < |layout| ==> layout[i].ebb in f.ebbParams
    ensures r.Ok? ==> forall e :: e in s.memo ==> e in r.value.memo && r.value.memo[e] == s.memo[e]
    ensures r.Ok? ==> r.value.code == s.code && r.value.base == s.base
    decreases |layout|
  {
    if |layout| == 0 then Ok(s)
    else
      var s1 :- TranslateEbbParams(f, s, layout[0].ebb);
      var r :- Pass1(f, s1, layout[1..]);
      assert forall i :: 1 <= i < |layout| ==> layout[i] == layout[1..][i - 1];
      Ok(r)
  }

  /** After pass 1 every block of the layout has a target block and every
      parameter of every such block is bound to a phi. */
  lemma {:induction false} Pass1Binds(f: Function, s: State, layout: seq<LayoutEbb>)
    requires Pass1(f, s, layout).Ok?
    ensures var r := Pass1(f, s, layout).value;
            && (forall i :: 0 <= i < |layout| ==> layout[i].ebb in r.memo)
            && (forall i, v :: 0 <= i < |layout| && v in f.ebbParams[layout[i].ebb] ==> PhiBound(r.values, v))
    decreases |layout|
  {
    if |layout| > 0 {
      var s1 := TranslateEbbParams(f, s, layout[0].ebb).value;
      var r := Pass1(f, s1, layout[1..]).value;
      Pass1Binds(f, s1, layout[1..]);
      Pass1KeepsPhis(f, s1, layout[1..]);
      assert forall i :: 1 <= i < |layout| ==> layout[i] == layout[1..][i - 1];
      forall v | v in f.ebbParams[layout[0].ebb]
        ensures PhiBound(s1.values, v)
      {
        assert BoundToOwnPhi(s1.values, f.ebbParams[layout[0].ebb], |s.phis|, v);
      }
    }
  }

  /** Pass 1 never unbinds a phi binding made before it. */
  lemma {:induction false} Pass1KeepsPhis(f: Function, s: State, layout: seq<LayoutEbb>)
    requires Pass1(f, s, layout).Ok?
    ensures forall v :: PhiBound(s.values, v) ==> PhiBound(Pass1(f, s, layout).value.values, v)
    decreases |layout|
  {
    if |layout| > 0 {
      var s1 := TranslateEbbParams(f, s, layout[0].ebb).value;
      Pass1KeepsPhis(f, s1, layout[1..]);
      assert forall v :: PhiBound(s.values, v) ==> PhiBound(s1.values, v);
    }
  }

  // ---------------------------------------------------------------------
  // Edge stitching (the `zip` loops of `translate_branch` / `translate_jump`)
  // ---------------------------------------------------------------------

  /** Every zipped pair can be stitched: the destination parameter is bound
      to a phi and the argument is bound at all. `zip` stops at the shorter
      list, so pairs beyond it are never looked at. */
  predicate CanStitch(values: map<Value, TV>, args: seq<Value>, params: seq<Value>) {
    forall k :: 0 <= k < |args| && k < |params| ==>
      params[k] in values && values[params[k]].Phi? && args[k] in values
  }

  /** For each zipped pair (argument, destination parameter), adds the
      argument's value to the parameter's phi as coming from `from`. */
  function Stitch(values: map<Value, TV>, phis: seq<PhiNode>, args: seq<Value>, params: seq<Value>, from: Block)
    : (r: Result<seq<PhiNode>>)
    ensures r.Ok? <==> CanStitch(values, args, params)
    ensures r.Ok? ==> |r.value| == |phis|
    ensures r.Ok? ==> forall q :: 0 <= q < |phis| ==>
              && r.value[q].block == phis[q].block
              && phis[q].incoming <= r.value[q].incoming
              && (forall j :: |phis[q].incoming| <= j < |r.value[q].incoming| ==> r.value[q].incoming[j].from == from)
    decreases |args|
  {
    if |args| == 0 || |params| == 0 then Ok(phis)
    else
      var p :- LookupPhi(values, params[0]);
      var v :- LookupInt(values, args[0]);
      var r :- Stitch(values, AddIncoming(phis, p, Incoming(v, from)), args[1..], params[1..], from);
      assert CanStitch(values, args, params) by {
        forall k | 0 <= k < |args| && k < |params|
          ensures params[k] in values && values[params[k]].Phi? && args[k] in values
        {
          if k > 0 {
            assert args[1..][k - 1] == args[k] && params[1..][k - 1] == params[k];
          }
        }
      }
      Ok(r)
  }

  // ---------------------------------------------------------------------
  // Pass 2: instruction translation
  // ---------------------------------------------------------------------

  /** The signed view of a 64-bit pattern: the inverse of `ToU64`. */
  function ToI64(u: nat): (r: i64)
    requires u < TWO_64
    ensures (r as int) % TWO_64 == u
  {
    if u < TWO_64 / 2 then u as i64 else (u - TWO_64) as i64
  }

  /** `imm_conv as u64`: the two's-complement reinterpretation of a signed
      64-bit immediate. */
  function ToU64(x: i64): (r: nat)
    ensures r < TWO_64
    ensures r == (x as int) % TWO_64
  {
    if x < 0 then x as int + TWO_64 else x as int
  }

  /** Shared body of the `Iadd` and `Isub` arms of `translate_binary`. */
  function IntArith(s: State, inst: Inst, binop: IntBinOp, a0: Value, a1: Value): Result<State> {
    var lhs :- LookupInt(s.values, a0);
    var rhs :- LookupInt(s.values, a1);
    var (s1, v) := Emit(s, IntBinary(binop, lhs, rhs));
    var res :- FirstResult(inst);
    Ok(s1.(values := s1.values[res := Int(v)]))
  }

  function TranslateBinary(s: State, inst: Inst, opcode: Opcode, a0: Value, a1: Value): (r: Result<State>)
    ensures r.Ok? <==> (opcode == Iadd || opcode == Isub) && a0 in s.values && a1 in s.values && |inst.results| > 0
    ensures r.Ok? ==>
              var binop := if opcode == Iadd then Add else Sub;
              var lhs := s.values[a0].IntoIntValue();
              var rhs := s.values[a1].IntoIntValue();
              && r.value.code == s.code + [Emitted(s.cur, IntBinary(binop, lhs, rhs))]
              && r.value.values == s.values[inst.results[0] := Int(InstResult(|s.code|))]
              && r.value == s.(code := r.value.code, values := r.value.values)
    ensures opcode != Iadd && opcode != Isub ==> r == Err(UnknownOp(opcode))
  {
    match opcode
    case Iadd => IntArith(s, inst, Add, a0, a1)
    case Isub => IntArith(s, inst, Sub, a0, a1)
    case _ => Err(UnknownOp(opcode))
  }

  function TranslateUnaryImm(s: State, inst: Inst, opcode: Opcode, imm: i64): (r: Result<State>)
    ensures r.Ok? <==> opcode == Iconst && |inst.results| > 0
    ensures r.Ok? ==> r.value == s.(values := s.values[inst.results[0] := Int(Const(ToU64(imm)))])
    ensures opcode != Iconst ==> r == Err(UnknownOp(opcode))
  {
    match opcode
    case Iconst =>
      var res :- FirstResult(inst);
      Ok(s.(values := s.values[res := Int(Const(ToU64(imm)))]))
    case _ => Err(UnknownOp(opcode))
  }

  /** `brz`: compares `args[0]` with zero, branches to the destination's
      block when equal and to a fresh fall-through block otherwise, stitches
      `args[1..]` into the destination's phis and continues in the
      fall-through block. Any other branch opcode is skipped. */
  function TranslateBranch(f: Function, s: State, opcode: Opcode, dst: Ebb, args: seq<Value>): (r: Result<State>)
    ensures opcode != Brz ==> r == Ok(s)
    ensures opcode == Brz ==>
              (r.Ok? <==> |args| > 0 && args[0] in s.values && dst in f.ebbParams
                          && CanStitch(s.values, args[1..], f.ebbParams[dst]))
    ensures opcode == Brz && r.Ok? ==>
              var (s1, dstBb) := EntryBlockFor(s, dst);
              && r.value.memo == s1.memo
              && r.value.next == s1.next + 1
              && r.value.cur == s1.next
              && r.value.code == s.code + [
                   Emitted(s.cur, IntCompare(EQ, s.values[args[0]].IntoIntValue(), Const(0))),
                   Emitted(s.cur, CondBr(InstResult(|s.code|), dstBb, r.value.cur))]
              && r.value.phis == Stitch(s.values, s.phis, args[1..], f.ebbParams[dst], s.cur).value
              && r.value.values == s.values
              && r.value.base == s.base
  {
    match opcode
    case Brz =>
      var (s1, dstBb) := EntryBlockFor(s, dst);
      var (s2, newBb) := AppendBlock(s1);
      var currBb := s2.cur;
      if |args| == 0 then Err(MissingCondition)
      else
        var lhs :- LookupInt(s2.values, args[0]);
        var (s3, cmp) := Emit(s2, IntCompare(EQ, lhs, Const(0)));
        var (s4, _) := Emit(s3, CondBr(cmp, dstBb, newBb));
        var dstParams :- EbbParamsOf(f, dst);
        var phis :- Stitch(s4.values, s4.phis, args[1..], dstParams, currBb);
        Ok(s4.(phis := phis, cur := newBb))
    case _ => Ok(s)
  }

  /** `jump`: an unconditional branch to the destination's block, then all
      arguments stitched into the destination's phis. Any other jump opcode
      is skipped. */
  function TranslateJump(f: Function, s: State, opcode: Opcode, dst: Ebb, args: seq<Value>): (r: Result<State>)
    ensures opcode != Jump ==> r == Ok(s)
    ensures opcode == Jump ==>
              (r.Ok? <==> dst in f.ebbParams && CanStitch(s.values, args, f.ebbParams[dst]))
    ensures opcode == Jump && r.Ok? ==>
              var (s1, dstBb) := EntryBlockFor(s, dst);
              && r.value.memo == s1.memo
              && r.value.next == s1.next
              && r.value.cur == s.cur
              && r.value.code == s.code + [Emitted(s.cur, Br(dstBb))]
              && r.value.phis == Stitch(s.values, s.phis, args, f.ebbParams[dst], s.cur).value
              && r.value.values == s.values
              && r.value.base == s.base
  {
    match opcode
    case Jump =>
      var (s1, dstBb) := EntryBlockFor(s, dst);
      var currBb := s1.cur;
      var (s2, _) := Emit(s1, Br(dstBb));
      var dstParams :- EbbParamsOf(f, dst);
      var phis :- Stitch(s2.values, s2.phis, args, dstParams, currBb);
      Ok(s2.(phis := phis))
    case _ => Ok(s)
  }

  /** `return` builds `ret void`; any other multi-ary opcode is skipped. */
  function TranslateMultiAry(s: State, opcode: Opcode): (r: State)
    ensures opcode == Return ==> r == s.(code := s.code + [Emitted(s.cur, RetVoid)])
    ensures opcode != Return ==> r == s
  {
    match opcode
    case Return => Emit(s, RetVoid).0
    case _ => s
  }

  /** Dispatch on the instruction format; a format the translator does not
      know is skipped. */
  function TranslateInstruction(f: Function, s: State, inst: Inst): (r: Result<State>)
    ensures r.Ok? ==> Grows(s, r.value)
    ensures r.Ok? && |r.value.code| > |s.code| ==> r.value.code[|s.code|].block == s.cur
    ensures r.Ok? && |r.value.code| == |s.code| ==> r.value.cur == s.cur
  {
    match inst.data
    case BinaryData(opcode, a0, a1) => TranslateBinary(s, inst, opcode, a0, a1)
    case BranchData(opcode, dst, args) => TranslateBranch(f, s, opcode, dst, args)
    case JumpData(opcode, dst, args) => TranslateJump(f, s, opcode, dst, args)
    case UnaryImmData(opcode, imm) => TranslateUnaryImm(s, inst, opcode, imm)
    case MultiAryData(opcode, _) => Ok(TranslateMultiAry(s, opcode))
    case OtherData(_) => Ok(s)
  }

  /** Facts every step of pass 2 keeps: the memo only grows, blocks are
      only added, the log and every phi's incoming list only grow at the
      end, no phi is created, and no binding disappears. */
  ghost predicate Grows(s: State, r: State) {
    && (forall e :: e in s.memo ==> e in r.memo && r.memo[e] == s.memo[e])
    && s.next <= r.next
    && r.base == s.base
    && s.code <= r.code
    && |r.phis| == |s.phis|
    && (forall q :: 0 <= q < |s.phis| ==> r.phis[q].block == s.phis[q].block && s.phis[q].incoming <= r.phis[q].incoming)
    && s.values.Keys <= r.values.Keys
  }

  /** A block's instructions in order. The first entry they emit is built
      in the block the builder starts in; if they emit nothing, the builder
      stays there. */
  function TranslateInsts(f: Function, s: State, insts: seq<Inst>): (r: Result<State>)
    ensures r.Ok? ==> Grows(s, r.value)
    ensures r.Ok? && |r.value.code| > |s.code| ==> r.value.code[|s.code|].block == s.cur
    ensures r.Ok? && |r.value.code| == |s.code| ==> r.value.cur == s.cur
    decreases |insts|
  {
    if |insts| == 0 then Ok(s)
    else
      var s1 :- TranslateInstruction(f, s, insts[0]);
      TranslateInsts(f, s1, insts[1..])
  }

  /** `translate_ebb`: position at the block's target block, then translate
      its instructions in order. The first entry emitted for the block lands
      in the block memoized for it. */
  function TranslateEbb(f: Function, s: State, le: LayoutEbb): (r: Result<State>)
    ensures r.Ok? ==> Grows(s, r.value) && le.ebb in r.value.memo
    ensures r.Ok? && le.ebb in s.memo ==> r.value.memo[le.ebb] == s.memo[le.ebb]
    ensures r.Ok? && |r.value.code| > |s.code| ==> r.value.code[|s.code|].block == r.value.memo[le.ebb]
    ensures r.Ok? && |r.value.code| == |s.code| ==> r.value.cur == r.value.memo[le.ebb]
  {
    var (s1, bb) := EntryBlockFor(s, le.ebb);
    TranslateInsts(f, s1.(cur := bb), le.insts)
  }

  /** The second loop of `translate_function`. */
  function Pass2(f: Function, s: State, layout: seq<LayoutEbb>): (r: Result<State>)
    ensures r.Ok? ==> Grows(s, r.value)
    decreases |layout|
  {
    if |layout| == 0 then Ok(s)
    else
      var s1 :- TranslateEbb(f, s, layout[0]);
      Pass2(f, s1, layout[1..])
  }

  // ---------------------------------------------------------------------
  // Entry binding post-pass
  // ---------------------------------------------------------------------

  /** The i-th formal parameter flows into the phi of the i-th entry-block
      parameter, from the synthetic block `from`. */
  function BindArgs(values: map<Value, TV>, phis: seq<PhiNode>, params: seq<Value>, arity: nat, from: Block, i: nat)
    : (r: Result<seq<PhiNode>>)
    requires i <= |params|
    ensures r.Ok? <==> (i == |params| || |params| <= arity)
                       && forall k :: i <= k < |params| ==> params[k] in values && values[params[k]].Phi?
    ensures r.Ok? ==> |r.value| == |phis|
    decreases |params| - i
  {
    if i == |params| then Ok(phis)
    else
      var p :- LookupPhi(values, params[i]);
      if i >= arity then Err(MissingFunctionParam(i))
      else BindArgs(values, AddIncoming(phis, p, Incoming(Param(i), from)), params, arity, from, i + 1)
  }

  /** Prepends a block that jumps to the function's first block and feeds
      the formal parameters into the entry block's phis through it. Returns
      the final state and the new block. */
  function BindEntry(f: Function, s: State, entryEbb: Ebb): (r: Result<(State, Block)>)
    ensures r.Ok? <==> s.base < s.next && entryEbb in f.ebbParams
                       && |f.ebbParams[entryEbb]| <= |f.signature|
                       && forall k :: 0 <= k < |f.ebbParams[entryEbb]| ==>
                            f.ebbParams[entryEbb][k] in s.values && s.values[f.ebbParams[entryEbb][k]].Phi?
    ensures r.Ok? ==>
              && r.value.1 == s.next
              && r.value.0.next == s.next + 1
              && r.value.0.code == s.code + [Emitted(r.value.1, Br(s.base))]
              && |r.value.0.phis| == |s.phis|
              && r.value.0 == s.(next := r.value.0.next, cur := r.value.1, code := r.value.0.code, phis := r.value.0.phis)
  {
    if s.next <= s.base then Err(NoEntryBlock)
    else
      var entryBb := s.base;
      var (s1, newBb) := AppendBlock(s);
      var (s2, _) := Emit(s1.(cur := newBb), Br(entryBb));
      var params :- EbbParamsOf(f, entryEbb);
      var bound := BindArgs(s2.values, s2.phis, params, |f.signature|, newBb, 0);
      if bound.Err? then Err(bound.error)
      else
        assert s2.values == s.values;
        Ok((s2.(phis := bound.value), newBb))
  }

  // ---------------------------------------------------------------------
  // Whole functions
  // ---------------------------------------------------------------------

  /** Name and arity of the LLVM function (`create_func`); every parameter
      is lowered to i64. */
  datatype Signature = Signature(name: seq<byte>, arity: nat)

  function CreateFunc(f: Function): (r: Result<Signature>)
    ensures r.Ok? <==> f.name.TestCase? && f.name.length as int <= |f.name.ascii|
    ensures r.Ok? ==> |r.value.name| == f.name.length as int && r.value.name <= f.name.ascii
    ensures r.Ok? ==> r.value.arity == |f.signature|
    ensures r.Err? ==> r.error == (if f.name.TestCase? then NameOutOfBounds else UnknownExternalName)
  {
    match f.name
    case TestCase(length, ascii) =>
      if length as int <= |ascii| then Ok(Signature(ascii[..length], |f.signature|)) else Err(NameOutOfBounds)
    case User(_, _) => Err(UnknownExternalName)
  }

  /** The finished LLVM function: its blocks are `firstBlock .. endBlock - 1`
      and `entry` is the block control enters first. */
  datatype TargetFunction = TargetFunction(
    name: seq<byte>,
    arity: nat,
    entry: Block,
    firstBlock: Block,
    endBlock: Block,
    phis: seq<PhiNode>,
    code: seq<Emitted>)

  /** One function translated, and the memo and block counter the
      translator holds afterwards. */
  datatype Translated = Translated(func: TargetFunction, memo: map<Ebb, Block>, next: Block)

  /** `translate_function`, starting from the memo the translator holds. */
  function TranslateFunctionFrom(memo: map<Ebb, Block>, next: Block, f: Function): (r: Result<Translated>)
    ensures r.Ok? ==> |f.layout| > 0 && r.value.func.firstBlock == next < r.value.func.endBlock == r.value.next
    ensures r.Ok? ==> r.value.func.entry == r.value.next - 1
    ensures r.Ok? ==> forall e :: e in memo ==> e in r.value.memo && r.value.memo[e] == memo[e]
    ensures r.Ok? ==> forall j :: 0 <= j < |f.layout| ==> f.layout[j].ebb in r.value.memo
  {
    var sig :- CreateFunc(f);
    var s1 :- Pass1(f, Start(memo, next), f.layout);
    Pass1Binds(f, Start(memo, next), f.layout);
    if |f.layout| == 0 then Err(NoEntryEbb)
    else
      var s2 :- Pass2(f, s1, f.layout);
      var b :- BindEntry(f, s2, f.layout[0].ebb);
      var (s3, entry) := b;
      Ok(Translated(TargetFunction(sig.name, sig.arity, entry, s3.base, s3.next, s3.phis, s3.code), s3.memo, s3.next))
  }
}
