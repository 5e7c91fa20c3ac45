/** Well-formedness of the translator's state, and its preservation by every
    step of the pass when a function starts from an empty memo: each source
    block has at most one target block, every block the function mentions is
    one of its own, every environment entry and every phi operand names an
    instruction or phi that exists, and every instruction only uses results
    of earlier ones. */
module Invariants {
  import opened CtonIr
  import opened LlvmModel
  import opened Translator

  ghost predicate InRange(b: Block, base: Block, next: Block) {
    base <= b < next
  }

  /** `v` names an existing instruction result or phi. */
  ghost predicate ValOk(v: IntVal, nCode: nat, nPhis: nat) {
    RefsBelow(v, nCode) && (v.PhiResult? ==> v.phi < nPhis)
  }

  ghost predicate TvOk(tv: TV, nCode: nat, nPhis: nat) {
    match tv
    case Int(iv) => ValOk(iv, nCode, nPhis)
    case Phi(p) => p < nPhis
  }

  ghost predicate EnvOk(values: map<Value, TV>, nCode: nat, nPhis: nat) {
    forall v :: v in values ==> TvOk(values[v], nCode, nPhis)
  }

  ghost predicate IncomingOk(inc: Incoming, base: Block, next: Block, nCode: nat, nPhis: nat) {
    InRange(inc.from, base, next) && ValOk(inc.value, nCode, nPhis)
  }

  ghost predicate PhiOk(ph: PhiNode, base: Block, next: Block, nCode: nat, nPhis: nat) {
    && InRange(ph.block, base, next)
    && forall k :: 0 <= k < |ph.incoming| ==> IncomingOk(ph.incoming[k], base, next, nCode, nPhis)
  }

  ghost predicate PhisOk(phis: seq<PhiNode>, base: Block, next: Block, nCode: nat) {
    forall p :: 0 <= p < |phis| ==> PhiOk(phis[p], base, next, nCode, |phis|)
  }

  ghost predicate TargetsOk(op: Op, base: Block, next: Block) {
    match op
    case Br(d) => InRange(d, base, next)
    case CondBr(_, t, e) => InRange(t, base, next) && InRange(e, base, next)
    case _ => true
  }

  /** The i-th log entry sits in one of the function's blocks, branches only
      to the function's blocks and uses only earlier results. */
  ghost predicate EmittedOk(e: Emitted, i: nat, base: Block, next: Block) {
    InRange(e.block, base, next) && TargetsOk(e.op, base, next) && OpRefsBelow(e.op, i)
  }

  ghost predicate CodeOk(code: seq<Emitted>, base: Block, next: Block) {
    forall i :: 0 <= i < |code| ==> EmittedOk(code[i], i, base, next)
  }

  /** One target block per source block, and only blocks of this function. */
  ghost predicate MemoOk(memo: map<Ebb, Block>, base: Block, next: Block) {
    && (forall e :: e in memo ==> InRange(memo[e], base, next))
    && (forall e1, e2 :: e1 in memo && e2 in memo && e1 != e2 ==> memo[e1] != memo[e2])
  }

  ghost predicate Inv(s: State) {
    && MemoOk(s.memo, s.base, s.next)
    && EnvOk(s.values, |s.code|, |s.phis|)
    && PhisOk(s.phis, s.base, s.next, |s.code|)
    && CodeOk(s.code, s.base, s.next)
    && s.base <= s.cur <= s.next
  }

  /** The builder sits in one of the function's blocks. */
  ghost predicate Positioned(s: State) {
    Inv(s) && s.cur < s.next
  }

  // ---------------------------------------------------------------------
  // Growing the bounds keeps everything well-formed
  // ---------------------------------------------------------------------

  lemma PhisOkWiden(phis: seq<PhiNode>, base: Block, next: Block, nCode: nat, next': Block, nCode': nat)
    requires PhisOk(phis, base, next, nCode) && next <= next' && nCode <= nCode'
    ensures PhisOk(phis, base, next', nCode')
  {
    forall p | 0 <= p < |phis|
      ensures PhiOk(phis[p], base, next', nCode', |phis|)
    {
      assert PhiOk(phis[p], base, next, nCode, |phis|);
      forall k | 0 <= k < |phis[p].incoming|
        ensures IncomingOk(phis[p].incoming[k], base, next', nCode', |phis|)
      {
        assert IncomingOk(phis[p].incoming[k], base, next, nCode, |phis|);
      }
    }
  }

  /** The integer view of a well-formed binding names an existing
      instruction result or phi, whichever variant the binding is. */
  lemma IntoIntValueOk(tv: TV, nCode: nat, nPhis: nat)
    requires TvOk(tv, nCode, nPhis)
    ensures ValOk(tv.IntoIntValue(), nCode, nPhis)
    ensures tv.Phi? ==> tv.IntoIntValue().PhiResult? && tv.IntoIntValue().phi == tv.phi
  {
  }

  lemma EnvOkWiden(values: map<Value, TV>, nCode: nat, nPhis: nat, nCode': nat, nPhis': nat)
    requires EnvOk(values, nCode, nPhis) && nCode <= nCode' && nPhis <= nPhis'
    ensures EnvOk(values, nCode', nPhis')
  {
    forall v | v in values
      ensures TvOk(values[v], nCode', nPhis')
    {
      assert TvOk(values[v], nCode, nPhis);
    }
  }

  lemma CodeOkWiden(code: seq<Emitted>, base: Block, next: Block, next': Block)
    requires CodeOk(code, base, next) && next <= next'
    ensures CodeOk(code, base, next')
  {
    forall i | 0 <= i < |code|
      ensures EmittedOk(code[i], i, base, next')
    {
      assert EmittedOk(code[i], i, base, next);
    }
  }

  /** Appending a well-formed entry to the log. */
  lemma CodeOkAppend(code: seq<Emitted>, e: Emitted, base: Block, next: Block)
    requires CodeOk(code, base, next) && EmittedOk(e, |code|, base, next)
    ensures CodeOk(code + [e], base, next)
  {
    forall i | 0 <= i < |code| + 1
      ensures EmittedOk((code + [e])[i], i, base, next)
    {
      if i < |code| {
        assert (code + [e])[i] == code[i];
      }
    }
  }

  /** A state whose counters moved up keeps every fact of `Inv` except the
      position of the builder. */
  lemma InvWiden(s: State, t: State)
    requires Inv(s)
    requires t.memo == s.memo && t.values == s.values && t.phis == s.phis && t.code == s.code
    requires t.base == s.base && s.next <= t.next && t.base <= t.cur <= t.next
    ensures Inv(t)
  {
    PhisOkWiden(s.phis, s.base, s.next, |s.code|, t.next, |s.code|);
    CodeOkWiden(s.code, s.base, s.next, t.next);
  }

  // ---------------------------------------------------------------------
  // Step by step
  // ---------------------------------------------------------------------

  lemma EntryBlockForInv(s: State, ebb: Ebb)
    requires Inv(s)
    ensures Inv(EntryBlockFor(s, ebb).0)
    ensures InRange(EntryBlockFor(s, ebb).1, s.base, EntryBlockFor(s, ebb).0.next)
  {
    var (t, bb) := EntryBlockFor(s, ebb);
    if ebb !in s.memo {
      InvWiden(s, t.(memo := s.memo));
    }
  }

  lemma PhiOkWiden(ph: PhiNode, base: Block, next: Block, nCode: nat, nPhis: nat, next': Block, nCode': nat, nPhis': nat)
    requires PhiOk(ph, base, next, nCode, nPhis) && next <= next' && nCode <= nCode' && nPhis <= nPhis'
    ensures PhiOk(ph, base, next', nCode', nPhis')
  {
    forall k | 0 <= k < |ph.incoming|
      ensures IncomingOk(ph.incoming[k], base, next', nCode', nPhis')
    {
      assert IncomingOk(ph.incoming[k], base, next, nCode, nPhis);
    }
  }

  lemma TranslateEbbParamsInv(f: Function, s: State, ebb: Ebb)
    requires Inv(s) && TranslateEbbParams(f, s, ebb).Ok?
    ensures Positioned(TranslateEbbParams(f, s, ebb).value)
  {
    EntryBlockForInv(s, ebb);
    var (s1, bb) := EntryBlockFor(s, ebb);
    var r := TranslateEbbParams(f, s, ebb).value;
    var params := f.ebbParams[ebb];
    forall p | 0 <= p < |r.phis|
      ensures PhiOk(r.phis[p], r.base, r.next, |r.code|, |r.phis|)
    {
      if p < |s.phis| {
        assert r.phis[p] == r.phis[..|s.phis|][p] == s.phis[p];
        assert PhiOk(s.phis[p], s.base, s.next, |s.code|, |s.phis|);
        PhiOkWiden(s.phis[p], s.base, s.next, |s.code|, |s.phis|, r.next, |r.code|, |r.phis|);
      }
    }
    forall v | v in r.values
      ensures TvOk(r.values[v], |r.code|, |r.phis|)
    {
      if v in params {
        assert BoundToOwnPhi(r.values, params, |s.phis|, v);
      } else {
        assert TvOk(s.values[v], |s.code|, |s.phis|);
      }
    }
  }

  lemma {:induction false} Pass1Inv(f: Function, s: State, layout: seq<LayoutEbb>)
    requires Inv(s) && Pass1(f, s, layout).Ok?
    ensures Inv(Pass1(f, s, layout).value)
    ensures |layout| > 0 ==> Positioned(Pass1(f, s, layout).value)
    decreases |layout|
  {
    if |layout| > 0 {
      var s1 := TranslateEbbParams(f, s, layout[0].ebb).value;
      TranslateEbbParamsInv(f, s, layout[0].ebb);
      Pass1Inv(f, s1, layout[1..]);
    }
  }

  /** Stitching adds only incoming pairs from a block of the function whose
      values exist. */
  lemma {:induction false} StitchInv(values: map<Value, TV>, phis: seq<PhiNode>, args: seq<Value>, params: seq<Value>,
                                     from: Block, base: Block, next: Block, nCode: nat)
    requires PhisOk(phis, base, next, nCode) && EnvOk(values, nCode, |phis|) && InRange(from, base, next)
    requires Stitch(values, phis, args, params, from).Ok?
    ensures PhisOk(Stitch(values, phis, args, params, from).value, base, next, nCode)
    decreases |args|
  {
    if |args| > 0 && |params| > 0 {
      var p := values[params[0]].phi;
      var v := values[args[0]].IntoIntValue();
      assert TvOk(values[args[0]], nCode, |phis|);
      assert TvOk(values[params[0]], nCode, |phis|);
      var phis' := AddIncoming(phis, p, Incoming(v, from));
      forall q | 0 <= q < |phis'|
        ensures PhiOk(phis'[q], base, next, nCode, |phis'|)
      {
        assert PhiOk(phis[q], base, next, nCode, |phis|);
      }
      StitchInv(values, phis', args[1..], params[1..], from, base, next, nCode);
    }
  }

  lemma TranslateBinaryInv(s: State, inst: Inst, opcode: Opcode, a0: Value, a1: Value)
    requires Positioned(s) && TranslateBinary(s, inst, opcode, a0, a1).Ok?
    ensures Positioned(TranslateBinary(s, inst, opcode, a0, a1).value)
  {
    var r := TranslateBinary(s, inst, opcode, a0, a1).value;
    assert TvOk(s.values[a0], |s.code|, |s.phis|);
    assert TvOk(s.values[a1], |s.code|, |s.phis|);
    CodeOkAppend(s.code, r.code[|s.code|], s.base, s.next);
    assert r.code == s.code + [r.code[|s.code|]];
    PhisOkWiden(s.phis, s.base, s.next, |s.code|, s.next, |r.code|);
    EnvOkWiden(s.values, |s.code|, |s.phis|, |r.code|, |s.phis|);
  }

  lemma TranslateUnaryImmInv(s: State, inst: Inst, opcode: Opcode, imm: i64)
    requires Positioned(s) && TranslateUnaryImm(s, inst, opcode, imm).Ok?
    ensures Positioned(TranslateUnaryImm(s, inst, opcode, imm).value)
  {
  }

  lemma TranslateMultiAryInv(s: State, opcode: Opcode)
    requires Positioned(s)
    ensures Positioned(TranslateMultiAry(s, opcode))
  {
    var r := TranslateMultiAry(s, opcode);
    if opcode == Return {
      CodeOkAppend(s.code, Emitted(s.cur, RetVoid), s.base, s.next);
      PhisOkWiden(s.phis, s.base, s.next, |s.code|, s.next, |r.code|);
      EnvOkWiden(s.values, |s.code|, |s.phis|, |r.code|, |s.phis|);
    }
  }

  lemma TranslateJumpInv(f: Function, s: State, opcode: Opcode, dst: Ebb, args: seq<Value>)
    requires Positioned(s) && TranslateJump(f, s, opcode, dst, args).Ok?
    ensures Positioned(TranslateJump(f, s, opcode, dst, args).value)
  {
    if opcode == Jump {
      var r := TranslateJump(f, s, opcode, dst, args).value;
      EntryBlockForInv(s, dst);
      var (s1, dstBb) := EntryBlockFor(s, dst);
      CodeOkAppend(s.code, Emitted(s.cur, Br(dstBb)), s.base, s1.next);
      CodeOkWiden(s.code, s.base, s.next, s1.next);
      PhisOkWiden(s.phis, s.base, s.next, |s.code|, s1.next, |r.code|);
      EnvOkWiden(s.values, |s.code|, |s.phis|, |r.code|, |s.phis|);
      StitchInv(s.values, s.phis, args, f.ebbParams[dst], s.cur, s.base, r.next, |r.code|);
    }
  }

  lemma TranslateBranchInv(f: Function, s: State, opcode: Opcode, dst: Ebb, args: seq<Value>)
    requires Positioned(s) && TranslateBranch(f, s, opcode, dst, args).Ok?
    ensures Positioned(TranslateBranch(f, s, opcode, dst, args).value)
  {
    if opcode == Brz {
      var r := TranslateBranch(f, s, opcode, dst, args).value;
      EntryBlockForInv(s, dst);
      var (s1, dstBb) := EntryBlockFor(s, dst);
      assert TvOk(s.values[args[0]], |s.code|, |s.phis|);
      var cmp := Emitted(s.cur, IntCompare(EQ, s.values[args[0]].IntoIntValue(), Const(0)));
      var br := Emitted(s.cur, CondBr(InstResult(|s.code|), dstBb, r.cur));
      CodeOkWiden(s.code, s.base, s.next, r.next);
      CodeOkAppend(s.code, cmp, s.base, r.next);
      CodeOkAppend(s.code + [cmp], br, s.base, r.next);
      assert r.code == s.code + [cmp] + [br];
      PhisOkWiden(s.phis, s.base, s.next, |s.code|, r.next, |r.code|);
      EnvOkWiden(s.values, |s.code|, |s.phis|, |r.code|, |s.phis|);
      StitchInv(s.values, s.phis, args[1..], f.ebbParams[dst], s.cur, s.base, r.next, |r.code|);
    }
  }

  lemma TranslateInstructionInv(f: Function, s: State, inst: Inst)
    requires Positioned(s) && TranslateInstruction(f, s, inst).Ok?
    ensures Positioned(TranslateInstruction(f, s, inst).value)
  {
    match inst.data
    case BinaryData(opcode, a0, a1) => TranslateBinaryInv(s, inst, opcode, a0, a1);
    case BranchData(opcode, dst, args) => TranslateBranchInv(f, s, opcode, dst, args);
    case JumpData(opcode, dst, args) => TranslateJumpInv(f, s, opcode, dst, args);
    case UnaryImmData(opcode, imm) => TranslateUnaryImmInv(s, inst, opcode, imm);
    case MultiAryData(opcode, _) => TranslateMultiAryInv(s, opcode);
    case OtherData(_) =>
  }

  lemma {:induction false} TranslateInstsInv(f: Function, s: State, insts: seq<Inst>)
    requires Positioned(s) && TranslateInsts(f, s, insts).Ok?
    ensures Positioned(TranslateInsts(f, s, insts).value)
    decreases |insts|
  {
    if |insts| > 0 {
      TranslateInstructionInv(f, s, insts[0]);
      TranslateInstsInv(f, TranslateInstruction(f, s, insts[0]).value, insts[1..]);
    }
  }

  lemma TranslateEbbInv(f: Function, s: State, le: LayoutEbb)
    requires Inv(s) && TranslateEbb(f, s, le).Ok?
    ensures Positioned(TranslateEbb(f, s, le).value)
  {
    EntryBlockForInv(s, le.ebb);
    var (s1, bb) := EntryBlockFor(s, le.ebb);
    TranslateInstsInv(f, s1.(cur := bb), le.insts);
  }

  lemma {:induction false} Pass2Inv(f: Function, s: State, layout: seq<LayoutEbb>)
    requires Inv(s) && Pass2(f, s, layout).Ok?
    ensures Inv(Pass2(f, s, layout).value)
    decreases |layout|
  {
    if |layout| > 0 {
      TranslateEbbInv(f, s, layout[0]);
      Pass2Inv(f, TranslateEbb(f, s, layout[0]).value, layout[1..]);
    }
  }

  lemma {:induction false} BindArgsInv(values: map<Value, TV>, phis: seq<PhiNode>, params: seq<Value>, arity: nat,
                                       from: Block, i: nat, base: Block, next: Block, nCode: nat)
    requires i <= |params|
    requires PhisOk(phis, base, next, nCode) && EnvOk(values, nCode, |phis|) && InRange(from, base, next)
    requires BindArgs(values, phis, params, arity, from, i).Ok?
    ensures PhisOk(BindArgs(values, phis, params, arity, from, i).value, base, next, nCode)
    decreases |params| - i
  {
    if i < |params| {
      var p := values[params[i]].phi;
      assert TvOk(values[params[i]], nCode, |phis|);
      var phis' := AddIncoming(phis, p, Incoming(Param(i), from));
      forall q | 0 <= q < |phis'|
        ensures PhiOk(phis'[q], base, next, nCode, |phis'|)
      {
        assert PhiOk(phis[q], base, next, nCode, |phis|);
      }
      BindArgsInv(values, phis', params, arity, from, i + 1, base, next, nCode);
    }
  }

  lemma BindEntryInv(f: Function, s: State, entryEbb: Ebb)
    requires Inv(s) && BindEntry(f, s, entryEbb).Ok?
    ensures Positioned(BindEntry(f, s, entryEbb).value.0)
  {
    var (r, newBb) := BindEntry(f, s, entryEbb).value;
    CodeOkWiden(s.code, s.base, s.next, r.next);
    CodeOkAppend(s.code, Emitted(newBb, Br(s.base)), s.base, r.next);
    PhisOkWiden(s.phis, s.base, s.next, |s.code|, r.next, |r.code|);
    EnvOkWiden(s.values, |s.code|, |s.phis|, |r.code|, |s.phis|);
    BindArgsInv(s.values, s.phis, f.ebbParams[entryEbb], |f.signature|, newBb, 0, s.base, r.next, |r.code|);
  }

  /** The finished function only mentions its own blocks, and every
      instruction only uses results of earlier ones. */
  ghost predicate SelfContained(tf: TargetFunction) {
    && InRange(tf.entry, tf.firstBlock, tf.endBlock)
    && PhisOk(tf.phis, tf.firstBlock, tf.endBlock, |tf.code|)
    && CodeOk(tf.code, tf.firstBlock, tf.endBlock)
  }

  /** Translated from an empty memo, a function is self-contained: every
      block it places code in, branches to or names as a phi predecessor was
      appended to it, and each source block got its own target block. */
  lemma FreshTranslationSelfContained(next: Block, f: Function)
    requires TranslateFunctionFrom(map[], next, f).Ok?
    ensures SelfContained(TranslateFunctionFrom(map[], next, f).value.func)
    ensures MemoOk(TranslateFunctionFrom(map[], next, f).value.memo, next, TranslateFunctionFrom(map[], next, f).value.next)
  {
    var s0 := Start(map[], next);
    assert Inv(s0);
    var s1 := Pass1(f, s0, f.layout).value;
    Pass1Inv(f, s0, f.layout);
    var s2 := Pass2(f, s1, f.layout).value;
    Pass2Inv(f, s1, f.layout);
    BindEntryInv(f, s2, f.layout[0].ebb);
  }
}
