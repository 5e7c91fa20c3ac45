/** Concrete functions translated end to end, and the arity behaviour of
    branch stitching. */
module Scenarios {
  import opened CtonIr
  import opened LlvmModel
  import opened Translator

  /** `function %add(i64, i64) { ebb0(v0, v1): v2 = iadd v0, v1; return }`. */
  function AddFunction(): Function {
    Function(TestCase(3, [0x61, 0x64, 0x64]), [I64, I64], map[0 := [0, 1]],
             [LayoutEbb(0, [Inst(BinaryData(Iadd, 0, 1), [2]), Inst(MultiAryData(Return, []), [])])])
  }

  /** The code of the lowered `%add` when its blocks are numbered from
      `next`: the sum of the two entry phis, `ret void`, and the synthetic
      block's jump to the entry block. */
  function AddCode(next: Block): seq<Emitted> {
    [Emitted(next, IntBinary(Add, PhiResult(0), PhiResult(1))),
     Emitted(next, RetVoid),
     Emitted(next + 1, Br(next))]
  }

  /** The state after pass 1 of `%add`: one block, two empty phis bound to
      `v0` and `v1`. */
  function AddAfterPass1(next: Block): State {
    State(map[0 := next], map[0 := Phi(0), 1 := Phi(1)], next, next + 1, next,
          [PhiNode(next, []), PhiNode(next, [])], [])
  }

  /** The state after pass 2 of `%add`. */
  function AddAfterPass2(next: Block): State {
    AddAfterPass1(next).(code := AddCode(next)[..2],
                         values := map[0 := Phi(0), 1 := Phi(1), 2 := Int(InstResult(0))])
  }

  /** The entry phis of `%add` after entry binding. */
  function AddPhis(next: Block): seq<PhiNode> {
    [PhiNode(next, [Incoming(Param(0), next + 1)]), PhiNode(next, [Incoming(Param(1), next + 1)])]
  }

  lemma AddPass1(next: Block)
    ensures Pass1(AddFunction(), Start(map[], next), AddFunction().layout) == Ok(AddAfterPass1(next))
  {
    var f := AddFunction();
    var s0 := Start(map[], next);
    var vals := map[0 := Phi(0), 1 := Phi(1)];
    assert BindParams(map[0 := Phi(0)], [1], 1) == vals by {
      assert [1][1..] == [];
    }
    assert BindParams(map[], [0, 1], 0) == vals by {
      assert [0, 1][1..] == [1];
    }
    assert seq(2, _ => PhiNode(next, [])) == [PhiNode(next, []), PhiNode(next, [])];
    var s1 := AddAfterPass1(next);
    assert TranslateEbbParams(f, s0, 0) == Ok(s1);
  }

  lemma AddPass2(next: Block)
    ensures Pass2(AddFunction(), AddAfterPass1(next), AddFunction().layout) == Ok(AddAfterPass2(next))
  {
    var f := AddFunction();
    var s1 := AddAfterPass1(next);
    var vals := s1.values;
    var add := Inst(BinaryData(Iadd, 0, 1), [2]);
    var ret := Inst(MultiAryData(Return, []), []);
    var code1 := [Emitted(next, IntBinary(Add, PhiResult(0), PhiResult(1)))];
    var s2 := s1.(code := code1, values := vals[2 := Int(InstResult(0))]);
    assert vals[0].IntoIntValue() == PhiResult(0) && vals[1].IntoIntValue() == PhiResult(1);
    assert s1.code + code1 == code1;
    assert TranslateBinary(s1, add, Iadd, 0, 1).Ok?;
    assert TranslateBinary(s1, add, Iadd, 0, 1) == Ok(s2);
    assert TranslateInstruction(f, s1, add) == Ok(s2);
    var s3 := AddAfterPass2(next);
    assert code1 + [Emitted(next, RetVoid)] == AddCode(next)[..2];
    assert TranslateInstruction(f, s2, ret) == Ok(s3);
    assert TranslateInsts(f, s3, []) == Ok(s3);
    assert TranslateInsts(f, s2, [ret]) == Ok(s3);
    assert TranslateInsts(f, s1, [add, ret]) == Ok(s3) by {
      assert [add, ret][1..] == [ret];
    }
    assert TranslateEbb(f, s1, f.layout[0]) == Ok(s3);
    assert Pass2(f, s3, f.layout[1..]) == Ok(s3);
  }

  lemma AddBindEntry(next: Block)
    ensures BindEntry(AddFunction(), AddAfterPass2(next), 0)
            == Ok((AddAfterPass2(next).(next := next + 2, cur := next + 1, code := AddCode(next), phis := AddPhis(next)), next + 1))
  {
    var f := AddFunction();
    var s3 := AddAfterPass2(next);
    var vals := s3.values;
    var nb: Block := next + 1;
    var empty := s3.phis;
    var bound := AddPhis(next);
    var half := [PhiNode(next, [Incoming(Param(0), nb)]), PhiNode(next, [])];
    assert [] + [Incoming(Param(0), nb)] == [Incoming(Param(0), nb)];
    assert [] + [Incoming(Param(1), nb)] == [Incoming(Param(1), nb)];
    assert AddIncoming(empty, 0, Incoming(Param(0), nb)) == half;
    assert AddIncoming(half, 1, Incoming(Param(1), nb)) == bound;
    assert BindArgs(vals, bound, [0, 1], 2, nb, 2) == Ok(bound);
    assert BindArgs(vals, half, [0, 1], 2, nb, 1) == Ok(bound);
    assert BindArgs(vals, empty, [0, 1], 2, nb, 0) == Ok(bound);
    assert EbbParamsOf(f, 0) == Ok([0, 1]);
    assert s3.code + [Emitted(nb, Br(next))] == AddCode(next);
    var s4 := s3.(next := next + 2, cur := nb, code := AddCode(next), phis := bound);
    assert BindEntry(f, s3, 0).Ok?;
    assert BindEntry(f, s3, 0).value.1 == nb;
    assert BindEntry(f, s3, 0).value.0 == s4;
  }

  /** The straight-line function lowers to one block that adds its two phis
      and returns, and each phi receives exactly the matching formal
      parameter from the synthetic entry block. */
  lemma StraightLineAdd(next: Block)
    ensures TranslateFunctionFrom(map[], next, AddFunction())
            == Ok(Translated(TargetFunction([0x61, 0x64, 0x64], 2, next + 1, next, next + 2, AddPhis(next), AddCode(next)),
                             map[0 := next], next + 2))
  {
    var f := AddFunction();
    var s1 := AddAfterPass1(next);
    var s3 := AddAfterPass2(next);
    var s4 := s3.(next := next + 2, cur := next + 1, code := AddCode(next), phis := AddPhis(next));
    assert CreateFunc(f) == Ok(Signature([0x61, 0x64, 0x64], 2)) by {
      assert f.name.ascii[..f.name.length] == [0x61, 0x64, 0x64];
    }
    assert Pass1(f, Start(map[], next), f.layout) == Ok(s1) by {
      AddPass1(next);
    }
    assert Pass2(f, s1, f.layout) == Ok(s3) by {
      AddPass2(next);
    }
    var nb: Block := next + 1;
    assert BindEntry(f, s3, 0) == Ok((s4, nb)) by {
      AddBindEntry(next);
    }
  }

  /** Whatever the caller passes, the lowered `%add` computes the 64-bit
      wrapping sum of its two parameters: each entry phi's only incoming
      pair comes from the synthetic entry block and carries one formal
      parameter, and the add sums what the two phis select. */
  lemma StraightLineAddComputesSum(next: Block, a: nat, b: nat)
    requires a < TWO_64 && b < TWO_64
    ensures CodeScoped(AddCode(next))
    ensures AddCode(next)[2] == Emitted(next + 1, Br(next))
    ensures forall k :: 0 <= k < 2 ==> AddPhis(next)[k].incoming[0].from == next + 1
    ensures var code := AddCode(next);
            var fr0 := Frame([a, b], map[]);
            var pa := Eval(code, fr0, AddPhis(next)[0].incoming[0].value);
            var pb := Eval(code, fr0, AddPhis(next)[1].incoming[0].value);
            && pa == a && pb == b
            && Eval(code, Frame([a, b], map[0 := pa, 1 := pb]), InstResult(0)) == (a + b) % TWO_64
  {
    var code := AddCode(next);
    assert OpRefsBelow(code[0].op, 0) && OpRefsBelow(code[1].op, 1) && OpRefsBelow(code[2].op, 2);
    var fr := Frame([a, b], map[0 := a, 1 := b]);
    assert Eval(code, fr, PhiResult(0)) == a;
    assert Eval(code, fr, PhiResult(1)) == b;
  }

  /** Arity is never checked: a `jump` passing one argument to a block with
      two parameters succeeds, the first parameter's phi gains the argument
      and the second parameter's phi is left without an incoming pair from
      this edge. */
  lemma JumpTruncatesArguments(f: Function, s: State, dst: Ebb, a: Value)
    requires dst in f.ebbParams && |f.ebbParams[dst]| == 2
    requires PhiBound(s.values, f.ebbParams[dst][0]) && PhiBound(s.values, f.ebbParams[dst][1])
    requires s.values[f.ebbParams[dst][0]].phi < |s.phis|
    requires a in s.values
    ensures TranslateJump(f, s, Jump, dst, [a]).Ok?
    ensures var r := TranslateJump(f, s, Jump, dst, [a]).value;
            var p := s.values[f.ebbParams[dst][0]].phi;
            && r.phis[p].incoming == s.phis[p].incoming + [Incoming(s.values[a].IntoIntValue(), s.cur)]
            && forall q :: 0 <= q < |s.phis| && q != p ==> r.phis[q] == s.phis[q]
  {
    var params := f.ebbParams[dst];
    assert CanStitch(s.values, [a], params);
    var p := s.values[params[0]].phi;
    var inc := Incoming(s.values[a].IntoIntValue(), s.cur);
    assert Stitch(s.values, AddIncoming(s.phis, p, inc), [], params[1..], s.cur) == Ok(AddIncoming(s.phis, p, inc));
    assert Stitch(s.values, s.phis, [a], params, s.cur) == Ok(AddIncoming(s.phis, p, inc)) by {
      assert [a][1..] == [];
    }
  }
}
