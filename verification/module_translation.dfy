/** Translating a whole module: `Translator::translate` runs
    `translate_function` on every function in order, and the translator's
    block memo lives on the translator itself, so it is never cleared between
    functions. Block handles are per-function (every function starts at
    `ebb0`), so a later function finds the blocks of an earlier one in the
    memo. `TranslateModuleAsWritten` keeps that behaviour; `TranslateModule`
    gives every function an empty memo, as a per-function memo is meant. */
module ModuleTranslation {
  import opened CtonIr
  import opened LlvmModel
  import opened Translator
  import opened Invariants

  /** The module as the source translates it: one memo threaded through
      all functions. Returns the translated functions and the memo the
      translator holds afterwards, which still holds every entry it started
      with and a block for every EBB number any of the functions uses. The
      second function is translated from the memo the first one left, which
      already maps every EBB number of the first function. */
  function TranslateModuleAsWritten(fs: seq<Function>, memo: map<Ebb, Block>, next: Block)
    : (r: Result<(seq<TargetFunction>, map<Ebb, Block>)>)
    ensures r.Ok? ==> |r.value.0| == |fs|
    ensures r.Ok? ==> forall e :: e in memo ==> e in r.value.1 && r.value.1[e] == memo[e]
    ensures r.Ok? ==> forall i, j :: 0 <= i < |fs| && 0 <= j < |fs[i].layout| ==> fs[i].layout[j].ebb in r.value.1
    ensures r.Ok? && |fs| > 0 ==>
              && TranslateFunctionFrom(memo, next, fs[0]).Ok?
              && r.value.0[0] == TranslateFunctionFrom(memo, next, fs[0]).value.func
    ensures r.Ok? && |fs| > 1 ==>
              var t := TranslateFunctionFrom(memo, next, fs[0]).value;
              && TranslateFunctionFrom(t.memo, t.next, fs[1]).Ok?
              && r.value.0[1] == TranslateFunctionFrom(t.memo, t.next, fs[1]).value.func
    decreases |fs|
  {
    if |fs| == 0 then Ok(([], memo))
    else
      var t :- TranslateFunctionFrom(memo, next, fs[0]);
      var rest :- TranslateModuleAsWritten(fs[1..], t.memo, t.next);
      assert forall i :: 1 <= i < |fs| ==> fs[i] == fs[1..][i - 1];
      Ok(([t.func] + rest.0, rest.1))
  }

  /** The module with a fresh memo per function: every function is
      self-contained and the functions' blocks are numbered in consecutive,
      disjoint ranges. */
  function TranslateModule(fs: seq<Function>, next: Block): (r: Result<seq<TargetFunction>>)
    ensures r.Ok? ==> |r.value| == |fs|
    ensures r.Ok? ==> forall i :: 0 <= i < |fs| ==> SelfContained(r.value[i])
    ensures r.Ok? && |fs| > 0 ==> r.value[0].firstBlock == next
    ensures r.Ok? ==> forall i :: 0 <= i < |fs| - 1 ==> r.value[i].endBlock == r.value[i + 1].firstBlock
    ensures r.Ok? ==> forall i :: 0 <= i < |fs| ==> r.value[i].firstBlock < r.value[i].endBlock
    decreases |fs|
  {
    if |fs| == 0 then Ok([])
    else
      var t :- TranslateFunctionFrom(map[], next, fs[0]);
      FreshTranslationSelfContained(next, fs[0]);
      var rest :- TranslateModule(fs[1..], t.next);
      Ok([t.func] + rest)
  }

  /** One step of `TranslateModule`: the head function from `next`, then the
      rest from where it ended. */
  lemma TranslateModuleCons(f: Function, fs: seq<Function>, next: Block, t: Translated, rest: seq<TargetFunction>)
    ensures TranslateFunctionFrom(map[], next, f) == Ok(t) && TranslateModule(fs, t.next) == Ok(rest) ==>
              TranslateModule([f] + fs, next) == Ok([t.func] + rest)
  {
    assert ([f] + fs)[0] == f;
    assert ([f] + fs)[1..] == fs;
  }

  // ---------------------------------------------------------------------
  // The discrepancy on a concrete module
  // ---------------------------------------------------------------------

  /** `function %f() { ebb0: return }`. */
  function ReturnOnly(): Function {
    Function(TestCase(1, [0x66]), [], map[0 := []], [LayoutEbb(0, [Inst(MultiAryData(Return, []), [])])])
  }

  /** The function translated from an empty memo with its blocks numbered
      from `next`. */
  lemma ReturnOnlyFrom(next: Block)
    ensures TranslateFunctionFrom(map[], next, ReturnOnly())
            == Ok(Translated(TargetFunction([0x66], 0, next + 1, next, next + 2, [],
                                            [Emitted(next, RetVoid), Emitted(next + 1, Br(next))]),
                             map[0 := next], next + 2))
  {
    var f := ReturnOnly();
    var s0 := Start(map[], next);
    var s1 := State(map[0 := next], map[], next, next + 1, next, [], []);
    assert seq(0, _ => PhiNode(next, [])) == [];
    assert TranslateEbbParams(f, s0, 0) == Ok(s1);
    assert Pass1(f, s0, f.layout) == Ok(s1);
    var ret := Inst(MultiAryData(Return, []), []);
    var s2 := s1.(code := [Emitted(next, RetVoid)]);
    assert ret.data.MultiAryData? && ret.data.opcode == Return;
    assert TranslateMultiAry(s1, Return) == s2;
    assert TranslateInstruction(f, s1, ret) == Ok(s2);
    assert TranslateInsts(f, s2, []) == Ok(s2);
    assert TranslateInsts(f, s1, [ret]) == Ok(s2);
    assert TranslateEbb(f, s1, f.layout[0]) == Ok(s2);
    assert Pass2(f, s2, f.layout[1..]) == Ok(s2);
    assert Pass2(f, s1, f.layout) == Ok(s2);
    var s3 := s2.(next := next + 2, cur := next + 1, code := [Emitted(next, RetVoid), Emitted(next + 1, Br(next))]);
    var nb: Block := next + 1;
    assert BindArgs(s3.values, s3.phis, [], 0, nb, 0) == Ok([]);
    assert EbbParamsOf(f, 0) == Ok([]);
    assert BindEntry(f, s2, 0).Ok?;
    assert BindEntry(f, s2, 0).value.1 == nb;
    assert BindEntry(f, s2, 0).value.0 == s3;
    assert CreateFunc(f) == Ok(Signature([0x66], 0)) by {
      assert f.name.ascii[..f.name.length] == [0x66];
    }
  }

  /** As written, the second copy of the function finds `ebb0` in the memo:
      no block is appended for it, its `ret void` is placed in block 0 of the
      FIRST function, and the function ends up with no block of its own, so
      `get_entry_basic_block().unwrap()` fails. */
  lemma SharedMemoBreaksSecondFunction()
    ensures var s1 := Pass1(ReturnOnly(), Start(map[0 := 0], 2), ReturnOnly().layout).value;
            var s2 := Pass2(ReturnOnly(), s1, ReturnOnly().layout).value;
            && s2.next == s2.base == 2
            && s2.code == [Emitted(0, RetVoid)]
    ensures TranslateModuleAsWritten([ReturnOnly(), ReturnOnly()], map[], 0) == Err(NoEntryBlock)
  {
    var f := ReturnOnly();
    var s0 := Start(map[0 := 0], 2);
    var s1 := s0.(cur := 0);
    assert seq(0, _ => PhiNode(0, [])) == [];
    assert TranslateEbbParams(f, s0, 0) == Ok(s1);
    assert Pass1(f, s0, f.layout) == Ok(s1);
    var ret := Inst(MultiAryData(Return, []), []);
    var s2 := s1.(code := [Emitted(0, RetVoid)]);
    assert TranslateMultiAry(s1, Return) == s2;
    assert TranslateInstruction(f, s1, ret) == Ok(s2);
    assert TranslateInsts(f, s2, []) == Ok(s2);
    assert TranslateInsts(f, s1, [ret]) == Ok(s2);
    assert TranslateEbb(f, s1, f.layout[0]) == Ok(s2);
    assert Pass2(f, s2, f.layout[1..]) == Ok(s2);
    assert Pass2(f, s1, f.layout) == Ok(s2);
    assert BindEntry(f, s2, 0) == Err(NoEntryBlock);
    assert CreateFunc(f).Ok?;
    assert TranslateFunctionFrom(map[0 := 0], 2, f) == Err(NoEntryBlock);
    ReturnOnlyFrom(0);
    assert [f, f][1..] == [f];
    assert TranslateModuleAsWritten([f], map[0 := 0], 2) == Err(NoEntryBlock);
  }

  /** A two-function module translates function by function, the second
      numbering its blocks from where the first stopped. */
  lemma TranslateTwo(f: Function, g: Function, next: Block, t: Translated, u: Translated)
    ensures TranslateFunctionFrom(map[], next, f) == Ok(t) && TranslateFunctionFrom(map[], t.next, g) == Ok(u) ==>
              TranslateModule([f, g], next) == Ok([t.func, u.func])
  {
    assert TranslateModule([g][1..], u.next) == Ok([]);
    TranslateModuleCons(g, [], t.next, u, []);
    assert [g] + [] == [g];
    assert [u.func] + [] == [u.func];
    TranslateModuleCons(f, [g], next, t, [u.func]);
    assert [f] + [g] == [f, g];
    assert [t.func] + [u.func] == [t.func, u.func];
  }

  /** With a memo per function, both copies translate, each into its own
      blocks. */
  lemma FreshMemoTranslatesBoth(next: Block)
    ensures TranslateModule([ReturnOnly(), ReturnOnly()], next)
            == Ok([TargetFunction([0x66], 0, next + 1, next, next + 2, [], [Emitted(next, RetVoid), Emitted(next + 1, Br(next))]),
                   TargetFunction([0x66], 0, next + 3, next + 2, next + 4, [], [Emitted(next + 2, RetVoid), Emitted(next + 3, Br(next + 2))])])
  {
    ReturnOnlyFrom(next);
    ReturnOnlyFrom(next + 2);
    TranslateTwo(ReturnOnly(), ReturnOnly(), next,
                 TranslateFunctionFrom(map[], next, ReturnOnly()).value,
                 TranslateFunctionFrom(map[], next + 2, ReturnOnly()).value);
  }
}
