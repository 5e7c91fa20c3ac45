/** Properties of the lowering pass that relate several calls or give the
    emitted code its meaning: the block memo is idempotent and creates one
    block per distinct source block, parameters become distinct phis, edge
    stitching adds exactly one incoming pair per zipped argument, entry
    binding feeds each formal parameter into its phi, and the arithmetic,
    constant and comparison instructions compute what the source
    instructions mean. */
module Properties {
  import opened CtonIr
  import opened LlvmModel
  import opened Translator
  import opened Invariants

  // ---------------------------------------------------------------------
  // Block memo
  // ---------------------------------------------------------------------

  /** Asking twice for the same block gives the same block and changes
      nothing the second time. */
  lemma EntryBlockForIdempotent(s: State, ebb: Ebb)
    ensures var (s1, b1) := EntryBlockFor(s, ebb);
            EntryBlockFor(s1, ebb) == (s1, b1)
  {
  }

  /** Once a block is memoized, every later state whose memo extends the
      earlier one (whatever happened in between) returns the same block. */
  lemma EntryBlockForStable(s: State, t: State, ebb: Ebb)
    requires ebb in s.memo
    requires forall e :: e in s.memo ==> e in t.memo && t.memo[e] == s.memo[e]
    ensures EntryBlockFor(t, ebb) == (t, s.memo[ebb])
  {
  }

  /** `entry_bb_for_ebb` applied to each block of `ebbs` in turn. */
  function RequestAll(s: State, ebbs: seq<Ebb>): State
    decreases |ebbs|
  {
    if |ebbs| == 0 then s else RequestAll(EntryBlockFor(s, ebbs[0]).0, ebbs[1..])
  }

  function Elems(ebbs: seq<Ebb>): set<Ebb> {
    set e | e in ebbs
  }

  lemma ElemsCons(ebbs: seq<Ebb>)
    requires |ebbs| > 0
    ensures Elems(ebbs) == {ebbs[0]} + Elems(ebbs[1..])
  {
    assert ebbs == [ebbs[0]] + ebbs[1..];
  }

  /** However often each block is requested, exactly one target block is
      appended per distinct block not memoized before. */
  lemma {:induction false} RequestAllCount(s: State, ebbs: seq<Ebb>)
    ensures RequestAll(s, ebbs).memo.Keys == s.memo.Keys + Elems(ebbs)
    ensures RequestAll(s, ebbs).next == s.next + |Elems(ebbs) - s.memo.Keys|
    decreases |ebbs|
  {
    if |ebbs| == 0 {
      assert Elems(ebbs) == {};
    } else {
      var s1 := EntryBlockFor(s, ebbs[0]).0;
      var tail := ebbs[1..];
      RequestAllCount(s1, tail);
      assert RequestAll(s, ebbs) == RequestAll(s1, tail);
      ElemsCons(ebbs);
      NewKeysStep(s.memo.Keys, ebbs[0], Elems(tail));
      assert s1.memo.Keys == s.memo.Keys + {ebbs[0]};
      assert s1.next == s.next + (if ebbs[0] in s.memo.Keys then 0 else 1);
    }
  }

  lemma NewKeysStep(k: set<Ebb>, e0: Ebb, rest: set<Ebb>)
    ensures k + {e0} + rest == k + ({e0} + rest)
    ensures |({e0} + rest) - k| == (if e0 in k then 0 else 1) + |rest - (k + {e0})|
  {
    if e0 in k {
      assert ({e0} + rest) - k == rest - (k + {e0});
    } else {
      var x := rest - (k + {e0});
      assert ({e0} + rest) - k == {e0} + x;
      assert e0 !in x;
    }
  }

  // ---------------------------------------------------------------------
  // Pass 1
  // ---------------------------------------------------------------------

  /** With distinct parameters (the SSA form guarantees them), the i-th
      parameter is bound to the i-th new phi, so every parameter has a phi
      of its own. */
  lemma TranslateEbbParamsDistinct(f: Function, s: State, ebb: Ebb)
    requires TranslateEbbParams(f, s, ebb).Ok?
    requires forall i, j :: 0 <= i < j < |f.ebbParams[ebb]| ==> f.ebbParams[ebb][i] != f.ebbParams[ebb][j]
    ensures forall i :: 0 <= i < |f.ebbParams[ebb]| ==>
              TranslateEbbParams(f, s, ebb).value.values[f.ebbParams[ebb][i]] == Phi(|s.phis| + i)
  {
    var params := f.ebbParams[ebb];
    var r := TranslateEbbParams(f, s, ebb).value;
    forall i | 0 <= i < |params|
      ensures r.values[params[i]] == Phi(|s.phis| + i)
    {
      assert params[i] in params;
      assert BoundToOwnPhi(r.values, params, |s.phis|, params[i]);
    }
  }

  // ---------------------------------------------------------------------
  // Edge stitching
  // ---------------------------------------------------------------------

  /** Number of pairs `zip` produces. */
  function Zipped(args: seq<Value>, params: seq<Value>): nat {
    if |args| < |params| then |args| else |params|
  }

  /** The phi of the k-th destination parameter. */
  function TargetPhi(values: map<Value, TV>, params: seq<Value>, k: nat): PhiId
    requires k < |params| && PhiBound(values, params[k])
  {
    values[params[k]].phi
  }

  /** The zipped destination parameters have pairwise distinct phis that
      all exist. */
  ghost predicate DistinctTargets(values: map<Value, TV>, phis: seq<PhiNode>, args: seq<Value>, params: seq<Value>) {
    && (forall k :: 0 <= k < Zipped(args, params) ==> PhiBound(values, params[k]) && TargetPhi(values, params, k) < |phis|)
    && (forall j, k :: 0 <= j < k < Zipped(args, params) ==> TargetPhi(values, params, j) != TargetPhi(values, params, k))
  }

  /** For every zipped pair (argument k, parameter k) the phi of parameter k
      gains exactly the pair (value of argument k, `from`); every other phi
      is left as it was. Arguments or parameters beyond the shorter list are
      ignored. */
  lemma {:induction false} StitchExact(values: map<Value, TV>, phis: seq<PhiNode>, args: seq<Value>, params: seq<Value>, from: Block)
    requires Stitch(values, phis, args, params, from).Ok?
    requires DistinctTargets(values, phis, args, params)
    ensures var r := Stitch(values, phis, args, params, from).value;
            && (forall k :: 0 <= k < Zipped(args, params) ==>
                  r[TargetPhi(values, params, k)]
                  == phis[TargetPhi(values, params, k)].(incoming := phis[TargetPhi(values, params, k)].incoming
                                                                   + [Incoming(values[args[k]].IntoIntValue(), from)]))
            && (forall q :: 0 <= q < |phis| && (forall k :: 0 <= k < Zipped(args, params) ==> TargetPhi(values, params, k) != q) ==>
                  r[q] == phis[q])
  {
    StitchGains(values, phis, args, params, from);
    StitchUntouched(values, phis, args, params, from);
  }

  /** The zipped phis gain exactly their pair. */
  lemma {:induction false} StitchGains(values: map<Value, TV>, phis: seq<PhiNode>, args: seq<Value>, params: seq<Value>, from: Block)
    requires Stitch(values, phis, args, params, from).Ok?
    requires DistinctTargets(values, phis, args, params)
    ensures var r := Stitch(values, phis, args, params, from).value;
            forall k :: 0 <= k < Zipped(args, params) ==>
              r[TargetPhi(values, params, k)]
              == phis[TargetPhi(values, params, k)].(incoming := phis[TargetPhi(values, params, k)].incoming
                                                               + [Incoming(values[args[k]].IntoIntValue(), from)])
    decreases |args|
  {
    var r := Stitch(values, phis, args, params, from).value;
    var n := Zipped(args, params);
    if n > 0 {
      var p := TargetPhi(values, params, 0);
      var phis' := AddIncoming(phis, p, Incoming(values[args[0]].IntoIntValue(), from));
      var args', params' := args[1..], params[1..];
      StitchTail(values, phis, args, params, from);
      StitchGains(values, phis', args', params', from);
      StitchUntouched(values, phis', args', params', from);
      forall k | 0 <= k < n
        ensures r[TargetPhi(values, params, k)]
                == phis[TargetPhi(values, params, k)].(incoming := phis[TargetPhi(values, params, k)].incoming
                                                                 + [Incoming(values[args[k]].IntoIntValue(), from)])
      {
        if k == 0 {
          assert forall j :: 0 <= j < n - 1 ==> TargetPhi(values, params', j) != p;
        } else {
          assert args'[k - 1] == args[k];
          assert TargetPhi(values, params', k - 1) == TargetPhi(values, params, k) != p;
        }
      }
    }
  }

  /** A phi no zipped parameter is bound to is left as it was. */
  lemma {:induction false} StitchUntouched(values: map<Value, TV>, phis: seq<PhiNode>, args: seq<Value>, params: seq<Value>, from: Block)
    requires Stitch(values, phis, args, params, from).Ok?
    requires DistinctTargets(values, phis, args, params)
    ensures var r := Stitch(values, phis, args, params, from).value;
            forall q :: 0 <= q < |phis| && (forall k :: 0 <= k < Zipped(args, params) ==> TargetPhi(values, params, k) != q) ==>
              r[q] == phis[q]
    decreases |args|
  {
    var r := Stitch(values, phis, args, params, from).value;
    var n := Zipped(args, params);
    if n > 0 {
      var p := TargetPhi(values, params, 0);
      var phis' := AddIncoming(phis, p, Incoming(values[args[0]].IntoIntValue(), from));
      var params' := params[1..];
      StitchTail(values, phis, args, params, from);
      StitchUntouched(values, phis', args[1..], params', from);
      forall q | 0 <= q < |phis| && (forall k :: 0 <= k < n ==> TargetPhi(values, params, k) != q)
        ensures r[q] == phis[q]
      {
        assert TargetPhi(values, params, 0) != q;
        forall j | 0 <= j < n - 1
          ensures TargetPhi(values, params', j) != q
        {
          assert TargetPhi(values, params, j + 1) != q;
        }
      }
    }
  }

  /** One step of stitching: the first zipped pair is added, then the rest
      of both lists is stitched, and the rest still has distinct targets. */
  lemma StitchTail(values: map<Value, TV>, phis: seq<PhiNode>, args: seq<Value>, params: seq<Value>, from: Block)
    requires Stitch(values, phis, args, params, from).Ok?
    requires DistinctTargets(values, phis, args, params)
    requires Zipped(args, params) > 0
    ensures var phis' := AddIncoming(phis, TargetPhi(values, params, 0), Incoming(values[args[0]].IntoIntValue(), from));
            && Stitch(values, phis', args[1..], params[1..], from) == Stitch(values, phis, args, params, from)
            && Zipped(args[1..], params[1..]) == Zipped(args, params) - 1
            && (forall k :: 0 <= k < Zipped(args, params) - 1 ==>
                  PhiBound(values, params[1..][k]) && TargetPhi(values, params[1..], k) == TargetPhi(values, params, k + 1))
            && DistinctTargets(values, phis', args[1..], params[1..])
  {
    var n := Zipped(args, params);
    assert forall k :: 0 <= k < n - 1 ==> params[1..][k] == params[k + 1];
  }

  /** `jump dst(args)`: the phi of each zipped destination parameter gains
      one pair from the block the jump sits in. */
  lemma JumpStitching(f: Function, s: State, dst: Ebb, args: seq<Value>)
    requires TranslateJump(f, s, Jump, dst, args).Ok?
    requires DistinctTargets(s.values, s.phis, args, f.ebbParams[dst])
    ensures var r := TranslateJump(f, s, Jump, dst, args).value;
            var params := f.ebbParams[dst];
            && (forall k :: 0 <= k < Zipped(args, params) ==>
                  r.phis[TargetPhi(s.values, params, k)].incoming
                  == s.phis[TargetPhi(s.values, params, k)].incoming + [Incoming(s.values[args[k]].IntoIntValue(), s.cur)])
            && (forall q :: 0 <= q < |s.phis| && (forall k :: 0 <= k < Zipped(args, params) ==> TargetPhi(s.values, params, k) != q) ==>
                  r.phis[q] == s.phis[q])
  {
    StitchExact(s.values, s.phis, args, f.ebbParams[dst], s.cur);
  }

  /** `brz c, dst(args)`: the condition is not an argument of the edge; the
      phi of each destination parameter zipped with `args[1..]` gains one
      pair from the block the branch sits in. */
  lemma BrzStitching(f: Function, s: State, dst: Ebb, args: seq<Value>)
    requires TranslateBranch(f, s, Brz, dst, args).Ok?
    requires DistinctTargets(s.values, s.phis, args[1..], f.ebbParams[dst])
    ensures var r := TranslateBranch(f, s, Brz, dst, args).value;
            var params := f.ebbParams[dst];
            && (forall k :: 0 <= k < Zipped(args[1..], params) ==>
                  r.phis[TargetPhi(s.values, params, k)].incoming
                  == s.phis[TargetPhi(s.values, params, k)].incoming + [Incoming(s.values[args[k + 1]].IntoIntValue(), s.cur)])
            && (forall q :: 0 <= q < |s.phis| && (forall k :: 0 <= k < Zipped(args[1..], params) ==> TargetPhi(s.values, params, k) != q) ==>
                  r.phis[q] == s.phis[q])
  {
    StitchExact(s.values, s.phis, args[1..], f.ebbParams[dst], s.cur);
    assert forall k :: 0 <= k < |args| - 1 ==> args[1..][k] == args[k + 1];
  }

  // ---------------------------------------------------------------------
  // Entry binding
  // ---------------------------------------------------------------------

  /** The entry-block parameters have pairwise distinct phis that exist. */
  ghost predicate DistinctEntryPhis(values: map<Value, TV>, phis: seq<PhiNode>, params: seq<Value>) {
    && (forall k :: 0 <= k < |params| ==> PhiBound(values, params[k]) && TargetPhi(values, params, k) < |phis|)
    && (forall j, k :: 0 <= j < k < |params| ==> TargetPhi(values, params, j) != TargetPhi(values, params, k))
  }

  lemma {:induction false} BindArgsExact(values: map<Value, TV>, phis: seq<PhiNode>, params: seq<Value>, arity: nat, from: Block, i: nat)
    requires i <= |params|
    requires BindArgs(values, phis, params, arity, from, i).Ok?
    requires DistinctEntryPhis(values, phis, params)
    ensures var r := BindArgs(values, phis, params, arity, from, i).value;
            && (forall k :: i <= k < |params| ==>
                  r[TargetPhi(values, params, k)].incoming == phis[TargetPhi(values, params, k)].incoming + [Incoming(Param(k), from)])
            && (forall k :: 0 <= k < |params| ==> r[TargetPhi(values, params, k)].block == phis[TargetPhi(values, params, k)].block)
            && (forall q :: 0 <= q < |phis| && (forall k :: i <= k < |params| ==> TargetPhi(values, params, k) != q) ==>
                  r[q] == phis[q])
    decreases |params| - i
  {
    if i < |params| {
      var p := TargetPhi(values, params, i);
      var phis' := AddIncoming(phis, p, Incoming(Param(i), from));
      assert DistinctEntryPhis(values, phis', params);
      BindArgsExact(values, phis', params, arity, from, i + 1);
    }
  }

  /** The synthetic entry block ends in an unconditional branch to the
      function's first block, and the phi of the i-th entry-block parameter
      gains exactly the pair (i-th formal parameter, synthetic block). */
  lemma BindEntryExact(f: Function, s: State, entryEbb: Ebb)
    requires BindEntry(f, s, entryEbb).Ok?
    requires DistinctEntryPhis(s.values, s.phis, f.ebbParams[entryEbb])
    ensures var (r, newBb) := BindEntry(f, s, entryEbb).value;
            var params := f.ebbParams[entryEbb];
            && r.code[|s.code|] == Emitted(newBb, Br(s.base))
            && newBb == s.next
            && (forall k :: 0 <= k < |params| ==>
                  r.phis[TargetPhi(s.values, params, k)].incoming
                  == s.phis[TargetPhi(s.values, params, k)].incoming + [Incoming(Param(k), newBb)])
            && (forall q :: 0 <= q < |s.phis| && (forall k :: 0 <= k < |params| ==> TargetPhi(s.values, params, k) != q) ==>
                  r.phis[q] == s.phis[q])
  {
    BindArgsExact(s.values, s.phis, f.ebbParams[entryEbb], |f.signature|, s.next, 0);
  }

  /** From an empty memo, the function's first block is the block of the
      first block in the layout, so the synthetic entry block jumps to the
      translation of the source's entry block. */
  lemma EntryJumpsToEntryEbb(next: Block, f: Function)
    requires TranslateFunctionFrom(map[], next, f).Ok?
    ensures var t := TranslateFunctionFrom(map[], next, f).value;
            && f.layout[0].ebb in t.memo
            && t.memo[f.layout[0].ebb] == next
            && Emitted(t.func.entry, Br(t.memo[f.layout[0].ebb])) in t.func.code
  {
    var s0 := Start(map[], next);
    var s1 := Pass1(f, s0, f.layout).value;
    var sa := TranslateEbbParams(f, s0, f.layout[0].ebb).value;
    assert sa.memo[f.layout[0].ebb] == next;
    assert Pass1(f, s0, f.layout) == Pass1(f, sa, f.layout[1..]);
    var s2 := Pass2(f, s1, f.layout).value;
    var (s3, entry) := BindEntry(f, s2, f.layout[0].ebb).value;
    assert s3.code[|s2.code|] == Emitted(entry, Br(s2.base));
  }

  // ---------------------------------------------------------------------
  // Program order
  // ---------------------------------------------------------------------

  /** Instructions are translated one after the other in program order:
      translating `a + b` translates `a`, then `b` from the state `a` left;
      a failure inside `a` is the failure of the whole block. */
  lemma {:induction false} TranslateInstsAppend(f: Function, s: State, a: seq<Inst>, b: seq<Inst>)
    ensures TranslateInsts(f, s, a).Err? ==> TranslateInsts(f, s, a + b) == TranslateInsts(f, s, a)
    ensures TranslateInsts(f, s, a).Ok? ==> TranslateInsts(f, s, a + b) == TranslateInsts(f, TranslateInsts(f, s, a).value, b)
    ensures |a| == 1 ==> TranslateInsts(f, s, a) == TranslateInstruction(f, s, a[0])
    decreases |a|
  {
    if |a| == 0 {
      assert a + b == b;
    } else {
      assert (a + b)[0] == a[0];
      assert (a + b)[1..] == a[1..] + b;
      var r0 := TranslateInstruction(f, s, a[0]);
      if r0.Ok? {
        TranslateInstsAppend(f, r0.value, a[1..], b);
        if |a| == 1 {
          assert TranslateInsts(f, r0.value, a[1..]) == Ok(r0.value);
        }
      }
    }
  }

  /** An instruction of a format the translator does not know is only
      printed: removing it from a block changes nothing about the block's
      translation. */
  lemma UnknownVariantSkipped(f: Function, s: State, a: seq<Inst>, x: string, rs: seq<Value>, b: seq<Inst>)
    ensures TranslateInsts(f, s, a + [Inst(OtherData(x), rs)] + b) == TranslateInsts(f, s, a + b)
  {
    var other := Inst(OtherData(x), rs);
    TranslateInstsAppend(f, s, a, [other] + b);
    TranslateInstsAppend(f, s, a, b);
    assert a + [other] + b == a + ([other] + b);
    if TranslateInsts(f, s, a).Ok? {
      var sa := TranslateInsts(f, s, a).value;
      TranslateInstsAppend(f, sa, [other], b);
    }
  }

  /** Pass 2 translates the layout's blocks one after the other in layout
      order, in the same sense. */
  lemma {:induction false} Pass2Append(f: Function, s: State, a: seq<LayoutEbb>, b: seq<LayoutEbb>)
    ensures Pass2(f, s, a).Err? ==> Pass2(f, s, a + b) == Pass2(f, s, a)
    ensures Pass2(f, s, a).Ok? ==> Pass2(f, s, a + b) == Pass2(f, Pass2(f, s, a).value, b)
    ensures |a| == 1 ==> Pass2(f, s, a) == TranslateEbb(f, s, a[0])
    decreases |a|
  {
    if |a| == 0 {
      assert a + b == b;
    } else {
      assert (a + b)[0] == a[0];
      assert (a + b)[1..] == a[1..] + b;
      var r0 := TranslateEbb(f, s, a[0]);
      if r0.Ok? {
        Pass2Append(f, r0.value, a[1..], b);
        if |a| == 1 {
          assert Pass2(f, r0.value, a[1..]) == Ok(r0.value);
        }
      }
    }
  }

  // ---------------------------------------------------------------------
  // Distinct phis across a function
  // ---------------------------------------------------------------------

  /** Values listed once each, as the parameters of an EBB are in SSA form. */
  ghost predicate Distinct(vs: seq<Value>) {
    forall j, k :: 0 <= j < k < |vs| ==> vs[j] != vs[k]
  }

  /** Every phi binding names an existing phi, and no phi is bound to two
      values. */
  ghost predicate PhiIdsOk(values: map<Value, TV>, nPhis: nat) {
    && (forall v :: PhiBound(values, v) ==> values[v].phi < nPhis)
    && (forall v, w :: PhiBound(values, v) && PhiBound(values, w) && v != w ==> values[v].phi != values[w].phi)
  }

  /** No instruction of the block defines `v`. */
  ghost predicate NotResultOf(v: Value, insts: seq<Inst>) {
    forall j :: 0 <= j < |insts| ==> v !in insts[j].results
  }

  /** No instruction of the layout defines `v`. */
  ghost predicate NotResultIn(v: Value, layout: seq<LayoutEbb>) {
    forall i :: 0 <= i < |layout| ==> NotResultOf(v, layout[i].insts)
  }

  /** Under injective phi bindings, a parameter list without repetitions
      whose members are all bound to phis has distinct, existing phis, as
      entry binding and edge stitching need. */
  lemma PhiIdsGiveDistinctPhis(values: map<Value, TV>, phis: seq<PhiNode>, params: seq<Value>)
    requires PhiIdsOk(values, |phis|) && Distinct(params)
    requires forall k :: 0 <= k < |params| ==> PhiBound(values, params[k])
    ensures DistinctEntryPhis(values, phis, params)
    ensures forall args :: DistinctTargets(values, phis, args, params)
  {
  }

  /** Binding `params` to the fresh phis `first ..` keeps phi bindings
      injective, whatever the parameters were bound to before. */
  lemma BindFreshPhiIds(before: map<Value, TV>, r: map<Value, TV>, params: seq<Value>, first: nat, n: nat)
    requires PhiIdsOk(before, first) && first + |params| <= n
    requires forall v :: v in params ==> BoundToOwnPhi(r, params, first, v)
    requires forall v :: v in before && v !in params ==> v in r && r[v] == before[v]
    requires r.Keys == before.Keys + set v | v in params
    ensures PhiIdsOk(r, n)
  {
    forall v | PhiBound(r, v) && v !in params
      ensures r[v] == before[v] && r[v].phi < first
    {
      assert v in before;
    }
    forall v, w | PhiBound(r, v) && PhiBound(r, w) && v != w && v in params && w in params
      ensures r[v].phi != r[w].phi
    {
      assert BoundToOwnPhi(r, params, first, v);
      assert BoundToOwnPhi(r, params, first, w);
    }
  }

  /** Pass 1's step binds each parameter to a new phi of its own and keeps
      the other phi bindings, so phi bindings stay injective. */
  lemma TranslateEbbParamsPhiIds(f: Function, s: State, ebb: Ebb)
    requires TranslateEbbParams(f, s, ebb).Ok? && PhiIdsOk(s.values, |s.phis|)
    ensures var r := TranslateEbbParams(f, s, ebb).value;
            PhiIdsOk(r.values, |r.phis|)
  {
    var r := TranslateEbbParams(f, s, ebb).value;
    BindFreshPhiIds(s.values, r.values, f.ebbParams[ebb], |s.phis|, |r.phis|);
  }

  lemma {:induction false} Pass1PhiIds(f: Function, s: State, layout: seq<LayoutEbb>)
    requires Pass1(f, s, layout).Ok? && PhiIdsOk(s.values, |s.phis|)
    ensures var r := Pass1(f, s, layout).value;
            PhiIdsOk(r.values, |r.phis|)
    decreases |layout|
  {
    if |layout| > 0 {
      TranslateEbbParamsPhiIds(f, s, layout[0].ebb);
      Pass1PhiIds(f, TranslateEbbParams(f, s, layout[0].ebb).value, layout[1..]);
    }
  }

  /** Every phi binding of `r` was already a binding of `s`. */
  ghost predicate NoNewPhiBinding(s: map<Value, TV>, r: map<Value, TV>) {
    forall v :: PhiBound(r, v) ==> v in s && r[v] == s[v]
  }

  lemma PhiIdsNarrow(s: map<Value, TV>, r: map<Value, TV>, n: nat)
    requires PhiIdsOk(s, n) && NoNewPhiBinding(s, r)
    ensures PhiIdsOk(r, n)
  {
  }

  /** A step of pass 2 creates no phi binding: it rebinds only the
      instruction's own results, and only to integers. */
  lemma TranslateInstructionPhiIds(f: Function, s: State, inst: Inst)
    requires TranslateInstruction(f, s, inst).Ok?
    ensures var r := TranslateInstruction(f, s, inst).value;
            && NoNewPhiBinding(s.values, r.values)
            && (PhiIdsOk(s.values, |s.phis|) ==> PhiIdsOk(r.values, |r.phis|))
            && forall v :: v in s.values && v !in inst.results ==> v in r.values && r.values[v] == s.values[v]
  {
    var r := TranslateInstruction(f, s, inst).value;
    assert NoNewPhiBinding(s.values, r.values);
    if PhiIdsOk(s.values, |s.phis|) {
      PhiIdsNarrow(s.values, r.values, |s.phis|);
    }
  }

  lemma {:induction false} TranslateInstsPhiIds(f: Function, s: State, insts: seq<Inst>)
    requires TranslateInsts(f, s, insts).Ok?
    ensures var r := TranslateInsts(f, s, insts).value;
            && NoNewPhiBinding(s.values, r.values)
            && (PhiIdsOk(s.values, |s.phis|) ==> PhiIdsOk(r.values, |r.phis|))
            && forall v :: v in s.values && NotResultOf(v, insts) ==> v in r.values && r.values[v] == s.values[v]
    decreases |insts|
  {
    if |insts| > 0 {
      var s1 := TranslateInstruction(f, s, insts[0]).value;
      var r := TranslateInsts(f, s, insts).value;
      TranslateInstructionPhiIds(f, s, insts[0]);
      TranslateInstsPhiIds(f, s1, insts[1..]);
      forall v | v in s.values && NotResultOf(v, insts)
        ensures NotResultOf(v, insts[1..]) && v !in insts[0].results
      {
        assert forall j :: 0 <= j < |insts| - 1 ==> insts[1..][j] == insts[j + 1];
      }
      if PhiIdsOk(s.values, |s.phis|) {
        PhiIdsNarrow(s.values, r.values, |s.phis|);
      }
    }
  }

  lemma {:induction false} Pass2PhiIds(f: Function, s: State, layout: seq<LayoutEbb>)
    requires Pass2(f, s, layout).Ok?
    ensures var r := Pass2(f, s, layout).value;
            && NoNewPhiBinding(s.values, r.values)
            && (PhiIdsOk(s.values, |s.phis|) ==> PhiIdsOk(r.values, |r.phis|))
            && forall v :: v in s.values && NotResultIn(v, layout) ==> v in r.values && r.values[v] == s.values[v]
    decreases |layout|
  {
    if |layout| > 0 {
      var (s0, bb) := EntryBlockFor(s, layout[0].ebb);
      TranslateInstsPhiIds(f, s0.(cur := bb), layout[0].insts);
      var s1 := TranslateEbb(f, s, layout[0]).value;
      var r := Pass2(f, s, layout).value;
      Pass2PhiIds(f, s1, layout[1..]);
      forall v | v in s.values && NotResultIn(v, layout)
        ensures NotResultIn(v, layout[1..]) && NotResultOf(v, layout[0].insts)
      {
        assert forall i :: 0 <= i < |layout| - 1 ==> layout[1..][i] == layout[i + 1];
      }
      if PhiIdsOk(s.values, |s.phis|) {
        PhiIdsNarrow(s.values, r.values, |s.phis|);
      }
    }
  }

  /** After pass 1 from an empty memo, the parameters of every layout EBB
      that lists no parameter twice have distinct, existing phis. */
  lemma Pass1DistinctPhis(next: Block, f: Function)
    requires Pass1(f, Start(map[], next), f.layout).Ok?
    ensures var s1 := Pass1(f, Start(map[], next), f.layout).value;
            forall i :: 0 <= i < |f.layout| && Distinct(f.ebbParams[f.layout[i].ebb]) ==>
              DistinctEntryPhis(s1.values, s1.phis, f.ebbParams[f.layout[i].ebb])
  {
    var s1 := Pass1(f, Start(map[], next), f.layout).value;
    Pass1PhiIds(f, Start(map[], next), f.layout);
    Pass1Binds(f, Start(map[], next), f.layout);
    forall i | 0 <= i < |f.layout| && Distinct(f.ebbParams[f.layout[i].ebb])
      ensures DistinctEntryPhis(s1.values, s1.phis, f.ebbParams[f.layout[i].ebb])
    {
      var params := f.ebbParams[f.layout[i].ebb];
      assert forall k :: 0 <= k < |params| ==> params[k] in params;
      PhiIdsGiveDistinctPhis(s1.values, s1.phis, params);
    }
  }

  /** When no instruction defines an EBB parameter (SSA form), pass 2
      keeps every parameter's phi, so the same holds after pass 2. */
  lemma Pass2DistinctPhis(next: Block, f: Function)
    requires Pass1(f, Start(map[], next), f.layout).Ok?
    requires Pass2(f, Pass1(f, Start(map[], next), f.layout).value, f.layout).Ok?
    requires forall i, v :: 0 <= i < |f.layout| && v in f.ebbParams[f.layout[i].ebb] ==> NotResultIn(v, f.layout)
    ensures var s2 := Pass2(f, Pass1(f, Start(map[], next), f.layout).value, f.layout).value;
            forall i :: 0 <= i < |f.layout| && Distinct(f.ebbParams[f.layout[i].ebb]) ==>
              DistinctEntryPhis(s2.values, s2.phis, f.ebbParams[f.layout[i].ebb])
  {
    var s1 := Pass1(f, Start(map[], next), f.layout).value;
    var s2 := Pass2(f, s1, f.layout).value;
    Pass1PhiIds(f, Start(map[], next), f.layout);
    Pass1Binds(f, Start(map[], next), f.layout);
    Pass2PhiIds(f, s1, f.layout);
    forall i | 0 <= i < |f.layout| && Distinct(f.ebbParams[f.layout[i].ebb])
      ensures DistinctEntryPhis(s2.values, s2.phis, f.ebbParams[f.layout[i].ebb])
    {
      var params := f.ebbParams[f.layout[i].ebb];
      forall k | 0 <= k < |params|
        ensures PhiBound(s2.values, params[k])
      {
        assert params[k] in params;
        assert NotResultIn(params[k], f.layout);
      }
      PhiIdsGiveDistinctPhis(s2.values, s2.phis, params);
    }
  }

  /** From an empty memo, when the entry EBB lists no parameter twice, the
      i-th formal parameter reaches exactly the phi the i-th entry parameter
      is bound to, from the function's entry block, and no other phi gains
      a pair from entry binding. */
  lemma EntryPhisReceiveParams(next: Block, f: Function)
    requires TranslateFunctionFrom(map[], next, f).Ok?
    requires |f.layout| > 0 && f.layout[0].ebb in f.ebbParams && Distinct(f.ebbParams[f.layout[0].ebb])
    ensures var t := TranslateFunctionFrom(map[], next, f).value;
            var s2 := Pass2(f, Pass1(f, Start(map[], next), f.layout).value, f.layout).value;
            var params := f.ebbParams[f.layout[0].ebb];
            && DistinctEntryPhis(s2.values, s2.phis, params)
            && (forall k :: 0 <= k < |params| ==>
                  t.func.phis[TargetPhi(s2.values, params, k)].incoming
                  == s2.phis[TargetPhi(s2.values, params, k)].incoming + [Incoming(Param(k), t.func.entry)])
            && (forall q :: 0 <= q < |s2.phis| && (forall k :: 0 <= k < |params| ==> TargetPhi(s2.values, params, k) != q) ==>
                  t.func.phis[q] == s2.phis[q])
  {
    var s1 := Pass1(f, Start(map[], next), f.layout).value;
    var s2 := Pass2(f, s1, f.layout).value;
    var params := f.ebbParams[f.layout[0].ebb];
    Pass1PhiIds(f, Start(map[], next), f.layout);
    Pass2PhiIds(f, s1, f.layout);
    assert BindEntry(f, s2, f.layout[0].ebb).Ok?;
    PhiIdsGiveDistinctPhis(s2.values, s2.phis, params);
    BindEntryExact(f, s2, f.layout[0].ebb);
  }

  // ---------------------------------------------------------------------
  // Meaning of the emitted instructions
  // ---------------------------------------------------------------------

  /** `iadd` and `isub` bind their result to the wrapping sum or difference
      of the values their operands denote. */
  lemma IntArithMeaning(s: State, inst: Inst, opcode: Opcode, a0: Value, a1: Value, fr: Frame)
    requires Positioned(s) && TranslateBinary(s, inst, opcode, a0, a1).Ok?
    ensures var r := TranslateBinary(s, inst, opcode, a0, a1).value;
            var lhs := s.values[a0].IntoIntValue();
            var rhs := s.values[a1].IntoIntValue();
            var res := r.values[inst.results[0]].IntoIntValue();
            && CodeScoped(s.code) && RefsBelow(lhs, |s.code|) && RefsBelow(rhs, |s.code|)
            && CodeScoped(r.code) && RefsBelow(res, |r.code|)
            && (opcode == Iadd ==> Eval(r.code, fr, res) == (Eval(s.code, fr, lhs) + Eval(s.code, fr, rhs)) % TWO_64)
            && (opcode == Isub ==> Eval(r.code, fr, res) == (Eval(s.code, fr, lhs) - Eval(s.code, fr, rhs)) % TWO_64)
  {
    var r := TranslateBinary(s, inst, opcode, a0, a1).value;
    TranslateBinaryInv(s, inst, opcode, a0, a1);
    assert TvOk(s.values[a0], |s.code|, |s.phis|);
    assert TvOk(s.values[a1], |s.code|, |s.phis|);
    var more := [r.code[|s.code|]];
    assert r.code == s.code + more;
    EvalAppend(s.code, more, fr, s.values[a0].IntoIntValue());
    EvalAppend(s.code, more, fr, s.values[a1].IntoIntValue());
  }

  /** `iconst imm` binds its result to the 64-bit pattern of `imm`, from
      which the signed immediate is recovered unchanged. */
  lemma IconstMeaning(s: State, inst: Inst, imm: i64, fr: Frame)
    requires Inv(s) && TranslateUnaryImm(s, inst, Iconst, imm).Ok?
    ensures var r := TranslateUnaryImm(s, inst, Iconst, imm).value;
            var res := r.values[inst.results[0]].IntoIntValue();
            && res.Const?
            && CodeScoped(r.code)
            && Eval(r.code, fr, res) == (imm as int) % TWO_64
            && ToI64(Eval(r.code, fr, res)) == imm
  {
    U64RoundTrip(imm);
  }

  /** `brz c` compares `c` with zero: the comparison denotes 1 exactly when
      `c` denotes 0, and the branch goes to the destination's block on 1 and
      to a block created for the fall-through otherwise, where translation
      continues. */
  lemma BrzMeaning(f: Function, s: State, dst: Ebb, args: seq<Value>, fr: Frame)
    requires Positioned(s) && TranslateBranch(f, s, Brz, dst, args).Ok?
    ensures var r := TranslateBranch(f, s, Brz, dst, args).value;
            var c := s.values[args[0]].IntoIntValue();
            && CodeScoped(s.code) && RefsBelow(c, |s.code|)
            && CodeScoped(r.code) && |r.code| == |s.code| + 2
            && Eval(r.code, fr, InstResult(|s.code|)) == (if Eval(s.code, fr, c) == 0 then 1 else 0)
            && r.code[|s.code| + 1] == Emitted(s.cur, CondBr(InstResult(|s.code|), r.memo[dst], r.cur))
            && r.cur !in s.memo.Values && r.cur != r.memo[dst] && s.next <= r.cur
  {
    var r := TranslateBranch(f, s, Brz, dst, args).value;
    TranslateBranchInv(f, s, Brz, dst, args);
    assert TvOk(s.values[args[0]], |s.code|, |s.phis|);
    var more := r.code[|s.code|..];
    assert r.code == s.code + more;
    EvalAppend(s.code, more, fr, s.values[args[0]].IntoIntValue());
  }

  // ---------------------------------------------------------------------
  // Immediate reinterpretation
  // ---------------------------------------------------------------------

  /** `as u64` and back is the identity on signed immediates. */
  lemma U64RoundTrip(x: i64)
    ensures ToI64(ToU64(x)) == x
  {
  }

  /** Back and `as u64` is the identity on 64-bit patterns: the
      reinterpretation is a bijection. */
  lemma I64RoundTrip(u: nat)
    requires u < TWO_64
    ensures ToU64(ToI64(u)) == u
  {
  }

  lemma MinusOneIsAllOnes()
    ensures ToU64(-1) == 0xFFFF_FFFF_FFFF_FFFF
  {
  }
}
