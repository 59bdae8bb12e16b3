/**
 What every construct of an expression means, and which type it has, in terms of its parts and of the
 histories its lookups speak of.
 */
module Meanings {
  import opened Values
  import opened Expressions
  import opened Stores
  import M = Evaluator
  import H = Histories

  // ---------- lookups in histories ----------

  /**
   What every lookup answers in the step `row` after the steps `past`: the last value so far; the value
   of this step or none; the value of this step or a panic; the `k`-th most recent value before it.
   */
  lemma LookupsMean(spec: M.Spec, p: Prims, past: H.Trace, row: H.Row, o: nat, x: StreamRef, k: nat)
    ensures var c := H.DeclarativeCtx(spec, past, row, o);
            var now := H.ValueIn(row, x);
            var all, before := H.History(past + [row], x), H.History(past, x);
            && EvalExpr(p, StreamAccess(x, Hold), c) == Ok(if all == [] then Value.None else all[|all| - 1])
            && EvalExpr(p, StreamAccess(x, Optional), c) == Ok(if now.Just? then now.value else Value.None)
            && EvalExpr(p, StreamAccess(x, Sync), c) == (if now.Just? then Ok(now.value) else Panic)
            && (k >= 1 ==> EvalExpr(p, OffsetLookup(x, PastDiscreteOffset(k)), c)
                           == Ok(if k <= |before| then before[|before| - k] else Value.None))
  {
    H.HistorySnoc(past, row, x);
  }

  /** A lookup in the future, or by a time, is not implemented. */
  lemma OtherLookupsPanic(p: Prims, x: StreamRef, k: nat, c: Ctx)
    ensures EvalExpr(p, OffsetLookup(x, FutureDiscreteOffset(k)), c).Panic?
    ensures EvalExpr(p, OffsetLookup(x, FutureRealTimeOffset(k)), c).Panic?
    ensures EvalExpr(p, OffsetLookup(x, PastRealTimeOffset(k)), c).Panic?
  {
  }

  /** A history holds exactly the values of the stream, in the order of the steps. */
  lemma HistoryMeans(past: H.Trace, row: H.Row, i: nat, o: nat)
    ensures H.History([], InRef(i)) == [] == H.History([], OutRef(o))
    ensures H.History(past + [row], InRef(i))
            == if i in row.ins then H.History(past, InRef(i)) + [row.ins[i]] else H.History(past, InRef(i))
    ensures H.History(past + [row], OutRef(o))
            == if o in row.outs then H.History(past, OutRef(o)) + [row.outs[o]] else H.History(past, OutRef(o))
  {
    H.HistorySnoc(past, row, InRef(i));
    H.HistorySnoc(past, row, OutRef(o));
  }

  /** The values that windows aggregate are those of the history, with the times of their steps. */
  lemma {:induction false} TimedHistoryMeans(t: H.Trace, x: StreamRef)
    ensures |H.TimedHistory(t, x)| == |H.History(t, x)|
    ensures forall i | 0 <= i < |H.History(t, x)| :: H.TimedHistory(t, x)[i].v == H.History(t, x)[i]
    ensures t != [] && H.ValueIn(t[|t| - 1], x).Just? ==>
              var h := H.TimedHistory(t, x); h != [] && h[|h| - 1].ts == t[|t| - 1].ts
  {
    if t != [] {
      TimedHistoryMeans(t[..|t| - 1], x);
    }
  }

  /** A trigger is reported, once, in every step in which it is evaluated to true, with its time; nothing else is. */
  lemma ReportsMean(spec: M.Spec, past: H.Trace, row: H.Row, o: nat, ts: Time)
    ensures H.Fired(spec, []) == multiset{}
    ensures H.Fired(spec, past + [row])[(o, ts)]
            == H.Fired(spec, past)[(o, ts)]
               + if o < |spec.outputs| && spec.outputs[o].isTrigger && o in row.outs && row.outs[o] == Bool(true)
                    && row.ts == ts then 1 else 0
  {
    assert (past + [row])[..|past|] == past;
  }

  /**
   A lookup of a linked window answers its aggregate of the values of its target, an own value of
   this step excepted.
   */
  lemma WindowMeans(spec: M.Spec, p: Prims, past: H.Trace, row: H.Row, o: nat, w: nat)
    requires w < |spec.windows| && w in spec.linked
    ensures var target := spec.windows[w].target;
            EvalExpr(p, WindowLookup(w), H.DeclarativeCtx(spec, past, row, o))
            == spec.windows[w].value(H.TimedHistory(if target == OutRef(o) then past else past + [row], target), row.ts)
  {
    var target := spec.windows[w].target;
    var t := if target == OutRef(o) then past else past + [row];
    WindowLookupMeans(spec, p, past, row, o, w);
    assert H.SourceHistory(t, Just(target)) == H.TimedHistory(t, target);
  }

  lemma WindowLookupMeans(spec: M.Spec, p: Prims, past: H.Trace, row: H.Row, o: nat, w: nat)
    requires w < |spec.windows| && w in spec.linked
    ensures var src := Just(spec.windows[w].target);
            EvalExpr(p, WindowLookup(w), H.DeclarativeCtx(spec, past, row, o))
            == spec.windows[w].value(H.SourceHistory(if src == Just(OutRef(o)) then past else past + [row], src),
                                     row.ts)
  {
    assert M.Source(spec, w) == Just(spec.windows[w].target);
  }

  // ---------- values ----------

  lemma ConstantsMean(p: Prims, b: bool, u: nat, i: int, f: real, s: string, c: Ctx)
    ensures EvalExpr(p, LoadConstant(BoolC(b)), c) == Ok(Bool(b))
    ensures EvalExpr(p, LoadConstant(UIntC(u)), c) == Ok(Unsigned(u))
    ensures EvalExpr(p, LoadConstant(IntC(i)), c) == Ok(Signed(i))
    ensures EvalExpr(p, LoadConstant(FloatC(f)), c) == Ok(Float(f))
    ensures EvalExpr(p, LoadConstant(StrC(s)), c) == Ok(Str(s))
  {
  }

  /** A strict operator has a value exactly if its operands have values on which it has one, left before right. */
  lemma StrictMeans(p: Prims, op: ArithLogOp, a: Expr, b: Expr, c: Ctx, v: Value)
    requires op != And && op != Or
    ensures op in {Not, Neg, BitNot} ==>
              (EvalExpr(p, ArithLog(op, [a]), c) == Ok(v) <==>
               exists x :: EvalExpr(p, a, c) == Ok(x) && p.unary(op, x) == Ok(v))
    ensures op !in {Not, Neg, BitNot} ==>
              (EvalExpr(p, ArithLog(op, [a, b]), c) == Ok(v) <==>
               exists x, y :: EvalExpr(p, a, c) == Ok(x) && EvalExpr(p, b, c) == Ok(y) && p.binary(op, x, y) == Ok(v))
  {
    assert [a][0] == a && [a, b][0] == a && [a, b][1] == b;
    var x, y := EvalExpr(p, a, c), EvalExpr(p, b, c);
    if x.Ok? && y.Ok? {
      assert EvalExpr(p, a, c) == Ok(x.value) && EvalExpr(p, b, c) == Ok(y.value);
    }
  }

  /** Conjunction and disjunction evaluate their right side exactly if the left side does not decide. */
  lemma LazyMeans(p: Prims, a: Expr, b: Expr, c: Ctx)
    ensures var l, r := EvalExpr(p, a, c), EvalExpr(p, b, c);
            && EvalExpr(p, ArithLog(And, [a, b]), c)
               == (if l == Ok(Bool(false)) then Ok(Bool(false)) else if l == Ok(Bool(true)) then r else Panic)
            && EvalExpr(p, ArithLog(Or, [a, b]), c)
               == (if l == Ok(Bool(true)) then Ok(Bool(true)) else if l == Ok(Bool(false)) then r else Panic)
  {
    assert [a, b][0] == a && [a, b][1] == b;
  }

  /** Exactly the chosen branch is evaluated. */
  lemma BranchMeans(p: Prims, a: Expr, b: Expr, d: Expr, c: Ctx)
    ensures EvalExpr(p, a, c) == Ok(Bool(true)) ==> EvalExpr(p, Ite(a, b, d), c) == EvalExpr(p, b, c)
    ensures EvalExpr(p, a, c) == Ok(Bool(false)) ==> EvalExpr(p, Ite(a, b, d), c) == EvalExpr(p, d, c)
    ensures EvalExpr(p, a, c) !in {Ok(Bool(true)), Ok(Bool(false))} ==> EvalExpr(p, Ite(a, b, d), c).Panic?
  {
  }

  /** A tuple has a value exactly if every entry has one, and then holds them in order. */
  lemma {:induction false} EntriesMean(p: Prims, es: seq<Expr>, c: Ctx, vs: seq<Value>)
    ensures EvalAll(p, es, c) == Ok(vs) <==>
            |vs| == |es| && forall i | 0 <= i < |es| :: EvalExpr(p, es[i], c) == Ok(vs[i])
    decreases |es|
  {
    if es != [] {
      if vs != [] {
        EntriesMean(p, es[1..], c, vs[1..]);
        assert vs == [vs[0]] + vs[1..];
        assert forall i | 1 <= i < |es| :: es[i] == es[1..][i - 1];
        assert forall i | 1 <= i < |vs| :: vs[i] == vs[1..][i - 1];
      }
    }
  }

  lemma TupleMeans(p: Prims, es: seq<Expr>, c: Ctx, v: Value)
    ensures EvalExpr(p, TupleExpr(es), c) == Ok(v) <==>
            v.Tuple? && |v.entries| == |es| && forall i | 0 <= i < |es| :: EvalExpr(p, es[i], c) == Ok(v.entries[i])
  {
    if v.Tuple? {
      EntriesMean(p, es, c, v.entries);
    }
  }

  lemma ProjectionMeans(p: Prims, tuple: Expr, num: nat, c: Ctx, v: Value)
    ensures EvalExpr(p, TupleAccess(tuple, num), c) == Ok(v) <==>
            exists es :: EvalExpr(p, tuple, c) == Ok(Tuple(es)) && num < |es| && es[num] == v
  {
    var r := EvalExpr(p, tuple, c);
    if r.Ok? && r.value.Tuple? {
      assert r == Ok(Tuple(r.value.entries));
    }
  }

  /** The library functions of one and of two arguments, of which no others are modelled. */
  lemma CallMeans(p: Prims, name: string, args: seq<Expr>, c: Ctx, v: Value)
    ensures name in {"sqrt", "sin", "cos", "arctan", "abs"} && |args| == 1 ==>
              (EvalExpr(p, Function(name, args), c) == Ok(v) <==>
               exists x :: EvalExpr(p, args[0], c) == Ok(x) && p.function1(name, x) == Ok(v))
    ensures name in {"min", "max"} && |args| == 2 ==>
              (EvalExpr(p, Function(name, args), c) == Ok(v) <==>
               exists x, y :: EvalExpr(p, args[0], c) == Ok(x) && EvalExpr(p, args[1], c) == Ok(y)
                              && p.function2(name, x, y) == Ok(v))
    ensures name !in {"sqrt", "sin", "cos", "arctan", "abs", "min", "max"} ==>
              EvalExpr(p, Function(name, args), c).Panic?
  {
    if |args| >= 1 && EvalExpr(p, args[0], c).Ok? {
      assert EvalExpr(p, args[0], c) == Ok(EvalExpr(p, args[0], c).value);
    }
    if |args| >= 2 && EvalExpr(p, args[1], c).Ok? {
      assert EvalExpr(p, args[1], c) == Ok(EvalExpr(p, args[1], c).value);
    }
  }

  /** A conversion to the same type keeps the number, and others cast it; anything else is a panic. */
  lemma ConversionMeans(p: Prims, from: Type, to: Type, inner: Expr, c: Ctx, x: Value)
    requires EvalExpr(p, inner, c) == Ok(x)
    ensures EvalExpr(p, Convert(from, to, inner), c)
            == if to in {UIntT, IntT, FloatT}
                  && ((from == UIntT && x.Unsigned?) || (from == IntT && x.Signed?) || (from == FloatT && x.Float?))
               then Ok(if from == to then x else p.cast(from, to, x)) else Panic
  {
  }

  /** The default stands in exactly for no value. */
  lemma DefaultMeans(p: Prims, inner: Expr, default: Expr, c: Ctx)
    ensures EvalExpr(p, Default(inner, default), c)
            == if EvalExpr(p, inner, c) == Ok(Value.None) then EvalExpr(p, default, c) else EvalExpr(p, inner, c)
  {
  }

  // ---------- types ----------

  lemma ConstantsHaveTypes(s: Signature, b: bool, u: nat, i: int, f: real, str: string)
    ensures TypeOf(s, LoadConstant(BoolC(b))) == Ok(BoolT)
    ensures TypeOf(s, LoadConstant(UIntC(u))) == Ok(UIntT)
    ensures TypeOf(s, LoadConstant(IntC(i))) == Ok(IntT)
    ensures TypeOf(s, LoadConstant(FloatC(f))) == Ok(FloatT)
    ensures TypeOf(s, LoadConstant(StrC(str))) == Ok(StringT)
  {
  }

  lemma LookupsHaveTypes(s: Signature, x: StreamRef, k: nat, w: nat)
    ensures TypeOf(s, StreamAccess(x, Sync)) == Ok(s.stream(x))
    ensures TypeOf(s, StreamAccess(x, Hold)) == TypeOf(s, StreamAccess(x, Optional)) == Ok(OptionT(s.stream(x)))
    ensures TypeOf(s, OffsetLookup(x, PastDiscreteOffset(k))) == Ok(OptionT(s.stream(x)))
    ensures TypeOf(s, WindowLookup(w)) == Ok(s.window(w))
  {
  }

  lemma BranchesHaveTypes(s: Signature, a: Expr, b: Expr, d: Expr, t: Type)
    ensures TypeOf(s, Ite(a, b, d)) == Ok(t) <==>
            TypeOf(s, a) == Ok(BoolT) && TypeOf(s, b) == Ok(t) && TypeOf(s, d) == Ok(t)
    ensures TypeOf(s, Default(a, b)) == Ok(t) <==> TypeOf(s, a) == Ok(OptionT(t)) && TypeOf(s, b) == Ok(t)
  {
  }

  lemma ProjectionsHaveTypes(s: Signature, tuple: Expr, num: nat, t: Type)
    ensures TypeOf(s, TupleAccess(tuple, num)) == Ok(t) <==>
            TypeOf(s, tuple).Ok? && TypeOf(s, tuple).value.TupleT? && num < |TypeOf(s, tuple).value.tys|
            && TypeOf(s, tuple).value.tys[num] == t
  {
  }

  lemma ConversionsHaveTypes(s: Signature, from: Type, to: Type, inner: Expr, t: Type)
    ensures TypeOf(s, Convert(from, to, inner)) == Ok(t) <==>
            TypeOf(s, inner) == Ok(from) && t == to && from in {UIntT, IntT, FloatT} && to in {UIntT, IntT, FloatT}
  {
  }

  /** The types of a list of expressions are the types of each. */
  lemma {:induction false} EntriesHaveTypes(s: Signature, es: seq<Expr>, tys: seq<Type>)
    ensures TypesOf(s, es) == Ok(tys) <==>
            |tys| == |es| && forall i | 0 <= i < |es| :: TypeOf(s, es[i]) == Ok(tys[i])
    decreases |es|
  {
    if es != [] && tys != [] {
      EntriesHaveTypes(s, es[1..], tys[1..]);
      assert tys == [tys[0]] + tys[1..];
      assert forall i | 1 <= i < |es| :: es[i] == es[1..][i - 1];
      assert forall i | 1 <= i < |tys| :: tys[i] == tys[1..][i - 1];
    }
  }

  /** What the operators, functions and tuples make of the types of their operands. */
  lemma OperandsHaveTypes(s: Signature, op: ArithLogOp, name: string, es: seq<Expr>, tys: seq<Type>, t: Type)
    requires TypesOf(s, es) == Ok(tys)
    ensures TypeOf(s, TupleExpr(es)) == Ok(TupleT(tys))
    ensures TypeOf(s, ArithLog(op, es)) == Ok(t) <==>
            || (op in {Not, Neg, BitNot} && |tys| == 1 && s.unary(op, tys[0]) == Ok(t))
            || (op in {And, Or} && tys == [BoolT, BoolT] && t == BoolT)
            || (op !in {Not, Neg, BitNot, And, Or} && |tys| == 2 && s.binary(op, tys[0], tys[1]) == Ok(t))
    ensures TypeOf(s, Function(name, es)) == Ok(t) <==>
            || (name in {"sqrt", "sin", "cos", "arctan", "abs"} && |tys| == 1 && s.function1(name, tys[0]) == Ok(t))
            || (name in {"min", "max"} && |tys| == 2 && s.function2(name, tys[0], tys[1]) == Ok(t))
  {
  }
}
