/** The closure compiler, and its agreement with the tree interpreter. */
module Closures {
  import opened Values
  import opened Expressions

  /** A compiled expression: executing it against a context yields a value or panics. */
  type Code = Ctx -> Outcome<Value>

  /** `&&` and `||` stop early when the left operand equals `absorbing`, and insist on a Boolean right operand. */
  function LazyOp(codes: seq<Code>, absorbing: bool): Code {
    (c: Ctx) =>
      if |codes| < 1 then Panic else
      var lhs :- codes[0](c);
      var b :- GetBool(lhs);
      if b == absorbing then Ok(Bool(absorbing))
      else if |codes| < 2 then Panic
      else
        var res :- codes[1](c);
        if res.Bool? then Ok(res) else Panic
  }

  function UnaryOp(p: Prims, codes: seq<Code>, op: ArithLogOp): Code {
    (c: Ctx) =>
      if |codes| < 1 then Panic else
      var v :- codes[0](c);
      p.unary(op, v)
  }

  function BinaryOp(p: Prims, codes: seq<Code>, op: ArithLogOp): Code {
    (c: Ctx) =>
      if |codes| < 1 then Panic else
      var lhs :- codes[0](c);
      if |codes| < 2 then Panic else
      var rhs :- codes[1](c);
      p.binary(op, lhs, rhs)
  }

  /** Compilation panics on constructs the compiler does not support, wherever they occur. */
  function Compile(p: Prims, e: Expr): Outcome<Code>
    decreases e, 1
  {
    match e
    case LoadConstant(k) =>
      var v := ConstantValue(k);
      Ok((_: Ctx) => Ok(v))
    case ArithLog(op, operands) =>
      var codes :- CompileAll(p, operands);
      if op.And? then Ok(LazyOp(codes, false))
      else if op.Or? then Ok(LazyOp(codes, true))
      else if IsUnary(op) then Ok(UnaryOp(p, codes, op))
      else Ok(BinaryOp(p, codes, op))
    case OffsetLookup(x, offset) =>
      if offset.PastDiscreteOffset? then Ok((c: Ctx) => c.past(x, offset.u)) else Panic
    case StreamAccess(x, kind) => Ok((c: Ctx) => LookupStream(c, x, kind))
    case WindowLookup(w) => Ok((c: Ctx) => c.window(w))
    case Ite(condition, consequence, alternative) =>
      var f :- Compile(p, condition);
      var g :- Compile(p, consequence);
      var h :- Compile(p, alternative);
      Ok((c: Ctx) =>
        var v :- f(c);
        var b :- GetBool(v);
        if b then g(c) else h(c))
    case TupleExpr(elements) =>
      var codes :- CompileAll(p, elements);
      Ok((c: Ctx) =>
        var vs :- ExecuteAll(codes, c);
        Ok(Tuple(vs)))
    case TupleAccess(tuple, num) =>
      var f :- Compile(p, tuple);
      Ok((c: Ctx) =>
        var v :- f(c);
        if v.Tuple? && num < |v.entries| then Ok(v.entries[num]) else Panic)
    case Function(name, args) =>
      if |args| == 0 then Panic else
      var f :- Compile(p, args[0]);
      if IsFunction1(name) then
        Ok((c: Ctx) =>
          var v :- f(c);
          p.function1(name, v))
      else if IsFunction2(name) && |args| == 2 then
        Ok((c: Ctx) =>
          var fst :- f(c);
          var g :- Compile(p, args[1]);  // the second argument is compiled on every execution
          var snd :- g(c);
          p.function2(name, fst, snd))
      else Panic
    case Convert(from, to, inner) =>
      var f :- Compile(p, inner);
      if !Numeric(from) || !Numeric(to) then Panic
      else if from == to then Ok(f)
      else
        Ok((c: Ctx) =>
          var v :- f(c);
          if MatchesNumeric(v, from) then Ok(p.cast(from, to, v)) else Panic)
    case Default(inner, default) =>
      var f :- Compile(p, inner);
      var g :- Compile(p, default);
      Ok((c: Ctx) =>
        var v :- f(c);
        if v.None? then g(c) else Ok(v))
  }

  function CompileAll(p: Prims, es: seq<Expr>): (r: Outcome<seq<Code>>)
    ensures r.Ok? ==> |r.value| == |es|
    decreases es, 0
  {
    if es == [] then Ok([]) else
    var f :- Compile(p, es[0]);
    var fs :- CompileAll(p, es[1..]);
    Ok([f] + fs)
  }

  function ExecuteAll(codes: seq<Code>, c: Ctx): Outcome<seq<Value>> {
    if codes == [] then Ok([]) else
    var v :- codes[0](c);
    var vs :- ExecuteAll(codes[1..], c);
    Ok([v] + vs)
  }

  lemma {:induction false} CompiledElement(p: Prims, es: seq<Expr>, i: nat)
    requires CompileAll(p, es).Ok? && i < |es|
    ensures Compile(p, es[i]) == Ok(CompileAll(p, es).value[i])
  {
    if i > 0 {
      CompiledElement(p, es[1..], i - 1);
    }
  }

  /** Two outcomes that do not contradict each other: if neither panics, they are the same. */
  ghost predicate Compatible<T>(a: Outcome<T>, b: Outcome<T>) {
    a.Ok? && b.Ok? ==> a == b
  }

  /**
   Whatever the expression and however ill-typed the context: the compiled form and the
   interpreter never return two different values.
   */
  lemma {:induction false} NeverDifferentValues(p: Prims, e: Expr, c: Ctx)
    requires Compile(p, e).Ok?
    ensures Compatible(Compile(p, e).value(c), EvalExpr(p, e, c))
    decreases e, 1
  {
    match e
    case LoadConstant(_) =>
    case ArithLog(op, operands) =>
      forall i | 0 <= i < |operands|
        ensures Compatible(CompileAll(p, operands).value[i](c), EvalExpr(p, operands[i], c))
      {
        CompiledElement(p, operands, i);
        NeverDifferentValues(p, operands[i], c);
      }
    case OffsetLookup(x, offset) =>
    case StreamAccess(x, kind) =>
    case WindowLookup(w) =>
    case Ite(condition, consequence, alternative) =>
      NeverDifferentValues(p, condition, c);
      NeverDifferentValues(p, consequence, c);
      NeverDifferentValues(p, alternative, c);
    case TupleExpr(elements) =>
      NeverDifferentTuples(p, elements, c);
    case TupleAccess(tuple, _) =>
      NeverDifferentValues(p, tuple, c);
    case Function(name, args) =>
      NeverDifferentValues(p, args[0], c);
      if IsFunction2(name) && Compile(p, args[1]).Ok? {
        NeverDifferentValues(p, args[1], c);
      }
    case Convert(from, to, inner) =>
      NeverDifferentValues(p, inner, c);
    case Default(inner, default) =>
      NeverDifferentValues(p, inner, c);
      NeverDifferentValues(p, default, c);
  }

  lemma {:induction false} NeverDifferentTuples(p: Prims, es: seq<Expr>, c: Ctx)
    requires CompileAll(p, es).Ok?
    ensures Compatible(ExecuteAll(CompileAll(p, es).value, c), EvalAll(p, es, c))
    decreases es, 0
  {
    if es != [] {
      NeverDifferentValues(p, es[0], c);
      NeverDifferentTuples(p, es[1..], c);
      assert CompileAll(p, es).value[1..] == CompileAll(p, es[1..]).value;
    }
  }

  /** The expression compiles, and executing it is interpreting it. */
  ghost predicate Agrees(p: Prims, e: Expr, c: Ctx) {
    Compile(p, e).Ok? && Compile(p, e).value(c) == EvalExpr(p, e, c)
  }

  ghost predicate AllAgree(p: Prims, es: seq<Expr>, c: Ctx) {
    CompileAll(p, es).Ok? && forall i | 0 <= i < |es| :: CompileAll(p, es).value[i](c) == EvalExpr(p, es[i], c)
  }

  lemma {:induction false} TupleAgrees(p: Prims, es: seq<Expr>, c: Ctx)
    requires AllAgree(p, es, c)
    ensures ExecuteAll(CompileAll(p, es).value, c) == EvalAll(p, es, c)
    decreases es
  {
    if es != [] {
      var codes := CompileAll(p, es).value;
      assert codes[1..] == CompileAll(p, es[1..]).value;
      assert AllAgree(p, es[1..], c) by {
        forall i | 0 <= i < |es| - 1 ensures codes[1..][i](c) == EvalExpr(p, es[1..][i], c) {
          assert codes[i + 1](c) == EvalExpr(p, es[i + 1], c);
        }
      }
      TupleAgrees(p, es[1..], c);
    }
  }

  /** The compiled lazy operator insists on a Boolean right operand, which typing guarantees. */
  lemma LazyAgrees(p: Prims, op: ArithLogOp, operands: seq<Expr>, c: Ctx)
    requires (op.And? || op.Or?) && |operands| == 2 && AllAgree(p, operands, c)
    requires EvalExpr(p, operands[1], c).Ok? ==> EvalExpr(p, operands[1], c).value.Bool?
    ensures Agrees(p, ArithLog(op, operands), c)
  {
    var codes := CompileAll(p, operands).value;
    assert codes[0](c) == EvalExpr(p, operands[0], c) && codes[1](c) == EvalExpr(p, operands[1], c);
  }

  lemma StrictAgrees(p: Prims, op: ArithLogOp, operands: seq<Expr>, c: Ctx)
    requires !op.And? && !op.Or? && AllAgree(p, operands, c)
    ensures Agrees(p, ArithLog(op, operands), c)
  {
  }

  lemma CallAgrees(p: Prims, name: string, args: seq<Expr>, c: Ctx)
    requires (IsFunction1(name) && |args| == 1) || (IsFunction2(name) && |args| == 2)
    requires Agrees(p, args[0], c) && (|args| == 2 ==> Agrees(p, args[1], c))
    ensures Agrees(p, Function(name, args), c)
  {
  }

  lemma ConvertAgrees(p: Prims, from: Type, to: Type, inner: Expr, c: Ctx)
    requires Numeric(from) && Numeric(to) && Agrees(p, inner, c)
    requires EvalExpr(p, inner, c).Ok? ==> Matches(EvalExpr(p, inner, c).value, from)
    ensures Agrees(p, Convert(from, to, inner), c)
  {
  }

  lemma IteAgrees(p: Prims, a: Expr, b: Expr, d: Expr, c: Ctx)
    requires Agrees(p, a, c) && Agrees(p, b, c) && Agrees(p, d, c)
    ensures Agrees(p, Ite(a, b, d), c)
  {
  }

  lemma DefaultAgrees(p: Prims, inner: Expr, default: Expr, c: Ctx)
    requires Agrees(p, inner, c) && Agrees(p, default, c)
    ensures Agrees(p, Default(inner, default), c)
  {
  }

  /**
   For every typable expression, compilation succeeds, and executing the result in any
   well-typed context is exactly interpretation, panics included.
   */
  lemma {:induction false} CompiledIsInterpreted(p: Prims, s: Signature, e: Expr, c: Ctx)
    requires TypedPrims(p, s) && TypedCtx(c, s)
    requires TypeOf(s, e).Ok?
    ensures Compile(p, e).Ok?
    ensures Compile(p, e).value(c) == EvalExpr(p, e, c)
    decreases e, 1
  {
    match e
    case LoadConstant(_) =>
    case ArithLog(op, operands) =>
      CompiledAllIsInterpreted(p, s, operands, c);
      if op.And? || op.Or? {
        TypeOfElement(s, operands, 1);
        EvalMatchesType(p, s, operands[1], c);
        LazyAgrees(p, op, operands, c);
      } else {
        StrictAgrees(p, op, operands, c);
      }
    case OffsetLookup(x, offset) =>
    case StreamAccess(x, kind) =>
    case WindowLookup(w) =>
    case Ite(condition, consequence, alternative) =>
      CompiledIsInterpreted(p, s, condition, c);
      CompiledIsInterpreted(p, s, consequence, c);
      CompiledIsInterpreted(p, s, alternative, c);
      IteAgrees(p, condition, consequence, alternative, c);
    case TupleExpr(elements) =>
      CompiledAllIsInterpreted(p, s, elements, c);
      TupleAgrees(p, elements, c);
    case TupleAccess(tuple, _) =>
      CompiledIsInterpreted(p, s, tuple, c);
    case Function(name, args) =>
      TypeOfElement(s, args, 0);
      CompiledIsInterpreted(p, s, args[0], c);
      if |args| == 2 {
        TypeOfElement(s, args, 1);
        CompiledIsInterpreted(p, s, args[1], c);
      }
      CallAgrees(p, name, args, c);
    case Convert(from, to, inner) =>
      CompiledIsInterpreted(p, s, inner, c);
      EvalMatchesType(p, s, inner, c);
      ConvertAgrees(p, from, to, inner, c);
    case Default(inner, default) =>
      CompiledIsInterpreted(p, s, inner, c);
      CompiledIsInterpreted(p, s, default, c);
      DefaultAgrees(p, inner, default, c);
  }

  lemma {:induction false} CompiledAllIsInterpreted(p: Prims, s: Signature, es: seq<Expr>, c: Ctx)
    requires TypedPrims(p, s) && TypedCtx(c, s)
    requires TypesOf(s, es).Ok?
    ensures AllAgree(p, es, c)
    decreases es, 0
  {
    if es != [] {
      CompiledIsInterpreted(p, s, es[0], c);
      CompiledAllIsInterpreted(p, s, es[1..], c);
    }
  }

  /**
   Without typing the two forms do differ: the compiled `true && 1` fails the Boolean check
   the interpreter does not make, and a conversion from a type to itself is checked by the
   interpreter only.
   */
  lemma UntypedFormsDiffer(p: Prims, c: Ctx)
    ensures var lazy := ArithLog(And, [LoadConstant(BoolC(true)), LoadConstant(UIntC(1))]);
            Compile(p, lazy).Ok? && Compile(p, lazy).value(c).Panic? && EvalExpr(p, lazy, c) == Ok(Unsigned(1))
    ensures var same := Convert(UIntT, UIntT, LoadConstant(BoolC(true)));
            Compile(p, same).Ok? && Compile(p, same).value(c) == Ok(Bool(true)) && EvalExpr(p, same, c).Panic?
  {
    var one, two := LoadConstant(BoolC(true)), LoadConstant(UIntC(1));
    var es := [one, two];
    assert es[1..] == [two];
    assert CompileAll(p, [two]).Ok?;
    CompiledElement(p, es, 0);
    CompiledElement(p, es, 1);
  }
}
