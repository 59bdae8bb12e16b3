/** The expression language of the intermediate representation and its tree interpreter. */
module Expressions {
  import opened Values

  datatype StreamRef = InRef(ix: nat) | OutRef(ix: nat)

  datatype Offset =
    | FutureDiscreteOffset(u: nat)
    | PastDiscreteOffset(u: nat)
    | FutureRealTimeOffset(d: nat)
    | PastRealTimeOffset(d: nat)

  datatype AccessKind = Sync | Hold | Optional

  datatype ArithLogOp =
    | Not | Neg | BitNot
    | Add | Sub | Mul | Div | Rem | Pow
    | And | Or
    | BitXor | BitAnd | BitOr | Shl | Shr
    | Eq | Lt | Le | Ne | Ge | Gt

  predicate IsUnary(op: ArithLogOp) { op.Not? || op.Neg? || op.BitNot? }

  /** Value types; bit widths play no role in evaluation. */
  datatype Type =
    | BoolT | IntT | UIntT | FloatT | StringT | BytesT
    | TupleT(tys: seq<Type>)
    | OptionT(ty: Type)

  predicate Numeric(t: Type) { t.IntT? || t.UIntT? || t.FloatT? }

  datatype Constant = BoolC(b: bool) | UIntC(u: nat) | IntC(i: int) | FloatC(f: real) | StrC(s: string)

  datatype Expr =
    | LoadConstant(c: Constant)
    | ArithLog(op: ArithLogOp, operands: seq<Expr>)
    | OffsetLookup(target: StreamRef, offset: Offset)
    | StreamAccess(target: StreamRef, kind: AccessKind)
    | WindowLookup(window: nat)
    | Ite(condition: Expr, consequence: Expr, alternative: Expr)
    | TupleExpr(elements: seq<Expr>)
    | TupleAccess(tuple: Expr, num: nat)
    | Function(name: string, args: seq<Expr>)
    | Convert(from: Type, to: Type, expr: Expr)
    | Default(expr: Expr, default: Expr)

  /**
   The strict operators, library functions and numeric casts. Both evaluators call the same
   implementations, so they are a parameter of the model.
   */
  datatype Prims = Prims(
    unary: (ArithLogOp, Value) -> Outcome<Value>,
    binary: (ArithLogOp, Value, Value) -> Outcome<Value>,
    function1: (string, Value) -> Outcome<Value>,
    function2: (string, Value, Value) -> Outcome<Value>,
    cast: (Type, Type, Value) -> Value)

  /** What an expression can observe: the stores seen through the lookups, and freshness. */
  datatype Ctx = Ctx(
    latest: StreamRef -> Value,
    isFresh: StreamRef -> bool,
    past: (StreamRef, nat) -> Outcome<Value>,
    window: nat -> Outcome<Value>)

  function ConstantValue(c: Constant): Value {
    match c
    case BoolC(b) => Bool(b)
    case UIntC(u) => Unsigned(u)
    case IntC(i) => Signed(i)
    case FloatC(f) => Float(f)
    case StrC(s) => Str(s)
  }

  function GetBool(v: Value): Outcome<bool> {
    if v.Bool? then Ok(v.b) else Panic
  }

  /** A synchronous lookup asserts that its target is fresh. */
  function LookupSync(c: Ctx, x: StreamRef): Outcome<Value> {
    if c.isFresh(x) then Ok(c.latest(x)) else Panic
  }

  function LookupOptional(c: Ctx, x: StreamRef): Value {
    if c.isFresh(x) then c.latest(x) else Value.None
  }

  function LookupStream(c: Ctx, x: StreamRef, kind: AccessKind): Outcome<Value> {
    match kind
    case Sync => LookupSync(c, x)
    case Hold => Ok(c.latest(x))
    case Optional => Ok(LookupOptional(c, x))
  }

  predicate IsFunction1(name: string) {
    name in ["sqrt", "sin", "cos", "arctan", "abs"]
  }

  predicate IsFunction2(name: string) {
    name in ["min", "max"]
  }

  /** A value belongs to the numeric type it is converted from. */
  predicate MatchesNumeric(v: Value, t: Type) {
    (t.UIntT? && v.Unsigned?) || (t.IntT? && v.Signed?) || (t.FloatT? && v.Float?)
  }

  function CastValue(p: Prims, from: Type, to: Type, v: Value): Value {
    if from == to then v else p.cast(from, to, v)
  }

  /** The tree interpreter. */
  function EvalExpr(p: Prims, e: Expr, c: Ctx): Outcome<Value>
    decreases e, 1
  {
    match e
    case LoadConstant(k) => Ok(ConstantValue(k))
    case ArithLog(op, operands) =>
      if IsUnary(op) then
        if |operands| < 1 then Panic else
        var operand :- EvalExpr(p, operands[0], c);
        p.unary(op, operand)
      else
        if |operands| < 1 then Panic else
        var lhs :- EvalExpr(p, operands[0], c);
        if op.And? then
          var b :- GetBool(lhs);
          if !b then Ok(Bool(false)) else if |operands| < 2 then Panic else EvalExpr(p, operands[1], c)
        else if op.Or? then
          var b :- GetBool(lhs);
          if b then Ok(Bool(true)) else if |operands| < 2 then Panic else EvalExpr(p, operands[1], c)
        else
          if |operands| < 2 then Panic else
          var rhs :- EvalExpr(p, operands[1], c);
          p.binary(op, lhs, rhs)
    case OffsetLookup(x, offset) =>
      if offset.PastDiscreteOffset? then c.past(x, offset.u) else Panic
    case StreamAccess(x, kind) => LookupStream(c, x, kind)
    case WindowLookup(w) => c.window(w)
    case Ite(condition, consequence, alternative) =>
      var v :- EvalExpr(p, condition, c);
      var b :- GetBool(v);
      if b then EvalExpr(p, consequence, c) else EvalExpr(p, alternative, c)
    case TupleExpr(elements) =>
      var vs :- EvalAll(p, elements, c);
      Ok(Tuple(vs))
    case TupleAccess(tuple, num) =>
      var v :- EvalExpr(p, tuple, c);
      if v.Tuple? && num < |v.entries| then Ok(v.entries[num]) else Panic
    case Function(name, args) =>
      if |args| == 0 then Panic else
      var fst :- EvalExpr(p, args[0], c);
      if IsFunction1(name) then p.function1(name, fst)
      else if IsFunction2(name) && |args| == 2 then
        var snd :- EvalExpr(p, args[1], c);
        p.function2(name, fst, snd)
      else Panic
    case Convert(from, to, inner) =>
      var v :- EvalExpr(p, inner, c);
      if MatchesNumeric(v, from) && Numeric(to) then Ok(CastValue(p, from, to, v)) else Panic
    case Default(inner, default) =>
      var v :- EvalExpr(p, inner, c);
      if v.None? then EvalExpr(p, default, c) else Ok(v)
  }

  /** Left to right, stopping at the first panic. */
  function EvalAll(p: Prims, es: seq<Expr>, c: Ctx): (r: Outcome<seq<Value>>)
    decreases es, 0
  {
    if es == [] then Ok([]) else
    var v :- EvalExpr(p, es[0], c);
    var vs :- EvalAll(p, es[1..], c);
    Ok([v] + vs)
  }

  // ---------- what an expression reads ----------

  datatype Access =
    | Now(x: StreamRef)
    | Past(x: StreamRef, k: nat)
    | Window(w: nat)

  /** Every access the interpreter may perform. */
  function Reads(e: Expr): set<Access>
    decreases e, 1
  {
    match e
    case LoadConstant(_) => {}
    case ArithLog(_, operands) => ReadsAll(operands)
    case OffsetLookup(x, offset) => if offset.PastDiscreteOffset? then {Past(x, offset.u)} else {}
    case StreamAccess(x, _) => {Now(x)}
    case WindowLookup(w) => {Window(w)}
    case Ite(a, b, d) => Reads(a) + Reads(b) + Reads(d)
    case TupleExpr(elements) => ReadsAll(elements)
    case TupleAccess(tuple, _) => Reads(tuple)
    case Function(_, args) => ReadsAll(args)
    case Convert(_, _, inner) => Reads(inner)
    case Default(inner, default) => Reads(inner) + Reads(default)
  }

  function ReadsAll(es: seq<Expr>): set<Access>
    decreases es, 0
  {
    if es == [] then {} else Reads(es[0]) + ReadsAll(es[1..])
  }

  lemma {:induction false} ReadsOfElement(es: seq<Expr>, i: nat)
    requires i < |es|
    ensures Reads(es[i]) <= ReadsAll(es)
  {
    if i > 0 {
      ReadsOfElement(es[1..], i - 1);
    }
  }

  /** The streams an expression accesses synchronously. */
  function SyncReads(e: Expr): set<StreamRef>
    decreases e, 1
  {
    match e
    case LoadConstant(_) => {}
    case ArithLog(_, operands) => SyncReadsAll(operands)
    case OffsetLookup(_, _) => {}
    case StreamAccess(x, kind) => if kind.Sync? then {x} else {}
    case WindowLookup(_) => {}
    case Ite(a, b, c) => SyncReads(a) + SyncReads(b) + SyncReads(c)
    case TupleExpr(elements) => SyncReadsAll(elements)
    case TupleAccess(tuple, _) => SyncReads(tuple)
    case Function(_, args) => SyncReadsAll(args)
    case Convert(_, _, inner) => SyncReads(inner)
    case Default(inner, default) => SyncReads(inner) + SyncReads(default)
  }

  function SyncReadsAll(es: seq<Expr>): set<StreamRef>
    decreases es, 0
  {
    if es == [] then {} else SyncReads(es[0]) + SyncReadsAll(es[1..])
  }

  lemma {:induction false} SyncReadsAreReads(e: Expr)
    ensures forall x | x in SyncReads(e) :: Now(x) in Reads(e)
    decreases e, 1
  {
    match e
    case LoadConstant(_) =>
    case ArithLog(_, operands) => SyncReadsAllAreReads(operands);
    case OffsetLookup(_, _) =>
    case StreamAccess(_, _) =>
    case WindowLookup(_) =>
    case Ite(a, b, c) =>
      SyncReadsAreReads(a);
      SyncReadsAreReads(b);
      SyncReadsAreReads(c);
    case TupleExpr(elements) => SyncReadsAllAreReads(elements);
    case TupleAccess(tuple, _) => SyncReadsAreReads(tuple);
    case Function(_, args) => SyncReadsAllAreReads(args);
    case Convert(_, _, inner) => SyncReadsAreReads(inner);
    case Default(inner, default) =>
      SyncReadsAreReads(inner);
      SyncReadsAreReads(default);
  }

  lemma {:induction false} SyncReadsAllAreReads(es: seq<Expr>)
    ensures forall x | x in SyncReadsAll(es) :: Now(x) in ReadsAll(es)
    decreases es, 0
  {
    if es != [] {
      SyncReadsAreReads(es[0]);
      SyncReadsAllAreReads(es[1..]);
    }
  }

  lemma {:induction false} SyncReadsOfElement(es: seq<Expr>, i: nat)
    requires i < |es|
    ensures SyncReads(es[i]) <= SyncReadsAll(es)
  {
    if i > 0 {
      SyncReadsOfElement(es[1..], i - 1);
    }
  }

  ghost predicate AgreeOn(a: Access, c: Ctx, d: Ctx) {
    match a
    case Now(x) => c.latest(x) == d.latest(x) && c.isFresh(x) == d.isFresh(x)
    case Past(x, k) => c.past(x, k) == d.past(x, k)
    case Window(w) => c.window(w) == d.window(w)
  }

  ghost predicate Agree(accesses: set<Access>, c: Ctx, d: Ctx) {
    forall a | a in accesses :: AgreeOn(a, c, d)
  }

  /** Evaluation depends on the context only through the accesses of the expression. */
  lemma {:induction false} EvalDependsOnReads(p: Prims, e: Expr, c: Ctx, d: Ctx)
    requires Agree(Reads(e), c, d)
    ensures EvalExpr(p, e, c) == EvalExpr(p, e, d)
    decreases e, 1
  {
    match e
    case LoadConstant(_) =>
    case ArithLog(_, operands) =>
      forall i | 0 <= i < |operands| ensures EvalExpr(p, operands[i], c) == EvalExpr(p, operands[i], d) {
        ReadsOfElement(operands, i);
        EvalDependsOnReads(p, operands[i], c, d);
      }
    case OffsetLookup(x, offset) =>
      if offset.PastDiscreteOffset? {
        assert AgreeOn(Past(x, offset.u), c, d);
      }
    case StreamAccess(x, _) =>
      assert AgreeOn(Now(x), c, d);
    case WindowLookup(w) =>
      assert AgreeOn(Window(w), c, d);
    case Ite(a, b, f) =>
      EvalDependsOnReads(p, a, c, d);
      EvalDependsOnReads(p, b, c, d);
      EvalDependsOnReads(p, f, c, d);
    case TupleExpr(elements) =>
      EvalAllDependsOnReads(p, elements, c, d);
    case TupleAccess(tuple, _) =>
      EvalDependsOnReads(p, tuple, c, d);
    case Function(_, args) =>
      forall i | 0 <= i < |args| ensures EvalExpr(p, args[i], c) == EvalExpr(p, args[i], d) {
        ReadsOfElement(args, i);
        EvalDependsOnReads(p, args[i], c, d);
      }
    case Convert(_, _, inner) =>
      EvalDependsOnReads(p, inner, c, d);
    case Default(inner, default) =>
      EvalDependsOnReads(p, inner, c, d);
      EvalDependsOnReads(p, default, c, d);
  }

  lemma {:induction false} EvalAllDependsOnReads(p: Prims, es: seq<Expr>, c: Ctx, d: Ctx)
    requires Agree(ReadsAll(es), c, d)
    ensures EvalAll(p, es, c) == EvalAll(p, es, d)
    decreases es, 0
  {
    if es != [] {
      EvalDependsOnReads(p, es[0], c, d);
      EvalAllDependsOnReads(p, es[1..], c, d);
    }
  }

  // ---------- value types ----------

  ghost predicate Matches(v: Value, t: Type)
    decreases t
  {
    match t
    case BoolT => v.Bool?
    case IntT => v.Signed?
    case UIntT => v.Unsigned?
    case FloatT => v.Float?
    case StringT => v.Str?
    case BytesT => v.Bytes?
    case TupleT(tys) => v.Tuple? && |v.entries| == |tys| && forall i | 0 <= i < |tys| :: Matches(v.entries[i], tys[i])
    case OptionT(ty) => v.None? || Matches(v, ty)
  }

  /** A signature: the types of streams and windows, and of the strict operators and functions. */
  datatype Signature = Signature(
    stream: StreamRef -> Type,
    window: nat -> Type,
    unary: (ArithLogOp, Type) -> Outcome<Type>,
    binary: (ArithLogOp, Type, Type) -> Outcome<Type>,
    function1: (string, Type) -> Outcome<Type>,
    function2: (string, Type, Type) -> Outcome<Type>)

  function ConstantType(c: Constant): Type {
    match c
    case BoolC(_) => BoolT
    case UIntC(_) => UIntT
    case IntC(_) => IntT
    case FloatC(_) => FloatT
    case StrC(_) => StringT
  }

  /** The typing rules the frontend guarantees of a lowered expression; `Panic` means untypable. */
  function TypeOf(s: Signature, e: Expr): Outcome<Type>
    decreases e, 1
  {
    match e
    case LoadConstant(k) => Ok(ConstantType(k))
    case ArithLog(op, operands) =>
      var tys :- TypesOf(s, operands);
      if IsUnary(op) then
        if |tys| == 1 then s.unary(op, tys[0]) else Panic
      else if |tys| != 2 then Panic
      else if op.And? || op.Or? then
        if tys[0] == BoolT && tys[1] == BoolT then Ok(BoolT) else Panic
      else s.binary(op, tys[0], tys[1])
    case OffsetLookup(x, offset) =>
      if offset.PastDiscreteOffset? then Ok(OptionT(s.stream(x))) else Panic
    case StreamAccess(x, kind) =>
      if kind.Sync? then Ok(s.stream(x)) else Ok(OptionT(s.stream(x)))
    case WindowLookup(w) => Ok(s.window(w))
    case Ite(condition, consequence, alternative) =>
      var a :- TypeOf(s, condition);
      var b :- TypeOf(s, consequence);
      var d :- TypeOf(s, alternative);
      if a == BoolT && b == d then Ok(b) else Panic
    case TupleExpr(elements) =>
      var tys :- TypesOf(s, elements);
      Ok(TupleT(tys))
    case TupleAccess(tuple, num) =>
      var t :- TypeOf(s, tuple);
      if t.TupleT? && num < |t.tys| then Ok(t.tys[num]) else Panic
    case Function(name, args) =>
      var tys :- TypesOf(s, args);
      if IsFunction1(name) && |tys| == 1 then s.function1(name, tys[0])
      else if IsFunction2(name) && |tys| == 2 then s.function2(name, tys[0], tys[1])
      else Panic
    case Convert(from, to, inner) =>
      var t :- TypeOf(s, inner);
      if t == from && Numeric(from) && Numeric(to) then Ok(to) else Panic
    case Default(inner, default) =>
      var t :- TypeOf(s, inner);
      var d :- TypeOf(s, default);
      if t == OptionT(d) then Ok(d) else Panic
  }

  function TypesOf(s: Signature, es: seq<Expr>): (r: Outcome<seq<Type>>)
    ensures r.Ok? ==> |r.value| == |es|
    decreases es, 0
  {
    if es == [] then Ok([]) else
    var t :- TypeOf(s, es[0]);
    var ts :- TypesOf(s, es[1..]);
    Ok([t] + ts)
  }

  lemma {:induction false} TypeOfElement(s: Signature, es: seq<Expr>, i: nat)
    requires TypesOf(s, es).Ok? && i < |es|
    ensures TypeOf(s, es[i]) == Ok(TypesOf(s, es).value[i])
  {
    if i > 0 {
      TypeOfElement(s, es[1..], i - 1);
    }
  }

  /** The operators respect their signature. */
  ghost predicate TypedPrims(p: Prims, s: Signature) {
    && (forall op, v, t | s.unary(op, t).Ok? && Matches(v, t) && p.unary(op, v).Ok? ::
          Matches(p.unary(op, v).value, s.unary(op, t).value))
    && (forall op, v, w, t, u | s.binary(op, t, u).Ok? && Matches(v, t) && Matches(w, u) && p.binary(op, v, w).Ok? ::
          Matches(p.binary(op, v, w).value, s.binary(op, t, u).value))
    && (forall f, v, t | s.function1(f, t).Ok? && Matches(v, t) && p.function1(f, v).Ok? ::
          Matches(p.function1(f, v).value, s.function1(f, t).value))
    && (forall f, v, w, t, u | s.function2(f, t, u).Ok? && Matches(v, t) && Matches(w, u) && p.function2(f, v, w).Ok? ::
          Matches(p.function2(f, v, w).value, s.function2(f, t, u).value))
    && (forall from, to, v | Numeric(from) && Numeric(to) && Matches(v, from) :: Matches(p.cast(from, to, v), to))
  }

  /** The context holds values of the declared stream types; only a fresh stream is sure to have one. */
  ghost predicate TypedCtx(c: Ctx, s: Signature) {
    && (forall x :: Matches(c.latest(x), OptionT(s.stream(x))))
    && (forall x | c.isFresh(x) :: Matches(c.latest(x), s.stream(x)))
    && (forall x, k | c.past(x, k).Ok? :: Matches(c.past(x, k).value, OptionT(s.stream(x))))
    && (forall w | c.window(w).Ok? :: Matches(c.window(w).value, s.window(w)))
  }

  /** The operators and functions never panic on arguments of their types. */
  ghost predicate TotalPrims(p: Prims, s: Signature) {
    && (forall op, v, t | s.unary(op, t).Ok? && Matches(v, t) :: p.unary(op, v).Ok?)
    && (forall op, v, w, t, u | s.binary(op, t, u).Ok? && Matches(v, t) && Matches(w, u) :: p.binary(op, v, w).Ok?)
    && (forall f, v, t | s.function1(f, t).Ok? && Matches(v, t) :: p.function1(f, v).Ok?)
    && (forall f, v, w, t, u | s.function2(f, t, u).Ok? && Matches(v, t) && Matches(w, u) :: p.function2(f, v, w).Ok?)
  }

  predicate Answered(a: Access, c: Ctx) {
    match a
    case Now(_) => true
    case Past(x, k) => c.past(x, k).Ok?
    case Window(w) => c.window(w).Ok?
  }

  /** No lookup of the expression panics: synchronous targets are fresh, and past values and windows are served. */
  ghost predicate Ready(e: Expr, c: Ctx) {
    && (forall x | x in SyncReads(e) :: c.isFresh(x))
    && (forall a | a in Reads(e) :: Answered(a, c))
  }

  /** If it evaluates, the expression has a value of the type; if `total`, it evaluates. */
  ghost predicate Sound(p: Prims, s: Signature, e: Expr, c: Ctx, t: Type, total: bool) {
    && TypeOf(s, e) == Ok(t)
    && (EvalExpr(p, e, c).Ok? ==> Matches(EvalExpr(p, e, c).value, t))
    && (total ==> EvalExpr(p, e, c).Ok?)
  }

  ghost predicate AllSound(p: Prims, s: Signature, es: seq<Expr>, c: Ctx, tys: seq<Type>, total: bool) {
    TypesOf(s, es) == Ok(tys) && forall i | 0 <= i < |es| :: Sound(p, s, es[i], c, tys[i], total)
  }

  lemma UnarySound(p: Prims, s: Signature, op: ArithLogOp, operands: seq<Expr>, tys: seq<Type>, c: Ctx, t: Type,
                   total: bool)
    requires TypedPrims(p, s) && (total ==> TotalPrims(p, s)) && IsUnary(op)
    requires AllSound(p, s, operands, c, tys, total) && TypeOf(s, ArithLog(op, operands)) == Ok(t)
    ensures Sound(p, s, ArithLog(op, operands), c, t, total)
  {
    assert Sound(p, s, operands[0], c, tys[0], total);
    var v := EvalExpr(p, operands[0], c);
    if v.Ok? && p.unary(op, v.value).Ok? {
      assert Matches(p.unary(op, v.value).value, s.unary(op, tys[0]).value);
    }
  }

  lemma LazySound(p: Prims, s: Signature, op: ArithLogOp, operands: seq<Expr>, tys: seq<Type>, c: Ctx, t: Type,
                  total: bool)
    requires op.And? || op.Or?
    requires AllSound(p, s, operands, c, tys, total) && TypeOf(s, ArithLog(op, operands)) == Ok(t)
    ensures Sound(p, s, ArithLog(op, operands), c, t, total)
  {
    assert Sound(p, s, operands[0], c, tys[0], total) && Sound(p, s, operands[1], c, tys[1], total);
  }

  lemma BinarySound(p: Prims, s: Signature, op: ArithLogOp, operands: seq<Expr>, tys: seq<Type>, c: Ctx, t: Type,
                    total: bool)
    requires TypedPrims(p, s) && (total ==> TotalPrims(p, s)) && !IsUnary(op) && !op.And? && !op.Or?
    requires AllSound(p, s, operands, c, tys, total) && TypeOf(s, ArithLog(op, operands)) == Ok(t)
    ensures Sound(p, s, ArithLog(op, operands), c, t, total)
  {
    assert Sound(p, s, operands[0], c, tys[0], total) && Sound(p, s, operands[1], c, tys[1], total);
    var v, w := EvalExpr(p, operands[0], c), EvalExpr(p, operands[1], c);
    if v.Ok? && w.Ok? && p.binary(op, v.value, w.value).Ok? {
      assert Matches(p.binary(op, v.value, w.value).value, s.binary(op, tys[0], tys[1]).value);
    }
  }

  lemma Call1Sound(p: Prims, s: Signature, name: string, args: seq<Expr>, tys: seq<Type>, c: Ctx, t: Type, total: bool)
    requires TypedPrims(p, s) && (total ==> TotalPrims(p, s)) && IsFunction1(name)
    requires AllSound(p, s, args, c, tys, total) && TypeOf(s, Function(name, args)) == Ok(t)
    ensures Sound(p, s, Function(name, args), c, t, total)
  {
    assert Sound(p, s, args[0], c, tys[0], total);
    var v := EvalExpr(p, args[0], c);
    if v.Ok? && p.function1(name, v.value).Ok? {
      assert Matches(p.function1(name, v.value).value, s.function1(name, tys[0]).value);
    }
  }

  lemma Call2Sound(p: Prims, s: Signature, name: string, args: seq<Expr>, tys: seq<Type>, c: Ctx, t: Type, total: bool)
    requires TypedPrims(p, s) && (total ==> TotalPrims(p, s)) && !IsFunction1(name)
    requires AllSound(p, s, args, c, tys, total) && TypeOf(s, Function(name, args)) == Ok(t)
    ensures Sound(p, s, Function(name, args), c, t, total)
  {
    assert Sound(p, s, args[0], c, tys[0], total) && Sound(p, s, args[1], c, tys[1], total);
    var v, w := EvalExpr(p, args[0], c), EvalExpr(p, args[1], c);
    if v.Ok? && w.Ok? && p.function2(name, v.value, w.value).Ok? {
      assert Matches(p.function2(name, v.value, w.value).value, s.function2(name, tys[0], tys[1]).value);
    }
  }

  lemma ArithSound(p: Prims, s: Signature, op: ArithLogOp, operands: seq<Expr>, tys: seq<Type>, c: Ctx, t: Type,
                   total: bool)
    requires TypedPrims(p, s) && (total ==> TotalPrims(p, s))
    requires AllSound(p, s, operands, c, tys, total) && TypeOf(s, ArithLog(op, operands)) == Ok(t)
    ensures Sound(p, s, ArithLog(op, operands), c, t, total)
  {
    if IsUnary(op) {
      UnarySound(p, s, op, operands, tys, c, t, total);
    } else if op.And? || op.Or? {
      LazySound(p, s, op, operands, tys, c, t, total);
    } else {
      BinarySound(p, s, op, operands, tys, c, t, total);
    }
  }

  lemma LookupSound(p: Prims, s: Signature, e: Expr, c: Ctx, t: Type, total: bool)
    requires e.OffsetLookup? || e.StreamAccess? || e.WindowLookup?
    requires TypedCtx(c, s) && (total ==> Ready(e, c)) && TypeOf(s, e) == Ok(t)
    ensures Sound(p, s, e, c, t, total)
  {
    if e.OffsetLookup? {
      assert total ==> Answered(Past(e.target, e.offset.u), c);
    } else if e.WindowLookup? {
      assert total ==> Answered(Window(e.window), c);
    }
  }

  lemma IteSound(p: Prims, s: Signature, a: Expr, b: Expr, d: Expr, c: Ctx, t: Type, total: bool)
    requires Sound(p, s, a, c, BoolT, total) && Sound(p, s, b, c, t, total) && Sound(p, s, d, c, t, total)
    ensures Sound(p, s, Ite(a, b, d), c, t, total)
  {
  }

  lemma TupleAccessSound(p: Prims, s: Signature, tuple: Expr, num: nat, c: Ctx, tys: seq<Type>, total: bool)
    requires Sound(p, s, tuple, c, TupleT(tys), total) && num < |tys|
    ensures Sound(p, s, TupleAccess(tuple, num), c, tys[num], total)
  {
  }

  lemma ConvertSound(p: Prims, s: Signature, from: Type, to: Type, inner: Expr, c: Ctx, total: bool)
    requires TypedPrims(p, s) && Numeric(from) && Numeric(to) && Sound(p, s, inner, c, from, total)
    ensures Sound(p, s, Convert(from, to, inner), c, to, total)
  {
  }

  lemma DefaultSound(p: Prims, s: Signature, inner: Expr, default: Expr, c: Ctx, t: Type, total: bool)
    requires Sound(p, s, inner, c, OptionT(t), total) && Sound(p, s, default, c, t, total)
    ensures Sound(p, s, Default(inner, default), c, t, total)
  {
  }

  lemma {:induction false} TupleSound(p: Prims, s: Signature, es: seq<Expr>, c: Ctx, tys: seq<Type>, total: bool)
    requires AllSound(p, s, es, c, tys, total)
    ensures total ==> EvalAll(p, es, c).Ok?
    ensures EvalAll(p, es, c).Ok? ==> |EvalAll(p, es, c).value| == |es|
    ensures EvalAll(p, es, c).Ok? ==> forall i | 0 <= i < |es| :: Matches(EvalAll(p, es, c).value[i], tys[i])
    decreases es
  {
    if es != [] {
      assert Sound(p, s, es[0], c, tys[0], total);
      assert AllSound(p, s, es[1..], c, tys[1..], total) by {
        forall i | 0 <= i < |es| - 1 ensures Sound(p, s, es[1..][i], c, tys[1..][i], total) {
          assert Sound(p, s, es[i + 1], c, tys[i + 1], total);
        }
      }
      TupleSound(p, s, es[1..], c, tys[1..], total);
    }
  }

  lemma {:induction false} EvalTyped(p: Prims, s: Signature, e: Expr, c: Ctx, total: bool)
    requires TypedPrims(p, s) && TypedCtx(c, s) && (total ==> TotalPrims(p, s) && Ready(e, c))
    requires TypeOf(s, e).Ok?
    ensures Sound(p, s, e, c, TypeOf(s, e).value, total)
    decreases e, 1
  {
    match e
    case LoadConstant(_) =>
    case ArithLog(op, operands) =>
      OperandsTyped(p, s, operands, c, total);
      ArithSound(p, s, op, operands, TypesOf(s, operands).value, c, TypeOf(s, e).value, total);
    case OffsetLookup(_, _) => LookupSound(p, s, e, c, TypeOf(s, e).value, total);
    case StreamAccess(_, _) => LookupSound(p, s, e, c, TypeOf(s, e).value, total);
    case WindowLookup(_) => LookupSound(p, s, e, c, TypeOf(s, e).value, total);
    case Ite(a, b, d) =>
      EvalTyped(p, s, a, c, total);
      EvalTyped(p, s, b, c, total);
      EvalTyped(p, s, d, c, total);
      IteSound(p, s, a, b, d, c, TypeOf(s, e).value, total);
    case TupleExpr(elements) =>
      OperandsTyped(p, s, elements, c, total);
      TupleSound(p, s, elements, c, TypesOf(s, elements).value, total);
    case TupleAccess(tuple, num) =>
      EvalTyped(p, s, tuple, c, total);
      TupleAccessSound(p, s, tuple, num, c, TypeOf(s, tuple).value.tys, total);
    case Function(name, args) =>
      OperandsTyped(p, s, args, c, total);
      if IsFunction1(name) {
        Call1Sound(p, s, name, args, TypesOf(s, args).value, c, TypeOf(s, e).value, total);
      } else {
        Call2Sound(p, s, name, args, TypesOf(s, args).value, c, TypeOf(s, e).value, total);
      }
    case Convert(from, to, inner) =>
      EvalTyped(p, s, inner, c, total);
      ConvertSound(p, s, from, to, inner, c, total);
    case Default(inner, default) =>
      EvalTyped(p, s, inner, c, total);
      EvalTyped(p, s, default, c, total);
      DefaultSound(p, s, inner, default, c, TypeOf(s, e).value, total);
  }

  lemma {:induction false} OperandsTyped(p: Prims, s: Signature, es: seq<Expr>, c: Ctx, total: bool)
    requires TypedPrims(p, s) && TypedCtx(c, s) && TypesOf(s, es).Ok?
    requires total ==> TotalPrims(p, s) && ReadyAll(es, c)
    ensures AllSound(p, s, es, c, TypesOf(s, es).value, total)
    decreases es, 0
  {
    forall i | 0 <= i < |es| ensures Sound(p, s, es[i], c, TypesOf(s, es).value[i], total) {
      TypeOfElement(s, es, i);
      ReadsOfElement(es, i);
      SyncReadsOfElement(es, i);
      EvalTyped(p, s, es[i], c, total);
    }
  }

  ghost predicate ReadyAll(es: seq<Expr>, c: Ctx) {
    && (forall x | x in SyncReadsAll(es) :: c.isFresh(x))
    && (forall a | a in ReadsAll(es) :: Answered(a, c))
  }

  /** Preservation: what a typable expression evaluates to has its type. */
  lemma EvalMatchesType(p: Prims, s: Signature, e: Expr, c: Ctx)
    requires TypedPrims(p, s) && TypedCtx(c, s)
    requires TypeOf(s, e).Ok?
    ensures EvalExpr(p, e, c).Ok? ==> Matches(EvalExpr(p, e, c).value, TypeOf(s, e).value)
  {
    EvalTyped(p, s, e, c, false);
  }

  /** Progress: if no lookup panics and the operators are total on their types, a typable expression has a value. */
  lemma EvalProgresses(p: Prims, s: Signature, e: Expr, c: Ctx)
    requires TypedPrims(p, s) && TotalPrims(p, s) && TypedCtx(c, s) && Ready(e, c)
    requires TypeOf(s, e).Ok?
    ensures EvalExpr(p, e, c).Ok? && Matches(EvalExpr(p, e, c).value, TypeOf(s, e).value)
  {
    EvalTyped(p, s, e, c, true);
  }
}
