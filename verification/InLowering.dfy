/** Lowering of `IN` and `NOT IN` to chains of comparisons, and their evaluation in the three-valued
    logic of the evaluator, which reads its operands from left to right. */
module InLowering {
  import opened Options

  datatype Error = NoSuchColumn | CannotCoerce | NotAnArray | Unresolved | Invalid

  datatype Result<+T> = Ok(value: T) | Err(error: Error)

  /** Booleans are the integers 0 and 1. */
  datatype Value = Null | Int(i: int) | Text(s: string) | Array(values: seq<Value>)

  datatype DfType = Unknown | BoolType | IntType | TextType | ArrayType(member: DfType)

  datatype BinaryOp = And | Or | Equal | NotEqual

  /** An expression as parsed. */
  datatype Ast =
    | ColumnName(name: string)
    | Constant(val: Value, valType: DfType)
    | Not(rhs: Ast)
    | In(lhs: Ast, list: seq<Ast>, negated: bool)
    | ArrayOf(members: seq<Ast>)
    | OpAnyOf(cmp: BinaryOp, left: Ast, right: Ast)
    | OpAllOf(cmp: BinaryOp, left: Ast, right: Ast)

  /** A lowered expression. */
  datatype Expr =
    | Column(index: nat, ty: DfType)
    | Literal(val: Value, ty: DfType)
    | Op(op: BinaryOp, left: Expr, right: Expr, ty: DfType)
    | OpAny(op: BinaryOp, left: Expr, right: Expr, ty: DfType)
    | OpAll(op: BinaryOp, left: Expr, right: Expr, ty: DfType)
    | ArrayExpr(elements: seq<Expr>, ty: DfType)

  /** Name resolution, type unification and coercion, which are not part of this model. */
  datatype Context = Context(
    resolve: string -> Option<(nat, DfType)>,
    unify: seq<DfType> -> Result<DfType>,
    coerce: (Value, DfType, DfType) -> Result<Value>)

  const I32: int := 0x8000_0000

  /** Values of a type, as far as they are known to be coerced to it without change. Nothing is said of
      arrays. */
  predicate IsOf(v: Value, t: DfType) {
    v == Null ||
    match t
    case Unknown => true
    case BoolType => v == Int(0) || v == Int(1)
    case IntType => v.Int? && -I32 <= v.i < I32
    case TextType => v.Text?
    case ArrayType(_) => false
  }

  /** A value of a type is coerced to that type without change. */
  ghost predicate KeepsOwnType(ctx: Context) {
    forall v, t :: IsOf(v, t) ==> ctx.coerce(v, t, t) == Ok(v)
  }

  /** The number 1 is TRUE. */
  ghost predicate OneIsTrue(ctx: Context) {
    ctx.coerce(Int(1), BoolType, IntType) == Ok(Int(1))
  }

  /** Equal known types unify; unknown types unify to text. */
  ghost predicate UnifiesEqual(ctx: Context) {
    forall ts: seq<DfType>, t :: ts != [] && (forall i :: 0 <= i < |ts| ==> ts[i] == t) ==>
      ctx.unify(ts) == Ok(MemberType(t))
  }

  /** A text is coerced to the unknown type without change, and nothing else is coerced to it from text. */
  ghost predicate OnlyTextToUnknown(ctx: Context) {
    forall v :: v != Null ==> (ctx.coerce(v, Unknown, TextType).Ok? <==> v.Text?) &&
                              (v.Text? ==> ctx.coerce(v, Unknown, TextType) == Ok(v))
  }

  ghost predicate ContextOk(ctx: Context) {
    KeepsOwnType(ctx) && OneIsTrue(ctx) && UnifiesEqual(ctx) && OnlyTextToUnknown(ctx)
  }

  /** The type of the members of an array whose elements all have one type. */
  function MemberType(t: DfType): DfType {
    if t.Unknown? then TextType else t
  }

  /** Coercion between the types modelled; texts are not read as numbers, and neither numbers nor arrays
      are written as texts. */
  function Coerce(v: Value, to: DfType, from: DfType): Result<Value> {
    if v == Null || (to.Unknown? && from.Unknown?) then Ok(v)
    else match (v, to)
      case (Int(i), BoolType) => Ok(FromBool(i != 0))
      case (Int(i), IntType) => if -I32 <= i < I32 then Ok(v) else Err(CannotCoerce)
      case (Text(s), BoolType) => Ok(FromBool(s != ""))
      case (Text(_), TextType) => Ok(v)
      case (Text(_), Unknown) => Ok(v)
      case _ => Err(CannotCoerce)
  }

  function Unify(ts: seq<DfType>): Result<DfType> {
    if ts == [] then Ok(TextType)
    else if forall i :: 0 <= i < |ts| ==> ts[i] == ts[0] then Ok(MemberType(ts[0]))
    else Err(CannotCoerce)
  }

  /** There are contexts that meet the laws. */
  lemma PlainContextOk(resolve: string -> Option<(nat, DfType)>)
    ensures ContextOk(Context(resolve, Unify, Coerce))
  {
    var ctx := Context(resolve, Unify, Coerce);
    forall v, t | IsOf(v, t) ensures ctx.coerce(v, t, t) == Ok(v) {
    }
    forall ts: seq<DfType>, t | ts != [] && (forall i :: 0 <= i < |ts| ==> ts[i] == t)
      ensures ctx.unify(ts) == Ok(MemberType(t))
    {
      assert ts[0] == t;
    }
  }

  // ---------------------------------------------------------------- evaluation

  function FromBool(b: bool): Value {
    Int(if b then 1 else 0)
  }

  predicate Truthy(v: Value) {
    match v
    case Null => false
    case Int(i) => i != 0
    case Text(s) => s != ""
    case Array(_) => true
  }

  function EvalBinaryOp(ctx: Context, op: BinaryOp, l: Value, lt: DfType, r: Value, rt: DfType): Result<Value> {
    if l == Null then Ok(Null)
    else match op
      case And => if !Truthy(l) then Ok(FromBool(false)) else if r == Null then Ok(Null) else Ok(FromBool(Truthy(r)))
      case Or => if Truthy(l) then Ok(FromBool(true)) else if r == Null then Ok(Null) else Ok(FromBool(Truthy(r)))
      case Equal =>
        if r == Null then Ok(Null)
        else (match ctx.coerce(r, lt, rt) case Err(e) => Err(e) case Ok(v) => Ok(FromBool(l == v)))
      case NotEqual =>
        if r == Null then Ok(Null)
        else (match ctx.coerce(r, lt, rt) case Err(e) => Err(e) case Ok(v) => Ok(FromBool(l != v)))
  }

  function InnermostType(t: DfType): DfType {
    if t.ArrayType? then InnermostType(t.member) else t
  }

  /** The loop of `OpAny`: 1 at the first member for which the operation is true, else 0. */
  function AnyOf(ctx: Context, op: BinaryOp, l: Value, lt: DfType, members: seq<Value>, mt: DfType): Result<Value> {
    if members == [] then Ok(FromBool(false))
    else match EvalBinaryOp(ctx, op, l, lt, members[0], mt)
      case Err(e) => Err(e)
      case Ok(v) => if Truthy(v) then Ok(FromBool(true)) else AnyOf(ctx, op, l, lt, members[1..], mt)
  }

  /** The loop of `OpAll`: 0 at the first member for which the operation is not true, else 1. */
  function AllOf(ctx: Context, op: BinaryOp, l: Value, lt: DfType, members: seq<Value>, mt: DfType): Result<Value> {
    if members == [] then Ok(FromBool(true))
    else match EvalBinaryOp(ctx, op, l, lt, members[0], mt)
      case Err(e) => Err(e)
      case Ok(v) => if !Truthy(v) then Ok(FromBool(false)) else AllOf(ctx, op, l, lt, members[1..], mt)
  }

  /** The loop goes on after this result: it is no error, and not the truth value that is looked for. */
  predicate GoesOn(r: Result<Value>, sought: bool) {
    r.Ok? && Truthy(r.value) != sought
  }

  /** What the operation gives for each member. */
  ghost function Results(ctx: Context, op: BinaryOp, l: Value, lt: DfType, members: seq<Value>, mt: DfType)
    : seq<Result<Value>>
  {
    seq(|members|, i requires 0 <= i < |members| => EvalBinaryOp(ctx, op, l, lt, members[i], mt))
  }

  /** The loop stops at result `k`. */
  ghost predicate StopsAt(rs: seq<Result<Value>>, sought: bool, k: int) {
    0 <= k < |rs| && !GoesOn(rs[k], sought) && forall i :: 0 <= i < k ==> GoesOn(rs[i], sought)
  }

  /** What the loop makes of a result at which it stops: its error, or the truth value that was sought. */
  function Stopped(r: Result<Value>, sought: bool): Result<Value> {
    if r.Err? then r else Ok(FromBool(sought))
  }

  /** The result of the loop: decided by the first result at which it stops, if there is one. */
  ghost predicate LoopResult(rs: seq<Result<Value>>, sought: bool, r: Result<Value>) {
    (forall k :: StopsAt(rs, sought, k) ==> r == Stopped(rs[k], sought)) &&
    ((forall k :: 0 <= k < |rs| ==> GoesOn(rs[k], sought)) ==> r == Ok(FromBool(!sought)))
  }

  lemma IsLoopResult(rs: seq<Result<Value>>, sought: bool, k: nat, r: Result<Value>)
    requires k <= |rs| && (forall i :: 0 <= i < k ==> GoesOn(rs[i], sought))
    requires k < |rs| ==> !GoesOn(rs[k], sought)
    requires r == if k < |rs| then Stopped(rs[k], sought) else Ok(FromBool(!sought))
    ensures LoopResult(rs, sought, r)
  {
  }

  lemma ResultsRest(ctx: Context, op: BinaryOp, l: Value, lt: DfType, members: seq<Value>, mt: DfType)
    requires members != []
    ensures Results(ctx, op, l, lt, members, mt)[1..] == Results(ctx, op, l, lt, members[1..], mt)
  {
  }

  lemma LoopResultFirst(rs: seq<Result<Value>>, sought: bool, r: Result<Value>)
    requires rs != [] && (if GoesOn(rs[0], sought) then LoopResult(rs[1..], sought, r) else r == Stopped(rs[0], sought))
    ensures LoopResult(rs, sought, r)
  {
    forall k | StopsAt(rs, sought, k) ensures r == Stopped(rs[k], sought) {
      if k > 0 {
        assert GoesOn(rs[0], sought);
        assert StopsAt(rs[1..], sought, k - 1);
      }
    }
  }

  /** The recursive forms of the two loops give the result of the loop. */
  lemma {:induction false} AnyOfLoops(ctx: Context, op: BinaryOp, l: Value, lt: DfType, members: seq<Value>, mt: DfType)
    ensures LoopResult(Results(ctx, op, l, lt, members, mt), true, AnyOf(ctx, op, l, lt, members, mt))
  {
    if members != [] {
      AnyOfLoops(ctx, op, l, lt, members[1..], mt);
      ResultsRest(ctx, op, l, lt, members, mt);
      LoopResultFirst(Results(ctx, op, l, lt, members, mt), true, AnyOf(ctx, op, l, lt, members, mt));
    }
  }

  lemma {:induction false} AllOfLoops(ctx: Context, op: BinaryOp, l: Value, lt: DfType, members: seq<Value>, mt: DfType)
    ensures LoopResult(Results(ctx, op, l, lt, members, mt), false, AllOf(ctx, op, l, lt, members, mt))
  {
    if members != [] {
      AllOfLoops(ctx, op, l, lt, members[1..], mt);
      ResultsRest(ctx, op, l, lt, members, mt);
      LoopResultFirst(Results(ctx, op, l, lt, members, mt), false, AllOf(ctx, op, l, lt, members, mt));
    }
  }

  /** There is one result. */
  lemma {:induction false} LoopResultUnique(rs: seq<Result<Value>>, sought: bool, r: Result<Value>, q: Result<Value>)
    requires LoopResult(rs, sought, r) && LoopResult(rs, sought, q)
    ensures r == q
  {
    var k := FirstStop(rs, sought);
    if k < |rs| {
      assert StopsAt(rs, sought, k);
    }
  }

  lemma {:induction false} FirstStop(rs: seq<Result<Value>>, sought: bool) returns (k: nat)
    ensures k <= |rs| && (forall i :: 0 <= i < k ==> GoesOn(rs[i], sought))
    ensures k < |rs| ==> StopsAt(rs, sought, k)
  {
    k := 0;
    while k < |rs| && GoesOn(rs[k], sought)
      invariant k <= |rs| && forall i :: 0 <= i < k ==> GoesOn(rs[i], sought)
    {
      k := k + 1;
    }
  }

  /** An error or TRUE from the first member that gives one of them, else FALSE. */
  method EvalOpAny(ctx: Context, op: BinaryOp, l: Value, lt: DfType, members: seq<Value>, mt: DfType)
    returns (r: Result<Value>)
    ensures LoopResult(Results(ctx, op, l, lt, members, mt), true, r)
    ensures r == AnyOf(ctx, op, l, lt, members, mt)
  {
    ghost var rs := Results(ctx, op, l, lt, members, mt);
    r := Ok(FromBool(false));
    var i := 0;
    while i < |members|
      invariant i <= |members| && r == Ok(FromBool(false))
      invariant forall j :: 0 <= j < i ==> GoesOn(rs[j], true)
    {
      var v := EvalBinaryOp(ctx, op, l, lt, members[i], mt);
      assert rs[i] == v;
      if v.Err? {
        r := v;
        break;
      }
      if Truthy(v.value) {
        r := Ok(FromBool(true));
        break;
      }
      i := i + 1;
    }
    IsLoopResult(rs, true, i, r);
    AnyOfLoops(ctx, op, l, lt, members, mt);
    LoopResultUnique(rs, true, r, AnyOf(ctx, op, l, lt, members, mt));
  }

  /** An error or FALSE from the first member that gives an error, FALSE or NULL, else TRUE. */
  method EvalOpAll(ctx: Context, op: BinaryOp, l: Value, lt: DfType, members: seq<Value>, mt: DfType)
    returns (r: Result<Value>)
    ensures LoopResult(Results(ctx, op, l, lt, members, mt), false, r)
    ensures r == AllOf(ctx, op, l, lt, members, mt)
  {
    ghost var rs := Results(ctx, op, l, lt, members, mt);
    r := Ok(FromBool(true));
    var i := 0;
    while i < |members|
      invariant i <= |members| && r == Ok(FromBool(true))
      invariant forall j :: 0 <= j < i ==> GoesOn(rs[j], false)
    {
      var v := EvalBinaryOp(ctx, op, l, lt, members[i], mt);
      assert rs[i] == v;
      if v.Err? {
        r := v;
        break;
      }
      if !Truthy(v.value) {
        r := Ok(FromBool(false));
        break;
      }
      i := i + 1;
    }
    IsLoopResult(rs, false, i, r);
    AllOfLoops(ctx, op, l, lt, members, mt);
    LoopResultUnique(rs, false, r, AllOf(ctx, op, l, lt, members, mt));
  }

  function Eval(ctx: Context, e: Expr, record: seq<Value>): Result<Value>
    decreases e, if e.ArrayExpr? then |e.elements| + 1 else 0
  {
    match e
    case Column(i, _) => if i < |record| then Ok(record[i]) else Err(NoSuchColumn)
    case Literal(v, _) => Ok(v)
    case Op(op, left, right, _) =>
      (match Eval(ctx, left, record)
       case Err(x) => Err(x)
       case Ok(l) =>
         match Eval(ctx, right, record)
         case Err(x) => Err(x)
         case Ok(r) => EvalBinaryOp(ctx, op, l, left.ty, r, right.ty))
    case OpAny(op, left, right, _) =>
      (match Eval(ctx, left, record)
       case Err(x) => Err(x)
       case Ok(l) =>
         match Eval(ctx, right, record)
         case Err(x) => Err(x)
         case Ok(r) =>
           if r == Null then Ok(Null)
           else match MembersOf(ctx, left.ty, right.ty, r)
             case Err(x) => Err(x)
             case Ok(members) => AnyOf(ctx, op, l, left.ty, members, InnermostType(right.ty)))
    case OpAll(op, left, right, _) =>
      (match Eval(ctx, left, record)
       case Err(x) => Err(x)
       case Ok(l) =>
         match Eval(ctx, right, record)
         case Err(x) => Err(x)
         case Ok(r) =>
           if r == Null then Ok(Null)
           else match MembersOf(ctx, left.ty, right.ty, r)
             case Err(x) => Err(x)
             case Ok(members) => AllOf(ctx, op, l, left.ty, members, InnermostType(right.ty)))
    case ArrayExpr(elements, _) =>
      match EvalElements(ctx, e, record, 0)
      case Err(x) => Err(x)
      case Ok(vs) => Ok(Array(vs))
  }

  /** The members of the right operand of `OpAny` and `OpAll`. */
  function MembersOf(ctx: Context, lt: DfType, rt: DfType, r: Value): Result<seq<Value>> {
    var coerced := if rt.Unknown? then ctx.coerce(r, ArrayType(lt), rt) else Ok(r);
    match coerced
    case Err(x) => Err(x)
    case Ok(v) => if v.Array? then Ok(v.values) else Err(NotAnArray)
  }

  function EvalElements(ctx: Context, e: Expr, record: seq<Value>, i: nat): Result<seq<Value>>
    requires e.ArrayExpr? && i <= |e.elements|
    decreases e, |e.elements| - i
  {
    if i == |e.elements| then Ok([])
    else match Eval(ctx, e.elements[i], record)
      case Err(x) => Err(x)
      case Ok(v) =>
        match EvalElements(ctx, e, record, i + 1)
        case Err(x) => Err(x)
        case Ok(vs) => Ok([v] + vs)
  }

  // ---------------------------------------------------------------- lowering

  function Comparison(op: BinaryOp, x: Expr, e: Expr): Expr {
    Op(op, x, e, BoolType)
  }

  /** `x op e0`, joined from the left with `x op e1`, `x op e2` and so on. */
  function Chain(negated: bool, x: Expr, es: seq<Expr>): Expr
    requires es != []
  {
    var op := if negated then NotEqual else Equal;
    var n := |es| - 1;
    if n == 0 then Comparison(op, x, es[0])
    else Op(if negated then And else Or, Chain(negated, x, es[..n]), Comparison(op, x, es[n]), BoolType)
  }

  function Parts(a: Ast): seq<Ast> {
    match a
    case In(_, list, _) => list
    case ArrayOf(members) => members
    case _ => []
  }

  function Lower(ctx: Context, a: Ast): Result<Expr>
    decreases a, |Parts(a)| + 1
  {
    match a
    case ColumnName(name) =>
      (match ctx.resolve(name)
       case None => Err(Unresolved)
       case Some((i, t)) => Ok(Column(i, t)))
    case Constant(v, t) => Ok(Literal(v, t))
    case Not(rhs) =>
      (match Lower(ctx, rhs)
       case Err(x) => Err(x)
       case Ok(e) => Ok(Op(NotEqual, e, Literal(Int(1), IntType), BoolType)))
    case In(lhs, list, negated) =>
      if list == [] then Ok(Literal(if negated then Null else Int(1), BoolType))
      else
        (match Lower(ctx, lhs)
         case Err(x) => Err(x)
         case Ok(x) =>
           match LowerParts(ctx, a, 0)
           case Err(y) => Err(y)
           case Ok(es) => Ok(Chain(negated, x, es)))
    case ArrayOf(members) =>
      (match LowerParts(ctx, a, 0)
       case Err(x) => Err(x)
       case Ok(es) =>
         match ctx.unify(seq(|es|, i requires 0 <= i < |es| => es[i].ty))
         case Err(x) => Err(x)
         case Ok(t) => Ok(ArrayExpr(es, ArrayType(t))))
    case OpAnyOf(op, left, right) =>
      (match Lower(ctx, left)
       case Err(x) => Err(x)
       case Ok(l) =>
         match Lower(ctx, right)
         case Err(x) => Err(x)
         case Ok(r) => if r.ty.ArrayType? || r.ty.Unknown? then Ok(OpAny(op, l, r, BoolType)) else Err(Invalid))
    case OpAllOf(op, left, right) =>
      match Lower(ctx, left)
      case Err(x) => Err(x)
      case Ok(l) =>
        match Lower(ctx, right)
        case Err(x) => Err(x)
        case Ok(r) => if r.ty.ArrayType? || r.ty.Unknown? then Ok(OpAll(op, l, r, BoolType)) else Err(Invalid)
  }

  /** The parts of a list from the `i`-th on, in their order. */
  function LowerParts(ctx: Context, a: Ast, i: nat): (r: Result<seq<Expr>>)
    requires i <= |Parts(a)|
    ensures r.Ok? ==> |r.value| == |Parts(a)| - i
    decreases a, |Parts(a)| - i
  {
    if i == |Parts(a)| then Ok([])
    else
      match Lower(ctx, Parts(a)[i])
      case Err(x) => Err(x)
      case Ok(e) =>
        match LowerParts(ctx, a, i + 1)
        case Err(x) => Err(x)
        case Ok(es) => Ok([e] + es)
  }

  /** What an expression is worth on a record, with the errors of lowering and of evaluation. */
  function Meaning(ctx: Context, a: Ast, record: seq<Value>): Result<Value> {
    match Lower(ctx, a)
    case Err(x) => Err(x)
    case Ok(e) => Eval(ctx, e, record)
  }

  // ---------------------------------------------------------------- IN is its first non-FALSE comparison

  /** The comparisons of `x` with each element. */
  ghost function Compared(ctx: Context, op: BinaryOp, x: Expr, es: seq<Expr>, record: seq<Value>): seq<Result<Value>> {
    seq(|es|, i requires 0 <= i < |es| => Eval(ctx, Comparison(op, x, es[i]), record))
  }

  /** The first error, else the first value that is not `neutral`, else `neutral`. */
  ghost function FirstOther(rs: seq<Result<Value>>, neutral: Value): Result<Value> {
    if rs == [] then Ok(neutral)
    else if rs[0].Err? then rs[0]
    else
      var rest := FirstOther(rs[1..], neutral);
      if rest.Err? || rs[0] == Ok(neutral) then rest else rs[0]
  }

  lemma {:induction false} FirstOtherSnoc(rs: seq<Result<Value>>, r: Result<Value>, neutral: Value)
    ensures FirstOther(rs + [r], neutral) ==
            var f := FirstOther(rs, neutral);
            if f.Err? then f else if r.Err? then r else if f == Ok(neutral) then r else f
  {
    if rs == [] {
      assert rs + [r] == [r] && [r][1..] == [];
      assert FirstOther([r][1..], neutral) == Ok(neutral);
    } else {
      assert (rs + [r])[0] == rs[0] && (rs + [r])[1..] == rs[1..] + [r];
      FirstOtherSnoc(rs[1..], r, neutral);
    }
  }

  predicate IsLogical(r: Result<Value>) {
    r.Ok? ==> r.value in {Null, Int(0), Int(1)}
  }

  lemma {:induction false} ComparisonIsLogical(ctx: Context, op: BinaryOp, x: Expr, e: Expr, record: seq<Value>)
    requires op == Equal || op == NotEqual
    ensures IsLogical(Eval(ctx, Comparison(op, x, e), record))
  {
  }

  /** One step of the chain: what is decided stays, errors of the right side are seen in any case. */
  lemma {:induction false} ChainStep(ctx: Context, negated: bool, acc: Expr, c: Expr, record: seq<Value>)
    requires IsLogical(Eval(ctx, acc, record)) && IsLogical(Eval(ctx, c, record))
    ensures var neutral := FromBool(negated);
            var f, r := Eval(ctx, acc, record), Eval(ctx, c, record);
            Eval(ctx, Op(if negated then And else Or, acc, c, BoolType), record) ==
            if f.Err? then f else if r.Err? then r else if f == Ok(neutral) then r else f
  {
  }

  lemma {:induction false} ChainMeans(ctx: Context, negated: bool, x: Expr, es: seq<Expr>, record: seq<Value>)
    requires es != []
    ensures Eval(ctx, Chain(negated, x, es), record) ==
            FirstOther(Compared(ctx, if negated then NotEqual else Equal, x, es, record), FromBool(negated))
    ensures IsLogical(Eval(ctx, Chain(negated, x, es), record))
  {
    var op := if negated then NotEqual else Equal;
    var n := |es| - 1;
    var rs := Compared(ctx, op, x, es, record);
    ComparisonIsLogical(ctx, op, x, es[n], record);
    FirstOtherSnoc(rs[..n], rs[n], FromBool(negated));
    assert rs == rs[..n] + [rs[n]];
    if n == 0 {
      assert rs[..n] == [];
    } else {
      ChainMeans(ctx, negated, x, es[..n], record);
      assert rs[..n] == Compared(ctx, op, x, es[..n], record);
      ChainStep(ctx, negated, Chain(negated, x, es[..n]), Comparison(op, x, es[n]), record);
    }
  }

  // ---------------------------------------------------------------- NOT IN is NOT of IN

  /** Negation of a logical value; NULL and errors stay. */
  function Negate(r: Result<Value>): Result<Value> {
    match r
    case Ok(Int(n)) => Ok(Int(1 - n))
    case _ => r
  }

  lemma {:induction false} SameParts(ctx: Context, a: Ast, b: Ast, i: nat)
    requires Parts(a) == Parts(b) && i <= |Parts(a)|
    ensures LowerParts(ctx, a, i) == LowerParts(ctx, b, i)
    decreases |Parts(a)| - i
  {
    if i < |Parts(a)| {
      SameParts(ctx, a, b, i + 1);
    }
  }

  lemma {:induction false} NegatedComparison(ctx: Context, x: Expr, e: Expr, record: seq<Value>)
    ensures Eval(ctx, Comparison(NotEqual, x, e), record) == Negate(Eval(ctx, Comparison(Equal, x, e), record))
  {
  }

  lemma {:induction false} FirstOtherNegated(rs: seq<Result<Value>>, ns: seq<Result<Value>>)
    requires |rs| == |ns| && forall i :: 0 <= i < |rs| ==> IsLogical(rs[i]) && ns[i] == Negate(rs[i])
    ensures FirstOther(ns, Int(1)) == Negate(FirstOther(rs, Int(0)))
    ensures IsLogical(FirstOther(rs, Int(0)))
  {
    if rs != [] {
      FirstOtherNegated(rs[1..], ns[1..]);
    }
  }

  lemma {:induction false} NotOfLogical(ctx: Context, e: Expr, record: seq<Value>)
    requires OneIsTrue(ctx) && e.ty == BoolType && IsLogical(Eval(ctx, e, record))
    ensures Eval(ctx, Op(NotEqual, e, Literal(Int(1), IntType), BoolType), record) == Negate(Eval(ctx, e, record))
  {
    assert Eval(ctx, Literal(Int(1), IntType), record) == Ok(Int(1));
  }

  lemma {:induction false} ChainNegated(ctx: Context, x: Expr, es: seq<Expr>, record: seq<Value>)
    requires es != []
    ensures Eval(ctx, Chain(true, x, es), record) == Negate(Eval(ctx, Chain(false, x, es), record))
  {
    ChainMeans(ctx, true, x, es, record);
    ChainMeans(ctx, false, x, es, record);
    var rs, ns := Compared(ctx, Equal, x, es, record), Compared(ctx, NotEqual, x, es, record);
    forall i | 0 <= i < |es| ensures IsLogical(rs[i]) && ns[i] == Negate(rs[i]) {
      ComparisonIsLogical(ctx, Equal, x, es[i], record);
      NegatedComparison(ctx, x, es[i], record);
    }
    FirstOtherNegated(rs, ns);
  }

  lemma {:induction false} LowerIn(ctx: Context, lhs: Ast, list: seq<Ast>, negated: bool)
    requires list != []
    ensures Lower(ctx, In(lhs, list, negated)) ==
            if Lower(ctx, lhs).Err? then Lower(ctx, lhs)
            else match LowerParts(ctx, In(lhs, list, negated), 0)
              case Err(y) => Err(y)
              case Ok(es) => Ok(Chain(negated, Lower(ctx, lhs).value, es))
  {
  }

  lemma {:induction false} LowerNot(ctx: Context, a: Ast)
    ensures Lower(ctx, Not(a)) ==
            match Lower(ctx, a)
            case Err(y) => Err(y)
            case Ok(e) => Ok(Op(NotEqual, e, Literal(Int(1), IntType), BoolType))
  {
  }

  /** `x NOT IN L` and `NOT (x IN L)` have the same value on every record, NULL and errors included. */
  lemma {:induction false} NotInIsNotOfIn(ctx: Context, lhs: Ast, list: seq<Ast>, record: seq<Value>)
    requires OneIsTrue(ctx) && list != []
    ensures Meaning(ctx, In(lhs, list, true), record) == Meaning(ctx, Not(In(lhs, list, false)), record)
  {
    SameParts(ctx, In(lhs, list, true), In(lhs, list, false), 0);
    LowerIn(ctx, lhs, list, true);
    LowerIn(ctx, lhs, list, false);
    LowerNot(ctx, In(lhs, list, false));
    if Lower(ctx, lhs).Ok? && LowerParts(ctx, In(lhs, list, false), 0).Ok? {
      var x, es := Lower(ctx, lhs).value, LowerParts(ctx, In(lhs, list, false), 0).value;
      ChainNegated(ctx, x, es, record);
      ChainMeans(ctx, false, x, es, record);
      NotOfLogical(ctx, Chain(false, x, es), record);
    }
  }

  /** The empty list is needed to be excluded: there `IN` is TRUE and `NOT IN` is NULL. */
  lemma {:induction false} NotInIsNotOfInIff(ctx: Context, lhs: Ast, list: seq<Ast>, record: seq<Value>)
    requires OneIsTrue(ctx)
    ensures Meaning(ctx, In(lhs, list, true), record) == Meaning(ctx, Not(In(lhs, list, false)), record) <==> list != []
    ensures Meaning(ctx, In(lhs, [], false), record) == Ok(Int(1))
    ensures Meaning(ctx, In(lhs, [], true), record) == Ok(Null)
  {
    if list != [] {
      NotInIsNotOfIn(ctx, lhs, list, record);
    } else {
      LowerNot(ctx, In(lhs, list, false));
      NotOfLogical(ctx, Literal(Int(1), BoolType), record);
    }
  }

  // ---------------------------------------------------------------- IN and = ANY

  /** Comparing values of one type. */
  function CompareValues(v: Value, w: Value): Value {
    if v == Null || w == Null then Null else FromBool(v == w)
  }

  /** `v IN (vs)` on values of one type. */
  function InValues(v: Value, vs: seq<Value>): Value {
    if vs == [] then Int(0)
    else if CompareValues(v, vs[0]) == Int(0) then InValues(v, vs[1..]) else CompareValues(v, vs[0])
  }

  // ---------------------------------------------------------------- what is compared

  /** The first expression of a list that cannot be lowered. */
  ghost predicate FirstFails(ctx: Context, list: seq<Ast>, k: int, x: Error) {
    0 <= k < |list| && Lower(ctx, list[k]) == Err(x) && forall j :: 0 <= j < k ==> Lower(ctx, list[j]).Ok?
  }

  ghost predicate AllLower(ctx: Context, list: seq<Ast>) {
    forall k :: 0 <= k < |list| ==> Lower(ctx, list[k]).Ok?
  }

  lemma {:induction false} LowerPartsFrom(ctx: Context, a: Ast, i: nat)
    requires i <= |Parts(a)|
    ensures LowerParts(ctx, a, i).Ok? <==> AllLower(ctx, Parts(a)[i..])
    ensures LowerParts(ctx, a, i).Ok? ==>
              forall k :: 0 <= k < |Parts(a)| - i ==>
                LowerParts(ctx, a, i).value[k] == Lower(ctx, Parts(a)[i..][k]).value
    ensures LowerParts(ctx, a, i).Err? ==> exists k :: FirstFails(ctx, Parts(a)[i..], k, LowerParts(ctx, a, i).error)
    decreases |Parts(a)| - i
  {
    if i < |Parts(a)| {
      LowerPartsFrom(ctx, a, i + 1);
      PartsCons(ctx, Parts(a)[i..], Parts(a)[i + 1..], LowerParts(ctx, a, i), LowerParts(ctx, a, i + 1));
    }
  }

  /** One more part in front. */
  lemma PartsCons(ctx: Context, list: seq<Ast>, rest: seq<Ast>, r: Result<seq<Expr>>, q: Result<seq<Expr>>)
    requires list != [] && rest == list[1..]
    requires q.Ok? <==> AllLower(ctx, rest)
    requires q.Ok? ==> |q.value| == |rest| &&
                       forall k :: 0 <= k < |rest| ==> q.value[k] == Lower(ctx, rest[k]).value
    requires q.Err? ==> exists k :: FirstFails(ctx, rest, k, q.error)
    requires r == match Lower(ctx, list[0])
                  case Err(x) => Err(x)
                  case Ok(e) => match q case Err(x) => Err(x) case Ok(es) => Ok([e] + es)
    ensures r.Ok? <==> AllLower(ctx, list)
    ensures r.Ok? ==> |r.value| == |list| &&
                      forall k :: 0 <= k < |list| ==> r.value[k] == Lower(ctx, list[k]).value
    ensures r.Err? ==> exists k :: FirstFails(ctx, list, k, r.error)
  {
    assert list == [list[0]] + rest;
    if Lower(ctx, list[0]).Err? {
      assert FirstFails(ctx, list, 0, r.error);
    } else if q.Err? {
      var k :| FirstFails(ctx, rest, k, q.error);
      assert Lower(ctx, list[k + 1]) == Lower(ctx, rest[k]);
      forall j | 0 <= j < k + 1 ensures Lower(ctx, list[j]).Ok? {
        if j > 0 {
          assert list[j] == rest[j - 1];
        }
      }
      assert FirstFails(ctx, list, k + 1, r.error);
    } else {
      forall k | 0 <= k < |list| ensures Lower(ctx, list[k]).Ok? && r.value[k] == Lower(ctx, list[k]).value {
        if k > 0 {
          assert list[k] == rest[k - 1];
        }
      }
    }
  }

  /** The parts of an expression are lowered each by itself, in their order; the first error counts. */
  lemma LowerPartsAre(ctx: Context, a: Ast)
    ensures LowerParts(ctx, a, 0).Ok? <==> AllLower(ctx, Parts(a))
    ensures LowerParts(ctx, a, 0).Ok? ==>
              forall k :: 0 <= k < |Parts(a)| ==> LowerParts(ctx, a, 0).value[k] == Lower(ctx, Parts(a)[k]).value
    ensures LowerParts(ctx, a, 0).Err? ==> exists k :: FirstFails(ctx, Parts(a), k, LowerParts(ctx, a, 0).error)
  {
    LowerPartsFrom(ctx, a, 0);
    assert Parts(a)[0..] == Parts(a);
  }

  /** `a op b` of two expressions that can be lowered: the error of the first or second, or the operation on
      their values and types. */
  ghost function CompareMeanings(ctx: Context, op: BinaryOp, a: Ast, b: Ast, record: seq<Value>): Result<Value>
    requires Lower(ctx, a).Ok? && Lower(ctx, b).Ok?
  {
    var x, y := Meaning(ctx, a, record), Meaning(ctx, b, record);
    if x.Err? then x else if y.Err? then y
    else EvalBinaryOp(ctx, op, x.value, Lower(ctx, a).value.ty, y.value, Lower(ctx, b).value.ty)
  }

  /** The comparisons of an expression with each of a list, by position. */
  ghost function ComparedMeanings(ctx: Context, op: BinaryOp, lhs: Ast, list: seq<Ast>, record: seq<Value>)
    : seq<Result<Value>>
    requires Lower(ctx, lhs).Ok? && AllLower(ctx, list)
  {
    seq(|list|, k requires 0 <= k < |list| => CompareMeanings(ctx, op, lhs, list[k], record))
  }

  /** `x IN L` is its first comparison `x = L[k]` that is not FALSE, else FALSE; `x NOT IN L` is its first
      comparison `x <> L[k]` that is not TRUE, else TRUE; an error of any comparison comes first. If something
      cannot be lowered, its error is that of `x`, or else the first of `L`. */
  lemma {:induction false} InMeans(ctx: Context, lhs: Ast, list: seq<Ast>, negated: bool, record: seq<Value>)
    requires list != []
    ensures Lower(ctx, lhs).Ok? && AllLower(ctx, list) ==>
              Meaning(ctx, In(lhs, list, negated), record) ==
              FirstOther(ComparedMeanings(ctx, if negated then NotEqual else Equal, lhs, list, record),
                         FromBool(negated))
    ensures Lower(ctx, lhs).Err? ==> Meaning(ctx, In(lhs, list, negated), record) == Err(Lower(ctx, lhs).error)
    ensures Lower(ctx, lhs).Ok? && !AllLower(ctx, list) ==>
              exists k, x :: FirstFails(ctx, list, k, x) && Meaning(ctx, In(lhs, list, negated), record) == Err(x)
  {
    var a := In(lhs, list, negated);
    LowerIn(ctx, lhs, list, negated);
    LowerPartsAre(ctx, a);
    if Lower(ctx, lhs).Ok? && AllLower(ctx, list) {
      var op := if negated then NotEqual else Equal;
      var x, es := Lower(ctx, lhs).value, LowerParts(ctx, a, 0).value;
      ChainMeans(ctx, negated, x, es, record);
      forall k | 0 <= k < |list|
        ensures Eval(ctx, Comparison(op, x, es[k]), record) == CompareMeanings(ctx, op, lhs, list[k], record)
      {
        assert es[k] == Lower(ctx, list[k]).value;
      }
      assert Compared(ctx, op, x, es, record) == ComparedMeanings(ctx, op, lhs, list, record);
    }
  }

  /** The first comparison that is not FALSE decides. */
  lemma {:induction false} InValuesFirst(v: Value, vs: seq<Value>, k: nat)
    requires k <= |vs| && forall j :: 0 <= j < k ==> CompareValues(v, vs[j]) == Int(0)
    requires k < |vs| ==> CompareValues(v, vs[k]) != Int(0)
    ensures InValues(v, vs) == if k < |vs| then CompareValues(v, vs[k]) else Int(0)
    decreases k
  {
    if k > 0 {
      InValuesFirst(v, vs[1..], k - 1);
    }
  }

  lemma {:induction false} FirstOtherValues(rs: seq<Result<Value>>, v: Value, vs: seq<Value>)
    requires |rs| == |vs| && forall k :: 0 <= k < |vs| ==> rs[k] == Ok(CompareValues(v, vs[k]))
    ensures FirstOther(rs, Int(0)) == Ok(InValues(v, vs))
  {
    if rs != [] {
      FirstOtherValues(rs[1..], v, vs[1..]);
    }
  }

  /** An expression has this type, and this value of it on the record. */
  ghost predicate IsWorth(ctx: Context, a: Ast, record: seq<Value>, t: DfType, v: Value) {
    Lower(ctx, a).Ok? && Lower(ctx, a).value.ty == t && Meaning(ctx, a, record) == Ok(v) && IsOf(v, t)
  }

  /** On values of one type, `x IN L` compares the value of `x` with those of `L`, in their order. */
  lemma {:induction false} InOfValues(ctx: Context, lhs: Ast, list: seq<Ast>, record: seq<Value>, t: DfType, v: Value,
                                      vs: seq<Value>)
    requires KeepsOwnType(ctx) && list != [] && |vs| == |list| && IsWorth(ctx, lhs, record, t, v)
    requires forall k :: 0 <= k < |list| ==> IsWorth(ctx, list[k], record, t, vs[k])
    ensures Meaning(ctx, In(lhs, list, false), record) == Ok(InValues(v, vs))
  {
    InMeans(ctx, lhs, list, false, record);
    var rs := ComparedMeanings(ctx, Equal, lhs, list, record);
    forall k | 0 <= k < |list| ensures rs[k] == Ok(CompareValues(v, vs[k])) {
      assert IsWorth(ctx, list[k], record, t, vs[k]);
    }
    FirstOtherValues(rs, v, vs);
  }

  function Constants(vs: seq<Value>, t: DfType): seq<Ast> {
    seq(|vs|, k requires 0 <= k < |vs| => Constant(vs[k], t))
  }

  /** A column `IN` constants of its type compares what the record has in that column. */
  lemma {:induction false} ColumnInConstants(ctx: Context, name: string, i: nat, t: DfType, vs: seq<Value>,
                                             record: seq<Value>)
    requires KeepsOwnType(ctx) && vs != [] && ctx.resolve(name) == Some((i, t))
    requires (i < |record| ==> IsOf(record[i], t)) && forall k :: 0 <= k < |vs| ==> IsOf(vs[k], t)
    ensures Meaning(ctx, In(ColumnName(name), Constants(vs, t), false), record) ==
            if i < |record| then Ok(InValues(record[i], vs)) else Err(NoSuchColumn)
  {
    var list := Constants(vs, t);
    if i < |record| {
      InOfValues(ctx, ColumnName(name), list, record, t, record[i], vs);
    } else {
      InMeans(ctx, ColumnName(name), list, false, record);
      var rs := ComparedMeanings(ctx, Equal, ColumnName(name), list, record);
      assert rs[0] == Err(NoSuchColumn);
    }
  }

  // ---------------------------------------------------------------- one type

  /** All elements have the type of `x`, which is not an array. */
  predicate SameTypes(x: Expr, es: seq<Expr>) {
    !x.ty.ArrayType? && forall i :: 0 <= i < |es| ==> es[i].ty == x.ty
  }

  /** A value, if there is one, that is compared as it is: of its type, and text where types are unknown. */
  predicate IsOfType(r: Result<Value>, t: DfType) {
    r.Ok? ==> IsOf(r.value, t)
  }

  predicate IsComparable(v: Value, t: DfType) {
    IsOf(v, t) && (t.Unknown? ==> v == Null || v.Text?)
  }

  /** The elements are worth values of their type. */
  ghost predicate WellTyped(ctx: Context, es: seq<Expr>, t: DfType, record: seq<Value>) {
    forall i :: 0 <= i < |es| ==> IsOfType(Eval(ctx, es[i], record), t)
  }

  /** ... which are texts where types are unknown. */
  ghost predicate Comparable(ctx: Context, es: seq<Expr>, t: DfType, record: seq<Value>) {
    forall i :: 0 <= i < |es| && Eval(ctx, es[i], record).Ok? ==> IsComparable(Eval(ctx, es[i], record).value, t)
  }

  lemma {:induction false} ComparisonOfValues(ctx: Context, x: Expr, e: Expr, record: seq<Value>)
    requires KeepsOwnType(ctx) && e.ty == x.ty && Eval(ctx, x, record).Ok? && IsOfType(Eval(ctx, e, record), x.ty)
    ensures Eval(ctx, Comparison(Equal, x, e), record) ==
            var r := Eval(ctx, e, record);
            if r.Err? then r else Ok(CompareValues(Eval(ctx, x, record).value, r.value))
  {
  }

  /** The chain of comparisons and the array read the elements in the same order: both meet the first
      error, or the chain is worth what the values of the array say. */
  lemma {:induction false} ChainOverArray(ctx: Context, x: Expr, a: Expr, record: seq<Value>, i: nat)
    requires KeepsOwnType(ctx) && a.ArrayExpr? && SameTypes(x, a.elements) && Eval(ctx, x, record).Ok?
    requires i <= |a.elements| && WellTyped(ctx, a.elements, x.ty, record)
    ensures FirstOther(Compared(ctx, Equal, x, a.elements, record)[i..], Int(0)) ==
            match EvalElements(ctx, a, record, i)
            case Err(z) => Err(z)
            case Ok(vs) => Ok(InValues(Eval(ctx, x, record).value, vs))
    decreases |a.elements| - i
  {
    var rs := Compared(ctx, Equal, x, a.elements, record);
    if i < |a.elements| {
      ChainOverArray(ctx, x, a, record, i + 1);
      ComparisonOfValues(ctx, x, a.elements[i], record);
      assert rs[i..][0] == rs[i] && rs[i..][1..] == rs[i + 1..];
    }
  }

  lemma ComparedAsItIs(ctx: Context, v: Value, t: DfType)
    requires ContextOk(ctx) && v != Null && IsComparable(v, t)
    ensures ctx.coerce(v, t, MemberType(t)) == Ok(v)
  {
  }

  lemma {:induction false} AnyOfValues(ctx: Context, v: Value, vs: seq<Value>, t: DfType)
    requires ContextOk(ctx) && forall w :: w in vs ==> IsComparable(w, t)
    ensures AnyOf(ctx, Equal, v, t, vs, MemberType(t)) == Ok(FromBool(v != Null && v in vs))
  {
    if vs != [] {
      if vs[0] != Null {
        ComparedAsItIs(ctx, vs[0], t);
      }
      AnyOfValues(ctx, v, vs[1..], t);
    }
  }

  /** No NULL comes before the first element equal to `v`. */
  predicate NoNullBeforeMatch(v: Value, vs: seq<Value>) {
    vs != [] ==> vs[0] == v || (vs[0] != Null && NoNullBeforeMatch(v, vs[1..]))
  }

  /** `IN` says what membership says exactly if no NULL comes before a match. */
  lemma {:induction false} InValuesIff(v: Value, vs: seq<Value>)
    requires vs != []
    ensures InValues(v, vs) == FromBool(v != Null && v in vs) <==> v != Null && NoNullBeforeMatch(v, vs)
  {
    if |vs| > 1 {
      InValuesIff(v, vs[1..]);
    } else {
      assert vs[1..] == [];
    }
  }

  ghost predicate NullFree(ctx: Context, x: Expr, es: seq<Expr>, record: seq<Value>) {
    Eval(ctx, x, record) != Ok(Null) && forall i :: 0 <= i < |es| ==> Eval(ctx, es[i], record) != Ok(Null)
  }

  lemma {:induction false} ElementsNullFree(ctx: Context, a: Expr, record: seq<Value>, i: nat)
    requires a.ArrayExpr? && i <= |a.elements|
    requires forall j :: 0 <= j < |a.elements| ==> Eval(ctx, a.elements[j], record) != Ok(Null)
    ensures EvalElements(ctx, a, record, i).Ok? ==>
              Null !in EvalElements(ctx, a, record, i).value &&
              |EvalElements(ctx, a, record, i).value| == |a.elements| - i
    decreases |a.elements| - i
  {
    if i < |a.elements| {
      ElementsNullFree(ctx, a, record, i + 1);
    }
  }

  lemma {:induction false} ElementsComparable(ctx: Context, a: Expr, t: DfType, record: seq<Value>, i: nat)
    requires a.ArrayExpr? && i <= |a.elements| && Comparable(ctx, a.elements, t, record)
    ensures EvalElements(ctx, a, record, i).Ok? ==>
              forall w :: w in EvalElements(ctx, a, record, i).value ==> IsComparable(w, t)
    decreases |a.elements| - i
  {
    if i < |a.elements| {
      ElementsComparable(ctx, a, t, record, i + 1);
    }
  }

  lemma {:induction false} NoNullNoProblem(v: Value, vs: seq<Value>)
    requires Null !in vs
    ensures NoNullBeforeMatch(v, vs)
  {
    if vs != [] {
      NoNullNoProblem(v, vs[1..]);
    }
  }

  /** On elements of one type without NULLs, the chain and `= ANY` have the same value or error. */
  lemma {:induction false} ChainIsAny(ctx: Context, x: Expr, a: Expr, record: seq<Value>)
    requires ContextOk(ctx) && a.ArrayExpr? && a.elements != [] && a.ty == ArrayType(MemberType(x.ty))
    requires SameTypes(x, a.elements) && NullFree(ctx, x, a.elements, record)
    requires Comparable(ctx, a.elements, x.ty, record)
    ensures Eval(ctx, Chain(false, x, a.elements), record) == Eval(ctx, OpAny(Equal, x, a, BoolType), record)
  {
    ChainMeans(ctx, false, x, a.elements, record);
    var rs := Compared(ctx, Equal, x, a.elements, record);
    var rx := Eval(ctx, x, record);
    assert rs[0] == Eval(ctx, Comparison(Equal, x, a.elements[0]), record);
    if rx.Ok? {
      ChainOverArray(ctx, x, a, record, 0);
      assert rs[0..] == rs;
      ElementsNullFree(ctx, a, record, 0);
      var vs := EvalElements(ctx, a, record, 0);
      if vs.Ok? {
        ElementsComparable(ctx, a, x.ty, record, 0);
        AnyOfValues(ctx, rx.value, vs.value, x.ty);
        NoNullNoProblem(rx.value, vs.value);
        InValuesIff(rx.value, vs.value);
      }
    }
  }

  lemma {:induction false} LowerAny(ctx: Context, lhs: Ast, right: Ast)
    ensures Lower(ctx, OpAnyOf(Equal, lhs, right)) ==
            if Lower(ctx, lhs).Err? then Lower(ctx, lhs)
            else match Lower(ctx, right)
              case Err(y) => Err(y)
              case Ok(r) =>
                if r.ty.ArrayType? || r.ty.Unknown? then Ok(OpAny(Equal, Lower(ctx, lhs).value, r, BoolType))
                else Err(Invalid)
  {
  }

  lemma {:induction false} LowerArray(ctx: Context, list: seq<Ast>, t: DfType)
    requires ContextOk(ctx) && list != [] && LowerParts(ctx, ArrayOf(list), 0).Ok?
    requires forall i :: 0 <= i < |LowerParts(ctx, ArrayOf(list), 0).value| ==>
               LowerParts(ctx, ArrayOf(list), 0).value[i].ty == t
    ensures Lower(ctx, ArrayOf(list)) ==
            Ok(ArrayExpr(LowerParts(ctx, ArrayOf(list), 0).value, ArrayType(MemberType(t))))
  {
    var es := LowerParts(ctx, ArrayOf(list), 0).value;
    var types := seq(|es|, i requires 0 <= i < |es| => es[i].ty);
    assert ctx.unify(types) == Ok(MemberType(t));
  }

  /** `x IN L` agrees with `x = ANY (ARRAY L)` on every record without NULLs, if all types match and values
      have their type; where all types are unknown, values are texts. */
  lemma {:induction false} InIsAny(ctx: Context, lhs: Ast, list: seq<Ast>, record: seq<Value>)
    requires ContextOk(ctx) && list != []
    requires Lower(ctx, lhs).Ok? && LowerParts(ctx, ArrayOf(list), 0).Ok? ==>
               SameTypes(Lower(ctx, lhs).value, LowerParts(ctx, ArrayOf(list), 0).value) &&
               NullFree(ctx, Lower(ctx, lhs).value, LowerParts(ctx, ArrayOf(list), 0).value, record) &&
               Comparable(ctx, LowerParts(ctx, ArrayOf(list), 0).value, Lower(ctx, lhs).value.ty, record)
    ensures Meaning(ctx, In(lhs, list, false), record) == Meaning(ctx, OpAnyOf(Equal, lhs, ArrayOf(list)), record)
  {
    SameParts(ctx, In(lhs, list, false), ArrayOf(list), 0);
    LowerIn(ctx, lhs, list, false);
    LowerAny(ctx, lhs, ArrayOf(list));
    if Lower(ctx, lhs).Ok? && LowerParts(ctx, ArrayOf(list), 0).Ok? {
      var x, es := Lower(ctx, lhs).value, LowerParts(ctx, ArrayOf(list), 0).value;
      LowerArray(ctx, list, x.ty);
      ChainIsAny(ctx, x, ArrayExpr(es, ArrayType(MemberType(x.ty))), record);
    }
  }

  /** With NULLs, where nothing fails, the two agree exactly if `x` is not NULL and no NULL comes before
      the first match. */
  lemma {:induction false} ChainIsAnyIff(ctx: Context, x: Expr, a: Expr, record: seq<Value>)
    requires ContextOk(ctx) && a.ArrayExpr? && a.elements != [] && a.ty == ArrayType(MemberType(x.ty))
    requires SameTypes(x, a.elements) && Eval(ctx, x, record).Ok? && EvalElements(ctx, a, record, 0).Ok?
    requires Comparable(ctx, a.elements, x.ty, record)
    ensures Eval(ctx, Chain(false, x, a.elements), record) == Eval(ctx, OpAny(Equal, x, a, BoolType), record) <==>
            Eval(ctx, x, record).value != Null &&
            NoNullBeforeMatch(Eval(ctx, x, record).value, EvalElements(ctx, a, record, 0).value)
  {
    var v, vs := Eval(ctx, x, record).value, EvalElements(ctx, a, record, 0).value;
    ChainOfValues(ctx, x, a, record);
    AnyOfArray(ctx, x, a, record);
    ElementsComparable(ctx, a, x.ty, record, 0);
    AnyOfValues(ctx, v, vs, x.ty);
    InValuesIff(v, vs);
  }

  /** Where nothing fails, the chain is worth what the values say. */
  lemma {:induction false} ChainOfValues(ctx: Context, x: Expr, a: Expr, record: seq<Value>)
    requires KeepsOwnType(ctx) && a.ArrayExpr? && a.elements != [] && SameTypes(x, a.elements)
    requires Eval(ctx, x, record).Ok? && EvalElements(ctx, a, record, 0).Ok?
    requires WellTyped(ctx, a.elements, x.ty, record)
    ensures EvalElements(ctx, a, record, 0).value != []
    ensures Eval(ctx, Chain(false, x, a.elements), record) ==
            Ok(InValues(Eval(ctx, x, record).value, EvalElements(ctx, a, record, 0).value))
  {
    ChainMeans(ctx, false, x, a.elements, record);
    ChainOverArray(ctx, x, a, record, 0);
    assert Compared(ctx, Equal, x, a.elements, record)[0..] == Compared(ctx, Equal, x, a.elements, record);
  }

  /** Where nothing fails, `= ANY` is the loop over the values. */
  lemma {:induction false} AnyOfArray(ctx: Context, x: Expr, a: Expr, record: seq<Value>)
    requires a.ArrayExpr? && a.ty == ArrayType(MemberType(x.ty)) && !x.ty.ArrayType?
    requires Eval(ctx, x, record).Ok? && EvalElements(ctx, a, record, 0).Ok?
    ensures Eval(ctx, OpAny(Equal, x, a, BoolType), record) ==
            AnyOf(ctx, Equal, Eval(ctx, x, record).value, x.ty, EvalElements(ctx, a, record, 0).value, MemberType(x.ty))
  {
    assert Eval(ctx, a, record) == Ok(Array(EvalElements(ctx, a, record, 0).value));
  }

  /** What `x op ANY (a)` and `x op ALL (a)` are worth: the error of `x`, or else of `a`; NULL if `a` is; an error
      if `a` is no array, or of a type that no array has; else what the loop over its members gives. Where the type
      of `a` is unknown it is first made an array of the type of `x`. */
  ghost predicate QuantifiedMeans(ctx: Context, op: BinaryOp, left: Ast, right: Ast, any: bool, record: seq<Value>,
                                  r: Result<Value>)
    requires Lower(ctx, left).Ok? && Lower(ctx, right).Ok?
  {
    var x, a := Meaning(ctx, left, record), Meaning(ctx, right, record);
    var lt, rt := Lower(ctx, left).value.ty, Lower(ctx, right).value.ty;
    if !rt.ArrayType? && !rt.Unknown? then r == Err(Invalid)
    else if x.Err? then r == x
    else if a.Err? then r == a
    else if a.value == Null then r == Ok(Null)
    else
      var coerced := if rt.Unknown? then ctx.coerce(a.value, ArrayType(lt), rt) else a;
      if coerced.Err? then r == coerced
      else if !coerced.value.Array? then r == Err(NotAnArray)
      else LoopResult(Results(ctx, op, x.value, lt, coerced.value.values, InnermostType(rt)), any, r)
  }

  lemma {:induction false} LowerQuantified(ctx: Context, op: BinaryOp, left: Ast, right: Ast)
    requires Lower(ctx, left).Ok? && Lower(ctx, right).Ok?
    ensures var l, r := Lower(ctx, left).value, Lower(ctx, right).value;
            var ok := r.ty.ArrayType? || r.ty.Unknown?;
            Lower(ctx, OpAnyOf(op, left, right)) == (if ok then Ok(OpAny(op, l, r, BoolType)) else Err(Invalid)) &&
            Lower(ctx, OpAllOf(op, left, right)) == if ok then Ok(OpAll(op, l, r, BoolType)) else Err(Invalid)
  {
  }

  lemma {:induction false} AnyMeans(ctx: Context, op: BinaryOp, left: Ast, right: Ast, record: seq<Value>)
    requires Lower(ctx, left).Ok? && Lower(ctx, right).Ok?
    ensures QuantifiedMeans(ctx, op, left, right, true, record, Meaning(ctx, OpAnyOf(op, left, right), record))
  {
    LowerQuantified(ctx, op, left, right);
    var l, r := Lower(ctx, left).value, Lower(ctx, right).value;
    var x, a := Eval(ctx, l, record), Eval(ctx, r, record);
    if x.Ok? && a.Ok? && MembersOf(ctx, l.ty, r.ty, a.value).Ok? {
      AnyOfLoops(ctx, op, x.value, l.ty, MembersOf(ctx, l.ty, r.ty, a.value).value, InnermostType(r.ty));
    }
  }

  lemma {:induction false} AllMeans(ctx: Context, op: BinaryOp, left: Ast, right: Ast, record: seq<Value>)
    requires Lower(ctx, left).Ok? && Lower(ctx, right).Ok?
    ensures QuantifiedMeans(ctx, op, left, right, false, record, Meaning(ctx, OpAllOf(op, left, right), record))
  {
    LowerQuantified(ctx, op, left, right);
    var l, r := Lower(ctx, left).value, Lower(ctx, right).value;
    var x, a := Eval(ctx, l, record), Eval(ctx, r, record);
    if x.Ok? && a.Ok? && MembersOf(ctx, l.ty, r.ty, a.value).Ok? {
      AllOfLoops(ctx, op, x.value, l.ty, MembersOf(ctx, l.ty, r.ty, a.value).value, InnermostType(r.ty));
    }
  }

  // ---------------------------------------------------------------- unknown types

  /** Every member up to the first one equal to `v`, that one included, is a text. */
  predicate TextsUntilMatch(v: Value, vs: seq<Value>) {
    vs != [] ==> vs[0].Text? && (vs[0] == v || TextsUntilMatch(v, vs[1..]))
  }

  lemma {:induction false} AnyOfUnknown(ctx: Context, v: Value, vs: seq<Value>)
    requires ContextOk(ctx) && v != Null && Null !in vs
    ensures AnyOf(ctx, Equal, v, Unknown, vs, TextType).Ok? <==> TextsUntilMatch(v, vs)
    ensures TextsUntilMatch(v, vs) ==> AnyOf(ctx, Equal, v, Unknown, vs, TextType) == Ok(FromBool(v in vs))
  {
    if vs != [] {
      AnyOfUnknown(ctx, v, vs[1..]);
    }
  }

  /** Where all types are unknown the array is one of texts. Then, where nothing fails and without NULLs,
      `IN` and `= ANY` agree exactly if every element up to the first match is a text. */
  lemma {:induction false} UnknownIsAnyIff(ctx: Context, x: Expr, a: Expr, record: seq<Value>)
    requires ContextOk(ctx) && a.ArrayExpr? && a.elements != [] && a.ty == ArrayType(MemberType(x.ty))
    requires SameTypes(x, a.elements) && x.ty.Unknown? && NullFree(ctx, x, a.elements, record)
    requires Eval(ctx, x, record).Ok? && EvalElements(ctx, a, record, 0).Ok?
    ensures Eval(ctx, Chain(false, x, a.elements), record) == Eval(ctx, OpAny(Equal, x, a, BoolType), record) <==>
            TextsUntilMatch(Eval(ctx, x, record).value, EvalElements(ctx, a, record, 0).value)
  {
    var v, vs := Eval(ctx, x, record).value, EvalElements(ctx, a, record, 0).value;
    ChainOfValues(ctx, x, a, record);
    AnyOfArray(ctx, x, a, record);
    ElementsNullFree(ctx, a, record, 0);
    NoNullNoProblem(v, vs);
    InValuesIff(v, vs);
    AnyOfUnknown(ctx, v, vs);
  }

  // ---------------------------------------------------------------- NOT IN and <> ALL

  lemma {:induction false} AllOfValues(ctx: Context, v: Value, vs: seq<Value>, t: DfType)
    requires ContextOk(ctx) && forall w :: w in vs ==> IsComparable(w, t)
    ensures AllOf(ctx, NotEqual, v, t, vs, MemberType(t)) ==
            Ok(FromBool(vs == [] || (v != Null && Null !in vs && v !in vs)))
  {
    if vs != [] {
      if vs[0] != Null {
        ComparedAsItIs(ctx, vs[0], t);
      }
      AllOfValues(ctx, v, vs[1..], t);
    }
  }

  lemma {:induction false} ChainIsAll(ctx: Context, x: Expr, a: Expr, record: seq<Value>)
    requires ContextOk(ctx) && a.ArrayExpr? && a.elements != [] && a.ty == ArrayType(MemberType(x.ty))
    requires SameTypes(x, a.elements) && NullFree(ctx, x, a.elements, record)
    requires Comparable(ctx, a.elements, x.ty, record)
    ensures Eval(ctx, Chain(true, x, a.elements), record) == Eval(ctx, OpAll(NotEqual, x, a, BoolType), record)
  {
    ChainNegated(ctx, x, a.elements, record);
    ChainIsAny(ctx, x, a, record);
    ElementsNullFree(ctx, a, record, 0);
    var rx, vs := Eval(ctx, x, record), EvalElements(ctx, a, record, 0);
    if rx.Ok? && vs.Ok? {
      ElementsComparable(ctx, a, x.ty, record, 0);
      AnyOfValues(ctx, rx.value, vs.value, x.ty);
      AllOfValues(ctx, rx.value, vs.value, x.ty);
    }
  }

  lemma {:induction false} LowerAll(ctx: Context, lhs: Ast, right: Ast)
    ensures Lower(ctx, OpAllOf(NotEqual, lhs, right)) ==
            if Lower(ctx, lhs).Err? then Lower(ctx, lhs)
            else match Lower(ctx, right)
              case Err(y) => Err(y)
              case Ok(r) =>
                if r.ty.ArrayType? || r.ty.Unknown? then Ok(OpAll(NotEqual, Lower(ctx, lhs).value, r, BoolType))
                else Err(Invalid)
  {
  }

  /** `x NOT IN L` agrees with `x <> ALL (ARRAY L)` on every record without NULLs, under the same
      conditions. */
  lemma {:induction false} NotInIsAll(ctx: Context, lhs: Ast, list: seq<Ast>, record: seq<Value>)
    requires ContextOk(ctx) && list != []
    requires Lower(ctx, lhs).Ok? && LowerParts(ctx, ArrayOf(list), 0).Ok? ==>
               SameTypes(Lower(ctx, lhs).value, LowerParts(ctx, ArrayOf(list), 0).value) &&
               NullFree(ctx, Lower(ctx, lhs).value, LowerParts(ctx, ArrayOf(list), 0).value, record) &&
               Comparable(ctx, LowerParts(ctx, ArrayOf(list), 0).value, Lower(ctx, lhs).value.ty, record)
    ensures Meaning(ctx, In(lhs, list, true), record) == Meaning(ctx, OpAllOf(NotEqual, lhs, ArrayOf(list)), record)
  {
    SameParts(ctx, In(lhs, list, true), ArrayOf(list), 0);
    LowerIn(ctx, lhs, list, true);
    LowerAll(ctx, lhs, ArrayOf(list));
    if Lower(ctx, lhs).Ok? && LowerParts(ctx, ArrayOf(list), 0).Ok? {
      var x, es := Lower(ctx, lhs).value, LowerParts(ctx, ArrayOf(list), 0).value;
      LowerArray(ctx, list, x.ty);
      ChainIsAll(ctx, x, ArrayExpr(es, ArrayType(MemberType(x.ty))), record);
    }
  }
}
