/** The rewrite of a comparison with a var `count` (or `sum`) into a call
    of one of the `count_*` constraints (`Typer::vBinOp`, lib/typecheck.cpp).

    `count_X(xs, y, c)` constrains `c` against the number `n` of elements of
    `xs` equal to `y`: `count_eq` is `c = n`, `count_leq` is `c <= n`,
    `count_lt` is `c < n`, `count_geq` is `c >= n`, `count_gt` is `c > n`,
    `count_neq` is `c != n`. So `n >= c` becomes `count_leq`, and when the
    count stands on the right of the operator the operator is mirrored first.

    Expressions are abstracted to what the rewrite inspects: the operand
    types, whether an operand is a call and to what, and for a one-argument
    call over a comprehension, the shape of the comprehension's body.
    Resolving the `count_*` declaration is not part of this model. */
module CountRewrite {

  /** The comparison operators: `=`, `!=`, `<`, `<=`, `>`, `>=`. */
  datatype Cmp = Eq | Ne | Lt | Le | Gt | Ge

  datatype BinOpKind = Compare(c: Cmp) | OtherOp

  datatype CountFn = CountEq | CountNeq | CountLt | CountLeq | CountGt | CountGeq

  datatype CallName = Count | Sum | OtherFn

  /** The side of the comprehension body's equality. */
  datatype Side = Left | Right

  /** The body of the comprehension: an equality `l = r` with the facts the
      rewrite reads, or anything else. */
  datatype Body =
    | BodyEq(leftIsInt: bool, leftOpt: bool, rightOpt: bool, leftBound: bool, rightBound: bool)
    | OtherBody

  datatype Args = OneComprehension(body: Body) | IntArrayAndInt | OtherArgs

  datatype Operand = Call(name: CallName, isVar: bool, args: Args) | NotACall

  datatype BinOp = BinOp(op: BinOpKind, lhs: Operand, rhs: Operand, lhsIsInt: bool, rhsIsInt: bool)

  /** The outcome: unchanged, or a call of `fn` whose last argument is the
      operand opposite the count (`callOnRight` says the count was the right
      operand). For a comprehension the body is replaced by `generated` and
      the value counted is `comparedTo`. */
  datatype Rewrite =
    | Unchanged
    | CountOverComprehension(fn: CountFn, generated: Side, comparedTo: Side, callOnRight: bool)
    | CountOverArray(fn: CountFn, callOnRight: bool)

  /** The operator seen from the other side: `a op b` is `b Mirror(op) a`. */
  function Mirror(c: Cmp): (r: Cmp)
    ensures forall x: int, y: int :: EvalCmp(r, y, x) == EvalCmp(c, x, y)
  {
    match c
    case Le => Ge
    case Lt => Gt
    case Ge => Le
    case Gt => Lt
    case Eq => Eq
    case Ne => Ne
  }

  /** The `count_*` constraint for `n op c`, with `n` the count. */
  function CountFor(c: Cmp): (r: CountFn)
    ensures forall n: int, m: int :: CountHolds(r, n, m) == EvalCmp(c, n, m)
  {
    match c
    case Eq => CountEq
    case Ge => CountLeq
    case Gt => CountLt
    case Le => CountGeq
    case Lt => CountGt
    case Ne => CountNeq
  }

  function Other(s: Side): Side {
    if s == Left then Right else Left
  }

  /** The rewrite decision: with `n` the count's value and `m` the other
      operand's, the chosen constraint holds exactly when the comparison does. */
  function RewriteCount(b: BinOp): (r: Rewrite)
    ensures r != Unchanged ==> b.op.Compare? && r.callOnRight == !b.lhs.Call?
    ensures r != Unchanged ==> forall n: int, m: int ::
      CountHolds(r.fn, n, m) == (if r.callOnRight then EvalCmp(b.op.c, m, n) else EvalCmp(b.op.c, n, m))
  {
    if !(b.lhsIsInt && b.rhsIsInt && b.op.Compare?) then Unchanged
    else
      var onRight := !b.lhs.Call?;
      var call := if onRight then b.rhs else b.lhs;
      var bot := if onRight then Mirror(b.op.c) else b.op.c;
      if !(call.Call? && call.name != OtherFn && call.isVar) then Unchanged
      else
        match call.args
        case OneComprehension(body) =>
          if body.BodyEq? && body.leftIsInt && !body.leftOpt && !body.rightOpt then
            if body.rightBound && body.leftBound then Unchanged
            else if body.rightBound then CountOverComprehension(CountFor(bot), Right, Left, onRight)
            else CountOverComprehension(CountFor(bot), Left, Right, onRight)
          else Unchanged
        case IntArrayAndInt => CountOverArray(CountFor(bot), onRight)
        case OtherArgs => Unchanged
  }

  function EvalCmp(c: Cmp, x: int, y: int): bool {
    match c
    case Eq => x == y
    case Ne => x != y
    case Lt => x < y
    case Le => x <= y
    case Gt => x > y
    case Ge => x >= y
  }

  /** The meaning of `count_X(xs, y, c)` when `n` elements of `xs` equal `y`. */
  function CountHolds(f: CountFn, n: int, c: int): bool {
    match f
    case CountEq => c == n
    case CountNeq => c != n
    case CountLt => c < n
    case CountLeq => c <= n
    case CountGt => c > n
    case CountGeq => c >= n
  }

  /** Mirroring is an involution and does what it says. */
  lemma MirrorSwaps(c: Cmp, x: int, y: int)
    ensures Mirror(Mirror(c)) == c
    ensures EvalCmp(Mirror(c), y, x) == EvalCmp(c, x, y)
  {
  }

  /** The rewrite keeps the meaning: with `n` the value of the count and `m`
      the value of the other operand, the original comparison holds exactly
      when the `count_*` constraint does. */
  lemma RewriteSound(b: BinOp, n: int, m: int)
    requires RewriteCount(b) != Unchanged
    ensures b.op.Compare?
    ensures RewriteCount(b).callOnRight == !b.lhs.Call?
    ensures var original := if RewriteCount(b).callOnRight then EvalCmp(b.op.c, m, n) else EvalCmp(b.op.c, n, m);
      original <==> CountHolds(RewriteCount(b).fn, n, m)
  {
  }

  /** Only a var `count` or `sum` over int operands of a comparison is rewritten. */
  lemma RewriteNeedsVarCount(b: BinOp)
    requires RewriteCount(b) != Unchanged
    ensures b.lhsIsInt && b.rhsIsInt
    ensures var call := if b.lhs.Call? then b.lhs else b.rhs;
      call.Call? && call.isVar && (call.name == Count || call.name == Sum)
  {
  }

  /** In a comprehension the counted value is the side of the equality
      that mentions no generator variable, and the other side is generated. */
  lemma ComprehensionSides(b: BinOp)
    requires RewriteCount(b).CountOverComprehension?
    ensures var call := if b.lhs.Call? then b.lhs else b.rhs;
      var body := call.args.body;
      var r := RewriteCount(b);
      r.generated == Other(r.comparedTo) &&
      (if r.comparedTo == Right then !body.rightBound else !body.leftBound)
  {
  }

  /** The number of positions where the generated value equals `c`. */
  function Occurrences(xs: seq<int>, c: int): nat {
    if xs == [] then 0 else (if xs[0] == c then 1 else 0) + Occurrences(xs[1..], c)
  }

  /** The number of generator instances whose body `l = r` holds. */
  function Holding(pairs: seq<(int, int)>): nat {
    if pairs == [] then 0 else (if pairs[0].0 == pairs[0].1 then 1 else 0) + Holding(pairs[1..])
  }

  function Project(pairs: seq<(int, int)>, s: Side): (r: seq<int>)
    ensures |r| == |pairs|
    ensures forall k :: 0 <= k < |r| ==> r[k] == (if s == Left then pairs[k].0 else pairs[k].1)
  {
    if pairs == [] then [] else [if s == Left then pairs[0].0 else pairs[0].1] + Project(pairs[1..], s)
  }

  /** When the counted side has the same value `c` for every generator
      instance (it mentions no generator variable), counting the generated
      side's occurrences of `c` counts the instances whose equality holds,
      whichever side was counted. */
  lemma {:induction false} CountingPreserved(pairs: seq<(int, int)>, comparedTo: Side, c: int)
    requires forall k :: 0 <= k < |pairs| ==> (if comparedTo == Left then pairs[k].0 else pairs[k].1) == c
    ensures Occurrences(Project(pairs, Other(comparedTo)), c) == Holding(pairs)
  {
    if pairs != [] {
      CountingPreserved(pairs[1..], comparedTo, c);
    }
  }
}
