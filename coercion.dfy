/** The coercion decision of `add_coercion` (lib/typecheck.cpp): given the
    type of an argument and the type a function parameter expects, either
    keep the argument, wrap it in `set2array`, wrap it in one of the
    numeric widenings `bool2int`, `bool2float`, `int2float`, or fail.

    Overload resolution (`matchFn` followed by `rtype`) is not part of this
    model: it is the parameter `resolve`, which answers the result type of a
    conversion call on an argument of the given type, or None when no
    declaration matches. `StdResolve` is the signature table of the
    standard library's conversion functions. */
module Coercion {
  import opened Types

  datatype Conversion = Set2Array | Bool2Int | Bool2Float | Int2Float

  datatype CoercionError =
    | VarSetToArray
    | OptSetToArray
    | CannotDetermine(from: Type, to: Type)

  /** The conversion calls wrapped around the argument, innermost first,
      and the type of the resulting expression. */
  datatype Coerced = Coerced(conversions: seq<Conversion>, ty: Type)

  /** The numeric widenings the checker inserts on its own. */
  predicate Widens(a: BaseType, b: BaseType) {
    (a == Bool && b == Int) || (a == Bool && b == Float) || (a == Int && b == Float)
  }

  /** The base kind a widening converts from and to. */
  function Source(c: Conversion): BaseType
    requires c != Set2Array
  {
    match c
    case Bool2Int => Bool
    case Bool2Float => Bool
    case Int2Float => Int
  }

  function Target(c: Conversion): BaseType
    requires c != Set2Array
  {
    match c
    case Bool2Int => Int
    case Bool2Float => Float
    case Int2Float => Float
  }

  /** The widening from `a` to `b`, if there is one. */
  function WideningFor(a: BaseType, b: BaseType): (c: Option<Conversion>)
    ensures c.Some? <==> Widens(a, b)
    ensures c.Some? ==> c.value != Set2Array && Source(c.value) == a && Target(c.value) == b
  {
    if a == Bool && b == Int then Some(Bool2Int)
    else if a == Bool && b == Float then Some(Bool2Float)
    else if a == Int && b == Float then Some(Int2Float)
    else None
  }

  /** The argument needs no coercion: same dimension, and the parameter
      accepts anything of that shape or the base kinds already agree. */
  predicate NoCoercionNeeded(e: Type, t: Type) {
    e.dim == t.dim && (t.bt == Bot || t.bt == Top || e.bt == t.bt || e.bt == Bot)
  }

  /** The decision of `add_coercion` for argument type `e` and parameter type `t`. */
  function Coerce(e: Type, t: Type, resolve: (Conversion, Type) -> Option<Type>): (r: Result<Coerced, CoercionError>)
    ensures NoCoercionNeeded(e, t) ==> r == Ok(Coerced([], e))
    ensures e.dim == 0 && t.dim != 0 && e.IsVar() ==> r == Err(VarSetToArray)
    ensures e.dim == 0 && t.dim != 0 && !e.IsVar() && e.IsOpt() ==> r == Err(OptSetToArray)
    ensures r.Err? && (r.error.VarSetToArray? || r.error.OptSetToArray?) ==> e.dim == 0 && t.dim != 0
    ensures r.Ok? ==> |r.value.conversions| <= 2
    ensures r.Ok? ==> forall k :: 0 <= k < |r.value.conversions| ==>
      (r.value.conversions[k] == Set2Array <==> k == 0 && e.dim == 0 && t.dim != 0 && resolve(Set2Array, e).Some?)
  {
    if NoCoercionNeeded(e, t) then Ok(Coerced([], e))
    else if e.dim == 0 && t.dim != 0 && e.IsVar() then Err(VarSetToArray)
    else if e.dim == 0 && t.dim != 0 && e.IsOpt() then Err(OptSetToArray)
    else
      var toArray := e.dim == 0 && t.dim != 0 && resolve(Set2Array, e).Some?;
      var pre := if toArray then [Set2Array] else [];
      var e1 := if toArray then resolve(Set2Array, e).value else e;
      if t.bt == Top || e1.bt == t.bt || e1.bt == Bot then Ok(Coerced(pre, e1))
      else
        match WideningFor(e1.bt, t.bt)
        case None => Err(CannotDetermine(e1, t))
        case Some(c) =>
          match resolve(c, e1)
          case None => Err(CannotDetermine(e1, t))
          case Some(ct) => Ok(Coerced(pre + [c], ct.(cv := e1.cv || ct.cv)))
  }

  /** The standard library's conversion signatures: `set2array` turns a
      scalar set into a one-dimensional array of its element kind, and each
      widening keeps the shape and changes the base kind. */
  function StdResolve(c: Conversion, x: Type): Option<Type> {
    match c
    case Set2Array => if x.dim == 0 && x.st == Set then Some(x.(st := Plain, dim := 1)) else None
    case Bool2Int => if x.bt == Bool then Some(x.(bt := Int)) else None
    case Bool2Float => if x.bt == Bool then Some(x.(bt := Float)) else None
    case Int2Float => if x.bt == Int then Some(x.(bt := Float)) else None
  }

  /** Whatever the overload resolution answers, a numeric conversion the
      checker inserts is one of the three widenings, it goes from the base
      kind of the argument (after any `set2array`) to the parameter's, and
      it comes last. */
  lemma CoercionOnlyWidens(e: Type, t: Type, resolve: (Conversion, Type) -> Option<Type>)
    requires Coerce(e, t, resolve).Ok?
    ensures var c := Coerce(e, t, resolve).value;
      forall k :: 0 <= k < |c.conversions| && c.conversions[k] != Set2Array ==>
        k == |c.conversions| - 1 && Widens(Source(c.conversions[k]), Target(c.conversions[k]))
        && Target(c.conversions[k]) == t.bt
        && (k == 0 ==> Source(c.conversions[k]) == e.bt)
        && (k > 0 ==> resolve(Set2Array, e).Some? && Source(c.conversions[k]) == resolve(Set2Array, e).value.bt)
  {
  }

  /** With the standard signatures and equal dimensions, an argument of a
      proper base kind is accepted by a parameter of a proper base kind
      exactly when the kinds agree or a widening joins them; the result
      then has the parameter's base kind and the argument's shape and
      instantiation. */
  lemma StdCoercionExact(e: Type, t: Type)
    requires e.dim == t.dim
    requires e.bt != Bot && t.bt != Bot && t.bt != Top
    ensures Coerce(e, t, StdResolve).Ok? <==> e.bt == t.bt || Widens(e.bt, t.bt)
    ensures Coerce(e, t, StdResolve).Ok? ==>
      var c := Coerce(e, t, StdResolve).value;
      c.ty == e.(bt := t.bt) && (c.conversions == [] <==> e.bt == t.bt)
  {
  }

  /** With the standard signatures a par, non-optional scalar set passed
      where an array is expected becomes a one-dimensional array, widened
      if its element kind asks for it. */
  lemma StdSetToArray(e: Type, t: Type)
    requires e.dim == 0 && e.st == Set && e.IsPar() && !e.IsOpt()
    requires t.dim != 0 && t.bt != Top && t.bt != Bot && e.bt != Bot
    requires e.bt == t.bt || Widens(e.bt, t.bt)
    ensures Coerce(e, t, StdResolve).Ok?
    ensures var c := Coerce(e, t, StdResolve).value;
      c.conversions[0] == Set2Array && c.ty == e.(st := Plain, dim := 1, bt := t.bt)
  {
  }

  /** With the standard signatures coercing is idempotent: the result of a
      successful coercion needs no further conversion. */
  lemma StdCoercionIdempotent(e: Type, t: Type)
    requires Coerce(e, t, StdResolve).Ok?
    ensures var c := Coerce(e, t, StdResolve).value;
      Coerce(c.ty, t, StdResolve) == Ok(Coerced([], c.ty))
  {
  }
}
