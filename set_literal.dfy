/** Typing a set literal (`Typer::vSetLit`, lib/typecheck.cpp): the element
    types are joined left to right into the literal's type, then every
    element is coerced to it.

    The base-kind subtype test `Type::btSubtype` is not part of this model:
    it is the parameter `sub`. `StdSubtype` is the instance the lemmas use:
    equal base kinds, or one of the numeric widenings. */
module SetLiteral {
  import opened Types
  import opened Coercion

  /** An element of the literal: its type, and whether it is the absent value `<>`. */
  datatype Elem = Elem(t: Type, absent: bool)

  /** A literal already evaluated to an integer or float set value, or a
      list of element expressions. */
  datatype SetLit = IntSetValue(enumId: nat) | FloatSetValue | Elements(v: seq<Elem>)

  datatype SetLitError =
    | ContainsArray(k: nat)
    | ContainsSet(k: nat)
    | NonUniform
    | VarElementNotInt
    | CoercionFailed(k: nat, error: CoercionError)

  /** The literal's type and, for each element, the coercion applied to it. */
  datatype Typed = Typed(ty: Type, coerced: seq<Coerced>)

  /** The running join: the literal's type so far and the enum identity
      still shared by the elements seen. */
  datatype Acc = Acc(ty: Type, enumId: nat)

  /** A par, non-optional set of not-yet-known element kind. */
  const UnknownSet: Type := Type(Par, Unknown, Set, Present, false, 0, 0)

  /** Equal base kinds, or a numeric widening. */
  predicate StdSubtype(a: Type, b: Type) {
    a.bt == b.bt || Widens(a.bt, b.bt)
  }

  function Start(v: seq<Elem>): Acc {
    Acc(UnknownSet, if |v| == 0 then 0 else v[0].t.enumId)
  }

  /** One iteration of the join over element `e` at index `k`. */
  function Step(a: Acc, e: Elem, k: nat, sub: (Type, Type) -> bool): Result<Acc, SetLitError> {
    var vi := e.t.(ot := Present);
    if e.absent then Ok(a)
    else if vi.dim > 0 then Err(ContainsArray(k))
    else if vi.st == Set then Err(ContainsSet(k))
    else
      var ty := a.ty.(ti := if vi.IsVar() then Var else a.ty.ti, cv := a.ty.cv || vi.cv);
      var en := if a.enumId != vi.enumId then 0 else a.enumId;
      if sub(vi, ty) then Ok(Acc(ty, en))
      else if ty.bt == Unknown || sub(ty, vi) then Ok(Acc(ty.(bt := vi.bt), en))
      else Err(NonUniform)
  }

  /** The join after the first `n` elements. */
  function Join(v: seq<Elem>, n: nat, sub: (Type, Type) -> bool): Result<Acc, SetLitError>
    requires n <= |v|
  {
    if n == 0 then Ok(Start(v))
    else
      match Join(v, n - 1, sub)
      case Err(err) => Err(err)
      case Ok(a) => Step(a, v[n - 1], n - 1, sub)
  }

  /** The literal's type once the join is complete: no element kind means
      the bottom kind; a var set must be a set of int, and a var set of bool
      is promoted to one. */
  function Finish(a: Acc): Result<Type, SetLitError> {
    var ty := a.ty.(enumId := a.enumId);
    if ty.bt == Unknown then Ok(ty.(bt := Bot))
    else if ty.IsVar() && ty.bt != Int then
      if ty.bt == Bool then Ok(ty.(bt := Int)) else Err(VarElementNotInt)
    else Ok(ty)
  }

  /** Coercing the first `n` elements to the literal's type. */
  function CoerceAll(v: seq<Elem>, n: nat, ty: Type, resolve: (Conversion, Type) -> Option<Type>): Result<seq<Coerced>, SetLitError>
    requires n <= |v|
  {
    if n == 0 then Ok([])
    else
      match CoerceAll(v, n - 1, ty, resolve)
      case Err(err) => Err(err)
      case Ok(cs) =>
        match Coerce(v[n - 1].t, ty, resolve)
        case Err(err) => Err(CoercionFailed(n - 1, err))
        case Ok(c) => Ok(cs + [c])
  }

  /** The type the checker gives a set literal. */
  function SetLitType(lit: SetLit, sub: (Type, Type) -> bool, resolve: (Conversion, Type) -> Option<Type>): Result<Typed, SetLitError> {
    match lit
    case IntSetValue(en) => Ok(Typed(Type(Par, Int, Set, Present, false, 0, en), []))
    case FloatSetValue => Ok(Typed(Type(Par, Float, Set, Present, false, 0, 0), []))
    case Elements(v) =>
      match Join(v, |v|, sub)
      case Err(err) => Err(err)
      case Ok(a) =>
        if a.ty.bt == Unknown then
          Ok(Typed(a.ty.(enumId := a.enumId, bt := Bot), seq(|v|, k requires 0 <= k < |v| => Coerced([], v[k].t))))
        else
          match Finish(a)
          case Err(err) => Err(err)
          case Ok(ty) =>
            match CoerceAll(v, |v|, ty, resolve)
            case Err(err) => Err(err)
            case Ok(cs) => Ok(Typed(ty, cs))
  }

  /** The visitor's first loop: join the element types, rejecting arrays,
      sets and non-uniform kinds. */
  method JoinElements(v: seq<Elem>, sub: (Type, Type) -> bool) returns (r: Result<Acc, SetLitError>)
    ensures r == Join(v, |v|, sub)
  {
    var ty := UnknownSet;
    var enumId: nat := if |v| == 0 then 0 else v[0].t.enumId;
    var i := 0;
    while i < |v|
      invariant 0 <= i <= |v|
      invariant Join(v, i, sub) == Ok(Acc(ty, enumId))
    {
      assert Join(v, i + 1, sub) == Step(Acc(ty, enumId), v[i], i, sub);
      var vi := v[i].t.(ot := Present);
      if !v[i].absent {
        if vi.dim > 0 {
          JoinSticky(v, i + 1, |v|, sub);
          return Err(ContainsArray(i));
        }
        if vi.st == Set {
          JoinSticky(v, i + 1, |v|, sub);
          return Err(ContainsSet(i));
        }
        if vi.IsVar() {
          ty := ty.(ti := Var);
        }
        if vi.cv {
          ty := ty.(cv := true);
        }
        if enumId != vi.enumId {
          enumId := 0;
        }
        if !sub(vi, ty) {
          if ty.bt == Unknown || sub(ty, vi) {
            ty := ty.(bt := vi.bt);
          } else {
            JoinSticky(v, i + 1, |v|, sub);
            return Err(NonUniform);
          }
        }
      }
      i := i + 1;
    }
    r := Ok(Acc(ty, enumId));
  }

  /** The visitor: join the element types, then coerce every element in a
      second loop. */
  method TypeSetLit(lit: SetLit, sub: (Type, Type) -> bool, resolve: (Conversion, Type) -> Option<Type>)
    returns (r: Result<Typed, SetLitError>)
    ensures r == SetLitType(lit, sub, resolve)
  {
    if lit.IntSetValue? {
      return Ok(Typed(Type(Par, Int, Set, Present, false, 0, lit.enumId), []));
    }
    if lit.FloatSetValue? {
      return Ok(Typed(Type(Par, Float, Set, Present, false, 0, 0), []));
    }
    var v := lit.v;
    var joined := JoinElements(v, sub);
    if joined.Err? {
      return Err(joined.error);
    }
    var ty := joined.value.ty.(enumId := joined.value.enumId);
    if ty.bt == Unknown {
      ty := ty.(bt := Bot);
      return Ok(Typed(ty, seq(|v|, k requires 0 <= k < |v| => Coerced([], v[k].t))));
    }
    if ty.IsVar() && ty.bt != Int {
      if ty.bt == Bool {
        ty := ty.(bt := Int);
      } else {
        return Err(VarElementNotInt);
      }
    }
    var cs := [];
    var i := 0;
    while i < |v|
      invariant 0 <= i <= |v|
      invariant CoerceAll(v, i, ty, resolve) == Ok(cs)
    {
      var c := Coerce(v[i].t, ty, resolve);
      if c.Err? {
        CoerceAllSticky(v, i + 1, |v|, ty, resolve);
        return Err(CoercionFailed(i, c.error));
      }
      cs := cs + [c.value];
      i := i + 1;
    }
    r := Ok(Typed(ty, cs));
  }

  /** Once the join has failed it stays failed with the same error. */
  lemma {:induction false} JoinSticky(v: seq<Elem>, i: nat, j: nat, sub: (Type, Type) -> bool)
    requires i <= j <= |v| && Join(v, i, sub).Err?
    ensures Join(v, j, sub) == Join(v, i, sub)
    decreases j - i
  {
    if i < j {
      JoinSticky(v, i, j - 1, sub);
    }
  }

  lemma {:induction false} CoerceAllSticky(v: seq<Elem>, i: nat, j: nat, ty: Type, resolve: (Conversion, Type) -> Option<Type>)
    requires i <= j <= |v| && CoerceAll(v, i, ty, resolve).Err?
    ensures CoerceAll(v, j, ty, resolve) == CoerceAll(v, i, ty, resolve)
    decreases j - i
  {
    if i < j {
      CoerceAllSticky(v, i, j - 1, ty, resolve);
    }
  }

  /** A successful coercion pass yields one coercion per element, each the
      coercion of that element to the literal's type. */
  lemma {:induction false} CoerceAllEach(v: seq<Elem>, n: nat, ty: Type, resolve: (Conversion, Type) -> Option<Type>)
    requires n <= |v| && CoerceAll(v, n, ty, resolve).Ok?
    ensures var cs := CoerceAll(v, n, ty, resolve).value;
      |cs| == n && forall k :: 0 <= k < n ==> Coerce(v[k].t, ty, resolve) == Ok(cs[k])
  {
    if n > 0 {
      CoerceAllEach(v, n - 1, ty, resolve);
    }
  }

  /** What one successful step of the join records about its element. */
  lemma StepFacts(a: Acc, e: Elem, k: nat, sub: (Type, Type) -> bool)
    requires Step(a, e, k, sub).Ok?
    ensures var r := Step(a, e, k, sub).value;
      && (!e.absent ==> e.t.dim <= 0 && e.t.st == Plain)
      && r.ty.st == a.ty.st && r.ty.dim == a.ty.dim && r.ty.ot == a.ty.ot && r.ty.enumId == a.ty.enumId
      && (r.ty.IsVar() <==> a.ty.IsVar() || (!e.absent && e.t.IsVar()))
      && (r.ty.cv <==> a.ty.cv || (!e.absent && e.t.cv))
      && r.enumId == (if !e.absent && a.enumId != e.t.enumId then 0 else a.enumId)
      && (e.absent ==> r == a)
  {
  }

  /** What a successful join over the first `n` elements has seen: no
      array or set element, the set is var exactly when some element is,
      contains-var exactly when some element does, and the enum identity of
      the first element survives exactly when every present element shares it. */
  lemma {:induction false} JoinFacts(v: seq<Elem>, n: nat, sub: (Type, Type) -> bool)
    requires n <= |v| && Join(v, n, sub).Ok?
    ensures var a := Join(v, n, sub).value;
      && a.ty.st == Set && a.ty.dim == 0 && a.ty.ot == Present && a.ty.enumId == 0
      && (forall k :: 0 <= k < n && !v[k].absent ==> v[k].t.dim <= 0 && v[k].t.st == Plain)
      && (a.ty.IsVar() <==> exists k :: 0 <= k < n && !v[k].absent && v[k].t.IsVar())
      && (a.ty.cv <==> exists k :: 0 <= k < n && !v[k].absent && v[k].t.cv)
      && a.enumId == (if forall k :: 0 <= k < n && !v[k].absent ==> v[k].t.enumId == Start(v).enumId
                      then Start(v).enumId else 0)
      && ((forall k :: 0 <= k < n ==> v[k].absent) ==> a.ty.bt == Unknown)
  {
    if n > 0 {
      JoinFacts(v, n - 1, sub);
      var a := Join(v, n - 1, sub).value;
      StepFacts(a, v[n - 1], n - 1, sub);
      if !v[n - 1].absent && a.enumId != v[n - 1].t.enumId {
        assert !(forall k :: 0 <= k < n && !v[k].absent ==> v[k].t.enumId == Start(v).enumId) by {
          if a.enumId != 0 {
            assert a.enumId == Start(v).enumId;
          } else {
            assert !(forall k :: 0 <= k < n - 1 && !v[k].absent ==> v[k].t.enumId == Start(v).enumId)
              || Start(v).enumId == 0;
          }
        }
      }
    }
  }

  /** A literal the checker accepts contains no arrays and no sets. */
  lemma SetLitScalarElements(v: seq<Elem>, sub: (Type, Type) -> bool, resolve: (Conversion, Type) -> Option<Type>)
    requires SetLitType(Elements(v), sub, resolve).Ok?
    ensures forall k :: 0 <= k < |v| && !v[k].absent ==> v[k].t.dim <= 0 && v[k].t.st == Plain
  {
    JoinFacts(v, |v|, sub);
  }

  /** The literal is a var set exactly when one of its present elements is
      var, and then it is a set of int unless no element kind was found. */
  lemma SetLitVarIff(v: seq<Elem>, sub: (Type, Type) -> bool, resolve: (Conversion, Type) -> Option<Type>)
    requires SetLitType(Elements(v), sub, resolve).Ok?
    ensures var ty := SetLitType(Elements(v), sub, resolve).value.ty;
      (ty.IsVar() <==> exists k :: 0 <= k < |v| && !v[k].absent && v[k].t.IsVar())
      && (ty.IsVar() && ty.bt != Bot ==> ty.bt == Int)
  {
    JoinFacts(v, |v|, sub);
  }

  /** A var set literal whose elements join to a kind other than int or
      bool is rejected: only var sets of int exist. */
  lemma SetLitVarNotIntRejected(v: seq<Elem>, sub: (Type, Type) -> bool, resolve: (Conversion, Type) -> Option<Type>)
    requires Join(v, |v|, sub).Ok?
    requires exists k :: 0 <= k < |v| && !v[k].absent && v[k].t.IsVar()
    requires var bt := Join(v, |v|, sub).value.ty.bt; bt != Int && bt != Bool && bt != Unknown
    ensures SetLitType(Elements(v), sub, resolve) == Err(VarElementNotInt)
  {
    JoinFacts(v, |v|, sub);
  }

  /** A var set literal of bool is promoted to a var set of int: the
      elements are coerced to int, and an accepted literal is a var set of
      int. */
  lemma SetLitVarBoolPromoted(v: seq<Elem>, sub: (Type, Type) -> bool, resolve: (Conversion, Type) -> Option<Type>)
    requires Join(v, |v|, sub).Ok? && Join(v, |v|, sub).value.ty.bt == Bool
    requires exists k :: 0 <= k < |v| && !v[k].absent && v[k].t.IsVar()
    ensures var a := Join(v, |v|, sub).value;
      Finish(a).Ok? && Finish(a).value.bt == Int && Finish(a).value.IsVar()
      && SetLitType(Elements(v), sub, resolve) ==
         match CoerceAll(v, |v|, Finish(a).value, resolve)
         case Err(err) => Err(err)
         case Ok(cs) => Ok(Typed(Finish(a).value, cs))
  {
    JoinFacts(v, |v|, sub);
  }

  /** The literal keeps an enum identity exactly when every present element
      has the enum identity of the first element. */
  lemma SetLitEnumId(v: seq<Elem>, sub: (Type, Type) -> bool, resolve: (Conversion, Type) -> Option<Type>)
    requires SetLitType(Elements(v), sub, resolve).Ok?
    ensures SetLitType(Elements(v), sub, resolve).value.ty.enumId ==
      if |v| > 0 && forall k :: 0 <= k < |v| && !v[k].absent ==> v[k].t.enumId == v[0].t.enumId
      then v[0].t.enumId else 0
  {
    JoinFacts(v, |v|, sub);
  }

  /** A literal with no present element (in particular `{}`) is a par set
      of the bottom kind, and its elements are left as they are. */
  lemma SetLitAllAbsent(v: seq<Elem>, sub: (Type, Type) -> bool, resolve: (Conversion, Type) -> Option<Type>)
    requires forall k :: 0 <= k < |v| ==> v[k].absent
    ensures SetLitType(Elements(v), sub, resolve).Ok?
    ensures var r := SetLitType(Elements(v), sub, resolve).value;
      r.ty.bt == Bot && r.ty.IsPar() && r.ty.st == Set && !r.ty.cv
      && |r.coerced| == |v| && forall k :: 0 <= k < |v| ==> r.coerced[k] == Coerced([], v[k].t)
  {
    AllAbsentJoin(v, |v|, sub);
    JoinFacts(v, |v|, sub);
  }

  lemma {:induction false} AllAbsentJoin(v: seq<Elem>, n: nat, sub: (Type, Type) -> bool)
    requires n <= |v| && forall k :: 0 <= k < |v| ==> v[k].absent
    ensures Join(v, n, sub) == Ok(Start(v))
  {
    if n > 0 {
      AllAbsentJoin(v, n - 1, sub);
    }
  }

  /** Base kinds ordered by the numeric widenings. */
  predicate KindLeq(a: BaseType, b: BaseType) {
    a == b || Widens(a, b)
  }

  /** Under the standard subtype test, a successful join of typed elements
      has a base kind that every present element widens to, and that kind is
      one of the elements' own. */
  lemma {:induction false} StdJoinUpperBound(v: seq<Elem>, n: nat)
    requires n <= |v| && Join(v, n, StdSubtype).Ok?
    requires forall k :: 0 <= k < |v| && !v[k].absent ==> v[k].t.bt != Unknown
    ensures var a := Join(v, n, StdSubtype).value;
      && (forall k :: 0 <= k < n && !v[k].absent ==> KindLeq(v[k].t.bt, a.ty.bt))
      && (a.ty.bt == Unknown || exists k :: 0 <= k < n && !v[k].absent && v[k].t.bt == a.ty.bt)
  {
    if n > 0 {
      StdJoinUpperBound(v, n - 1);
      JoinFacts(v, n - 1, StdSubtype);
    }
  }

  /** With the standard subtype test and the standard conversion
      signatures, every present element of an accepted literal of typed
      elements is coerced to exactly the literal's element kind. */
  lemma StdSetLitUniform(v: seq<Elem>)
    requires forall k :: 0 <= k < |v| && !v[k].absent ==> v[k].t.bt !in {Unknown, Bot, Top}
    requires SetLitType(Elements(v), StdSubtype, StdResolve).Ok?
    ensures var r := SetLitType(Elements(v), StdSubtype, StdResolve).value;
      |r.coerced| == |v| &&
      forall k :: 0 <= k < |v| && !v[k].absent ==> r.coerced[k].ty.bt == r.ty.bt
  {
    var a := Join(v, |v|, StdSubtype).value;
    StdJoinUpperBound(v, |v|);
    JoinFacts(v, |v|, StdSubtype);
    if a.ty.bt != Unknown {
      var ty := Finish(a).value;
      assert ty.dim == 0 && ty.bt !in {Unknown, Bot, Top};
      assert forall k :: 0 <= k < |v| && !v[k].absent ==> KindLeq(v[k].t.bt, ty.bt);
      var cs := CoerceAll(v, |v|, ty, StdResolve).value;
      assert SetLitType(Elements(v), StdSubtype, StdResolve).value == Typed(ty, cs);
      CoerceAllEach(v, |v|, ty, StdResolve);
      forall k | 0 <= k < |v| && !v[k].absent
        ensures cs[k].ty.bt == ty.bt
      {
        StdCoerceElement(v[k].t, ty);
      }
    }
  }

  /** A typed scalar element whose kind widens to the literal's kind is
      coerced to exactly that kind. */
  lemma StdCoerceElement(e: Type, ty: Type)
    requires e.dim <= 0 && ty.dim == 0 && e.bt !in {Unknown, Bot, Top} && ty.bt !in {Unknown, Bot, Top}
    requires KindLeq(e.bt, ty.bt)
    ensures Coerce(e, ty, StdResolve).Ok? && Coerce(e, ty, StdResolve).value.ty.bt == ty.bt
  {
    StdCoercionExact(e, ty.(dim := e.dim));
  }
}
