/** Typing an if-then-elseif-else expression (`Typer::vITE`,
    lib/typecheck.cpp): the branch types are joined into the result type,
    a missing `else` is synthesised for the kinds that have a neutral
    value, every branch is coerced to the result type, and a conditional
    whose condition is a decision variable is restricted to kinds the
    flattener can turn into constraints.

    As for set literals, `Type::btSubtype` is the parameter `sub`.
    Equality of a condition's type with `par bool` / `var bool` ignores the
    contains-var flag, since the checker reads that flag from a condition it
    has just accepted. */
module Conditional {
  import opened Types
  import opened Coercion

  /** A branch expression: its type, and whether it is the anonymous variable `_`. */
  datatype Branch = Branch(t: Type, anon: bool)

  datatype Case = Case(cond: Type, body: Branch)

  /** `if c1 then e1 elseif c2 then e2 ... else e endif`; `els` is None when
      the `else` is missing. */
  datatype Ite = Ite(cases: seq<Case>, els: Option<Branch>)

  datatype IteError =
    | ElseUnknown
    | CondNotBool(i: nat)
    | ThenUnknown(i: nat)
    | BranchMismatch(i: nat)
    | NoElse
    | CoercionFailed(i: nat, error: CoercionError)
    | ElseCoercionFailed(error: CoercionError)
    | VarCondArray
    | VarCondString
    | VarCondAnn
    | VarCondSet

  /** The result type, and the coercion applied to each branch. */
  datatype IteTyped = IteTyped(ty: Type, thens: seq<Coerced>, els: Coerced)

  /** The state of the join: result type so far, whether every branch is
      par, whether every branch is non-optional, and whether some condition
      is var. */
  datatype St = St(tret: Type, allPar: bool, allPresent: bool, varCond: bool)

  predicate IsParBoolCond(t: Type) { t.(cv := false) == ParBool }
  predicate IsVarBoolCond(t: Type) { t.(cv := false) == VarBool }

  const ParString: Type := Type(Par, String, Plain, Present, false, 0, 0)
  const ParAnn: Type := Type(Par, Ann, Plain, Present, false, 0, 0)

  /** The type the join starts from: the `else` branch's, or the default
      type when there is no `else`. */
  function Init(els: Option<Branch>): Result<St, IteError> {
    var tret := if els.Some? then els.value.t else Default;
    if els.Some? && tret.IsUnknown() then
      if els.value.anon then Ok(St(tret, false, !tret.IsOpt(), false)) else Err(ElseUnknown)
    else Ok(St(tret, !tret.IsVar(), !tret.IsOpt(), false))
  }

  /** One iteration of the join over case `c` at index `i`. */
  function Step(s: St, c: Case, i: nat, sub: (Type, Type) -> bool): Result<St, IteError> {
    var varCond := s.varCond || IsVarBoolCond(c.cond);
    var t := c.body.t;
    if !IsParBoolCond(c.cond) && !IsVarBoolCond(c.cond) then Err(CondNotBool(i))
    else
      var tret := if c.cond.cv then s.tret.(cv := true) else s.tret;
      if t.IsUnknown() then
        if c.body.anon then Ok(St(tret, false, s.allPresent, varCond)) else Err(ThenUnknown(i))
      else
        var t1 :=
          if tret.IsBot() then tret.(bt := t.bt, enumId := t.enumId)
          else if tret.IsUnknown() then tret.(bt := t.bt, dim := t.dim)
          else tret;
        if (!t.IsBot() && !sub(t, t1) && !sub(t1, t)) || t.st != t1.st || t.dim != t1.dim then
          Err(BranchMismatch(i))
        else
          var t2 := if sub(t1, t) then t1.(bt := t.bt) else t1;
          var t3 := if t2.enumId != 0 && t.enumId == 0 && t.bt != Bot then t2.(enumId := 0) else t2;
          Ok(St(t3.(cv := t3.cv || t.cv), s.allPar && !t.IsVar(), s.allPresent && !t.IsOpt(), varCond))
  }

  /** The join after the first `n` cases. */
  function Join(ite: Ite, n: nat, sub: (Type, Type) -> bool): Result<St, IteError>
    requires n <= |ite.cases|
  {
    if n == 0 then Init(ite.els)
    else
      match Join(ite, n - 1, sub)
      case Err(err) => Err(err)
      case Ok(s) => Step(s, ite.cases[n - 1], n - 1, sub)
  }

  /** The type of the `else` branch synthesised for an `if ... endif`: true
      for bool, the empty string, the empty annotation, the empty array. */
  function SynthElse(tret: Type): (r: Result<Type, IteError>)
    ensures r.Ok? <==> tret.IsBool() || tret.IsString() || tret.IsAnn() || tret.dim > 0
    ensures r.Ok? ==> r.value.dim == tret.dim && r.value.bt == tret.bt
  {
    if tret.IsBool() then Ok(ParBool)
    else if tret.IsString() then Ok(ParString)
    else if tret.IsAnn() then Ok(ParAnn)
    else if tret.dim > 0 then Ok(tret)
    else Err(NoElse)
  }

  /** The type a branch has when it is coerced: an anonymous variable takes
      the var version of the result type. */
  function BranchType(b: Branch, tvar: Type): Type {
    if b.t.IsUnknown() && b.anon then tvar else b.t
  }

  /** Coercing the first `n` `then` branches to the result type. */
  function CoerceThens(cases: seq<Case>, n: nat, tret: Type, resolve: (Conversion, Type) -> Option<Type>): Result<seq<Coerced>, IteError>
    requires n <= |cases|
  {
    if n == 0 then Ok([])
    else
      match CoerceThens(cases, n - 1, tret, resolve)
      case Err(err) => Err(err)
      case Ok(cs) =>
        match Coerce(BranchType(cases[n - 1].body, tret.(ti := Var)), tret, resolve)
        case Err(err) => Err(CoercionFailed(n - 1, err))
        case Ok(c) => Ok(cs + [c])
  }

  /** The restrictions on a conditional with a var condition. */
  function VarCondCheck(tret: Type): Option<IteError> {
    if tret.dim > 0 then Some(VarCondArray)
    else if tret.bt == String then Some(VarCondString)
    else if tret.bt == Ann then Some(VarCondAnn)
    else if tret.st == Set && tret.bt != Int then Some(VarCondSet)
    else None
  }

  /** The type the checker gives the conditional. */
  function IteType(ite: Ite, sub: (Type, Type) -> bool, resolve: (Conversion, Type) -> Option<Type>): Result<IteTyped, IteError> {
    match Join(ite, |ite.cases|, sub)
    case Err(err) => Err(err)
    case Ok(s) =>
      var tret := s.tret;
      var elseT := if ite.els.Some? then Ok(BranchType(ite.els.value, tret.(ti := Var))) else SynthElse(tret);
      match elseT
      case Err(err) => Err(err)
      case Ok(et) =>
        match CoerceThens(ite.cases, |ite.cases|, tret, resolve)
        case Err(err) => Err(err)
        case Ok(cs) =>
          match Coerce(et, tret, resolve)
          case Err(err) => Err(ElseCoercionFailed(err))
          case Ok(ec) =>
            if s.varCond && VarCondCheck(tret).Some? then Err(VarCondCheck(tret).value)
            else
              var ti := if s.varCond || !s.allPar then Var else tret.ti;
              var ot := if !s.allPresent then Optional else tret.ot;
              Ok(IteTyped(tret.(ti := ti, ot := ot), cs, ec))
  }

  /** The body of the visitor's first loop: check case `c` at index `i`
      and fold its `then` branch into the join state `s`. */
  method JoinCase(s: St, c: Case, i: nat, sub: (Type, Type) -> bool) returns (r: Result<St, IteError>)
    ensures r == Step(s, c, i, sub)
  {
    var tret, allPar, allPresent := s.tret, s.allPar, s.allPresent;
    var varCond := s.varCond || IsVarBoolCond(c.cond);
    var t := c.body.t;
    if !IsParBoolCond(c.cond) && !IsVarBoolCond(c.cond) {
      return Err(CondNotBool(i));
    }
    if c.cond.cv {
      tret := tret.(cv := true);
    }
    if t.IsUnknown() {
      if c.body.anon {
        allPar := false;
      } else {
        return Err(ThenUnknown(i));
      }
    } else {
      if tret.IsBot() {
        tret := tret.(bt := t.bt, enumId := t.enumId);
      } else if tret.IsUnknown() {
        tret := tret.(bt := t.bt, dim := t.dim);
      }
      if (!t.IsBot() && !sub(t, tret) && !sub(tret, t)) || t.st != tret.st || t.dim != tret.dim {
        return Err(BranchMismatch(i));
      }
      if sub(tret, t) {
        tret := tret.(bt := t.bt);
      }
      if tret.enumId != 0 && t.enumId == 0 && t.bt != Bot {
        tret := tret.(enumId := 0);
      }
      if t.IsVar() {
        allPar := false;
      }
      if t.IsOpt() {
        allPresent := false;
      }
      if t.cv {
        tret := tret.(cv := true);
      }
    }
    r := Ok(St(tret, allPar, allPresent, varCond));
  }

  /** The visitor's first loop: join the branch types, checking every
      condition and every `then` branch on the way. */
  method JoinBranches(ite: Ite, sub: (Type, Type) -> bool) returns (r: Result<St, IteError>)
    ensures r == Join(ite, |ite.cases|, sub)
  {
    var tret := if ite.els.Some? then ite.els.value.t else Default;
    var allPar := !tret.IsVar();
    if ite.els.Some? && tret.IsUnknown() {
      if ite.els.value.anon {
        allPar := false;
      } else {
        IteJoinSticky(ite, 0, |ite.cases|, sub);
        return Err(ElseUnknown);
      }
    }
    var allPresent := !tret.IsOpt();
    var varCond := false;
    var i := 0;
    while i < |ite.cases|
      invariant 0 <= i <= |ite.cases|
      invariant Join(ite, i, sub) == Ok(St(tret, allPar, allPresent, varCond))
    {
      var next := JoinCase(St(tret, allPar, allPresent, varCond), ite.cases[i], i, sub);
      assert Join(ite, i + 1, sub) == next;
      if next.Err? {
        IteJoinSticky(ite, i + 1, |ite.cases|, sub);
        return next;
      }
      tret, allPar, allPresent, varCond := next.value.tret, next.value.allPar, next.value.allPresent, next.value.varCond;
      i := i + 1;
    }
    r := Ok(St(tret, allPar, allPresent, varCond));
  }

  /** The visitor's coercion loop over the `then` branches. */
  method CoerceBranches(cases: seq<Case>, tret: Type, resolve: (Conversion, Type) -> Option<Type>)
    returns (r: Result<seq<Coerced>, IteError>)
    ensures r == CoerceThens(cases, |cases|, tret, resolve)
  {
    var cs := [];
    var i := 0;
    while i < |cases|
      invariant 0 <= i <= |cases|
      invariant CoerceThens(cases, i, tret, resolve) == Ok(cs)
    {
      var c := Coerce(BranchType(cases[i].body, tret.(ti := Var)), tret, resolve);
      if c.Err? {
        CoerceThensSticky(cases, i + 1, |cases|, tret, resolve);
        return Err(CoercionFailed(i, c.error));
      }
      cs := cs + [c.value];
      i := i + 1;
    }
    r := Ok(cs);
  }

  /** The visitor: join the branch types, synthesise a missing `else`,
      coerce the branches, then apply the var-condition rules. */
  method TypeIte(ite: Ite, sub: (Type, Type) -> bool, resolve: (Conversion, Type) -> Option<Type>)
    returns (r: Result<IteTyped, IteError>)
    ensures r == IteType(ite, sub, resolve)
  {
    var joined := JoinBranches(ite, sub);
    if joined.Err? {
      return Err(joined.error);
    }
    var tret, allPar, allPresent, varCond := joined.value.tret, joined.value.allPar, joined.value.allPresent, joined.value.varCond;
    var elseType: Type;
    if ite.els.Some? {
      elseType := BranchType(ite.els.value, tret.(ti := Var));
    } else if tret.IsBool() {
      elseType := ParBool;
    } else if tret.IsString() {
      elseType := ParString;
    } else if tret.IsAnn() {
      elseType := ParAnn;
    } else if tret.dim > 0 {
      elseType := tret;
    } else {
      return Err(NoElse);
    }
    var coerced := CoerceBranches(ite.cases, tret, resolve);
    if coerced.Err? {
      return Err(coerced.error);
    }
    var cs := coerced.value;
    var ec := Coerce(elseType, tret, resolve);
    if ec.Err? {
      return Err(ElseCoercionFailed(ec.error));
    }
    if varCond {
      if tret.dim > 0 {
        return Err(VarCondArray);
      }
      if tret.bt == String {
        return Err(VarCondString);
      }
      if tret.bt == Ann {
        return Err(VarCondAnn);
      }
      if tret.st == Set && tret.bt != Int {
        return Err(VarCondSet);
      }
    }
    if varCond || !allPar {
      tret := tret.(ti := Var);
    }
    if !allPresent {
      tret := tret.(ot := Optional);
    }
    r := Ok(IteTyped(tret, cs, ec.value));
  }

  lemma {:induction false} IteJoinSticky(ite: Ite, i: nat, j: nat, sub: (Type, Type) -> bool)
    requires i <= j <= |ite.cases| && Join(ite, i, sub).Err?
    ensures Join(ite, j, sub) == Join(ite, i, sub)
    decreases j - i
  {
    if i < j {
      IteJoinSticky(ite, i, j - 1, sub);
    }
  }

  lemma {:induction false} CoerceThensSticky(cases: seq<Case>, i: nat, j: nat, tret: Type, resolve: (Conversion, Type) -> Option<Type>)
    requires i <= j <= |cases| && CoerceThens(cases, i, tret, resolve).Err?
    ensures CoerceThens(cases, j, tret, resolve) == CoerceThens(cases, i, tret, resolve)
    decreases j - i
  {
    if i < j {
      CoerceThensSticky(cases, i, j - 1, tret, resolve);
    }
  }

  /** Some condition among the first `n` is a var bool. */
  predicate SomeVarCond(cases: seq<Case>, n: nat)
    requires n <= |cases|
  {
    exists i :: 0 <= i < n && IsVarBoolCond(cases[i].cond)
  }

  /** Some branch among the first `n` `then` branches, or the `else`, is a
      decision variable (a var type, or the anonymous variable). */
  predicate SomeVarBranch(ite: Ite, n: nat)
    requires n <= |ite.cases|
  {
    || (ite.els.Some? && (ite.els.value.t.IsVar() || ite.els.value.t.IsUnknown()))
    || exists i :: 0 <= i < n && (ite.cases[i].body.t.IsVar() || ite.cases[i].body.t.IsUnknown())
  }

  /** Some typed branch among the first `n` `then` branches, or the `else`, is optional. */
  predicate SomeOptBranch(ite: Ite, n: nat)
    requires n <= |ite.cases|
  {
    || (ite.els.Some? && ite.els.value.t.IsOpt())
    || exists i :: 0 <= i < n && !ite.cases[i].body.t.IsUnknown() && ite.cases[i].body.t.IsOpt()
  }

  /** What one successful step of the join records about its case. */
  lemma StepFacts(s: St, c: Case, i: nat, sub: (Type, Type) -> bool)
    requires Step(s, c, i, sub).Ok?
    ensures var r := Step(s, c, i, sub).value;
      && (IsParBoolCond(c.cond) || IsVarBoolCond(c.cond))
      && r.varCond == (s.varCond || IsVarBoolCond(c.cond))
      && r.allPar == (s.allPar && !c.body.t.IsVar() && !c.body.t.IsUnknown())
      && r.allPresent == (s.allPresent && (c.body.t.IsUnknown() || !c.body.t.IsOpt()))
      && r.tret.ot == s.tret.ot && r.tret.ti == s.tret.ti
  {
  }

  /** What a successful join over the first `n` cases has seen: every
      condition is a bool, the var, optional and var-condition flags record
      exactly the branches and conditions seen, and the result type is
      never optional or a set-of-unknown before the final adjustments. */
  lemma {:induction false} JoinFacts(ite: Ite, n: nat, sub: (Type, Type) -> bool)
    requires n <= |ite.cases| && Join(ite, n, sub).Ok?
    ensures var s := Join(ite, n, sub).value;
      && (forall i :: 0 <= i < n ==> IsParBoolCond(ite.cases[i].cond) || IsVarBoolCond(ite.cases[i].cond))
      && (s.varCond <==> SomeVarCond(ite.cases, n))
      && (!s.allPar <==> SomeVarBranch(ite, n))
      && (!s.allPresent <==> SomeOptBranch(ite, n))
      && s.tret.ot == (if ite.els.Some? then ite.els.value.t.ot else Present)
      && s.tret.ti == (if ite.els.Some? then ite.els.value.t.ti else Par)
  {
    if n > 0 {
      JoinFacts(ite, n - 1, sub);
      StepFacts(Join(ite, n - 1, sub).value, ite.cases[n - 1], n - 1, sub);
    }
  }

  /** The result is var exactly when some condition or some branch is, and
      optional exactly when some branch is. */
  lemma IteVarOptIff(ite: Ite, sub: (Type, Type) -> bool, resolve: (Conversion, Type) -> Option<Type>)
    requires IteType(ite, sub, resolve).Ok?
    ensures var ty := IteType(ite, sub, resolve).value.ty;
      && (ty.IsVar() <==> SomeVarCond(ite.cases, |ite.cases|) || SomeVarBranch(ite, |ite.cases|))
      && (ty.IsOpt() <==> SomeOptBranch(ite, |ite.cases|))
  {
    JoinFacts(ite, |ite.cases|, sub);
  }

  /** Every condition of an accepted conditional is a bool. */
  lemma IteCondsBool(ite: Ite, sub: (Type, Type) -> bool, resolve: (Conversion, Type) -> Option<Type>)
    requires IteType(ite, sub, resolve).Ok?
    ensures forall i :: 0 <= i < |ite.cases| ==> IsParBoolCond(ite.cases[i].cond) || IsVarBoolCond(ite.cases[i].cond)
  {
    JoinFacts(ite, |ite.cases|, sub);
  }

  /** An accepted conditional with a var condition is not an array, a
      string, an annotation, or a set of anything but int. */
  lemma IteVarCondRestricted(ite: Ite, sub: (Type, Type) -> bool, resolve: (Conversion, Type) -> Option<Type>)
    requires IteType(ite, sub, resolve).Ok?
    requires exists i :: 0 <= i < |ite.cases| && IsVarBoolCond(ite.cases[i].cond)
    ensures var ty := IteType(ite, sub, resolve).value.ty;
      ty.dim <= 0 && ty.bt != String && ty.bt != Ann && (ty.st == Set ==> ty.bt == Int)
  {
    JoinFacts(ite, |ite.cases|, sub);
  }

  /** An accepted conditional without `else` is a bool, a string, an
      annotation or an array, and the synthesised `else` has its kind and
      dimension. */
  lemma IteNoElseKinds(ite: Ite, sub: (Type, Type) -> bool, resolve: (Conversion, Type) -> Option<Type>)
    requires ite.els.None? && IteType(ite, sub, resolve).Ok?
    ensures var ty := IteType(ite, sub, resolve).value.ty;
      (ty.dim == 0 && ty.st == Plain && ty.bt in {Bool, String, Ann}) || ty.dim > 0
  {
  }

  /** Every `then` branch is coerced, and the coercion of branch `i` is the
      coercion of its type to the result type before the var and optional
      adjustments. */
  lemma {:induction false} CoerceThensEach(cases: seq<Case>, n: nat, tret: Type, resolve: (Conversion, Type) -> Option<Type>)
    requires n <= |cases| && CoerceThens(cases, n, tret, resolve).Ok?
    ensures var cs := CoerceThens(cases, n, tret, resolve).value;
      |cs| == n && forall i :: 0 <= i < n ==> Coerce(BranchType(cases[i].body, tret.(ti := Var)), tret, resolve) == Ok(cs[i])
  {
    if n > 0 {
      CoerceThensEach(cases, n - 1, tret, resolve);
    }
  }

  /** The result keeps the base kind, set-ness and dimension the branches
      were coerced to: each `then` branch is coerced to a type that agrees
      with the result in everything but instantiation and optionality. */
  lemma IteBranchesCoerced(ite: Ite, sub: (Type, Type) -> bool, resolve: (Conversion, Type) -> Option<Type>)
    requires IteType(ite, sub, resolve).Ok?
    ensures var r := IteType(ite, sub, resolve).value;
      |r.thens| == |ite.cases| &&
      exists tret: Type :: tret.(ti := r.ty.ti, ot := r.ty.ot) == r.ty &&
        (forall i :: 0 <= i < |ite.cases| ==> Coerce(BranchType(ite.cases[i].body, tret.(ti := Var)), tret, resolve) == Ok(r.thens[i]))
  {
    var s := Join(ite, |ite.cases|, sub).value;
    CoerceThensEach(ite.cases, |ite.cases|, s.tret, resolve);
    var r := IteType(ite, sub, resolve).value;
    assert s.tret.(ti := r.ty.ti, ot := r.ty.ot) == r.ty;
  }
}
