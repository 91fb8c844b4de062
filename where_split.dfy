/** Splitting a comprehension's `where` clause into its top-level
    conjuncts (`Typer::vComprehension`, lib/typecheck.cpp), so that each
    conjunct can be moved to the latest generator whose variable it mentions. The
    checker does this with an explicit stack; the specification is the
    recursive conjunct list. */
module WhereSplit {

  datatype BinOpKind = AndOp | OrOp | ImplOp | EquivOp | XorOp

  /** A Boolean expression: a binary operator node, or any other expression
      (an atom, identified by a number). */
  datatype Expr = BinOp(op: BinOpKind, lhs: Expr, rhs: Expr) | Atom(id: nat)

  predicate IsAnd(e: Expr) {
    e.BinOp? && e.op == AndOp
  }

  /** The top-level conjuncts of `e`, left to right. */
  function Conjuncts(e: Expr): seq<Expr> {
    if IsAnd(e) then Conjuncts(e.lhs) + Conjuncts(e.rhs) else [e]
  }

  /** The conjuncts still to be produced from a stack of pending
      expressions, whose top is its last element. */
  function StackConjuncts(st: seq<Expr>): seq<Expr> {
    if st == [] then [] else Conjuncts(st[|st| - 1]) + StackConjuncts(st[..|st| - 1])
  }

  function Size(e: Expr): nat {
    match e
    case BinOp(_, l, r) => 1 + Size(l) + Size(r)
    case Atom(_) => 1
  }

  function StackSize(st: seq<Expr>): nat {
    if st == [] then 0 else Size(st[|st| - 1]) + StackSize(st[..|st| - 1])
  }

  /** Pop the top of the stack: if it is a conjunction push its right and
      then its left operand, otherwise emit it. */
  method SplitWhere(w: Expr) returns (parts: seq<Expr>)
    ensures parts == Conjuncts(w)
  {
    var stack := [w];
    parts := [];
    StackPush([], w);
    while stack != []
      invariant parts + StackConjuncts(stack) == Conjuncts(w)
      decreases StackSize(stack)
    {
      var e := stack[|stack| - 1];
      var rest := stack[..|stack| - 1];
      assert stack == rest + [e];
      if IsAnd(e) {
        PopAnd(rest, e);
        PopAndSmaller(rest, e);
        stack := rest + [e.rhs, e.lhs];
      } else {
        PopOther(parts, rest, e);
        stack := rest;
        parts := parts + [e];
      }
    }
  }

  /** Replacing a conjunction on top of the stack by its operands, left on
      top, leaves the conjuncts still to come unchanged and the stack smaller. */
  lemma PopAnd(rest: seq<Expr>, e: Expr)
    requires IsAnd(e)
    ensures StackConjuncts(rest + [e]) == StackConjuncts(rest + [e.rhs, e.lhs])
  {
    StackPush(rest, e);
    StackPushPair(rest, e.rhs, e.lhs);
    var l, r, pending := Conjuncts(e.lhs), Conjuncts(e.rhs), StackConjuncts(rest);
    calc {
      StackConjuncts(rest + [e]);
      Conjuncts(e) + pending;
      (l + r) + pending;
      l + (r + pending);
      StackConjuncts(rest + [e.rhs, e.lhs]);
    }
  }

  lemma PopAndSmaller(rest: seq<Expr>, e: Expr)
    requires IsAnd(e)
    ensures StackSize(rest + [e.rhs, e.lhs]) < StackSize(rest + [e])
  {
    StackPush(rest, e);
    StackPushPair(rest, e.rhs, e.lhs);
    assert Size(e) == 1 + Size(e.lhs) + Size(e.rhs);
  }

  /** Emitting a non-conjunction from the top of the stack moves it from the
      pending conjuncts to the output. */
  lemma PopOther(parts: seq<Expr>, rest: seq<Expr>, e: Expr)
    requires !IsAnd(e)
    ensures parts + StackConjuncts(rest + [e]) == (parts + [e]) + StackConjuncts(rest)
    ensures StackSize(rest) < StackSize(rest + [e])
  {
    StackPush(rest, e);
    assert parts + ([e] + StackConjuncts(rest)) == (parts + [e]) + StackConjuncts(rest);
  }

  lemma StackPushPair(st: seq<Expr>, a: Expr, b: Expr)
    ensures StackConjuncts(st + [a, b]) == Conjuncts(b) + (Conjuncts(a) + StackConjuncts(st))
    ensures StackSize(st + [a, b]) == Size(b) + Size(a) + StackSize(st)
  {
    var s2 := st + [a, b];
    assert s2[..|s2| - 1] == st + [a];
    assert s2[|s2| - 1] == b;
    StackPush(st, a);
  }

  /** Pushing `x` puts its conjuncts first and its size on top. */
  lemma StackPush(st: seq<Expr>, x: Expr)
    ensures StackConjuncts(st + [x]) == Conjuncts(x) + StackConjuncts(st)
    ensures StackSize(st + [x]) == Size(x) + StackSize(st)
  {
    assert (st + [x])[..|st|] == st;
  }

  /** The value of a Boolean expression, given the values of its atoms. */
  function Eval(e: Expr, atoms: nat -> bool): bool {
    match e
    case Atom(id) => atoms(id)
    case BinOp(op, l, r) =>
      match op
      case AndOp => Eval(l, atoms) && Eval(r, atoms)
      case OrOp => Eval(l, atoms) || Eval(r, atoms)
      case ImplOp => Eval(l, atoms) ==> Eval(r, atoms)
      case EquivOp => Eval(l, atoms) == Eval(r, atoms)
      case XorOp => Eval(l, atoms) != Eval(r, atoms)
  }

  predicate AllHold(parts: seq<Expr>, atoms: nat -> bool) {
    forall k :: 0 <= k < |parts| ==> Eval(parts[k], atoms)
  }

  lemma AllHoldConcat(l: seq<Expr>, r: seq<Expr>, atoms: nat -> bool)
    ensures AllHold(l + r, atoms) <==> AllHold(l, atoms) && AllHold(r, atoms)
  {
    assert forall k :: 0 <= k < |l| ==> (l + r)[k] == l[k];
    assert forall k :: 0 <= k < |r| ==> (l + r)[|l| + k] == r[k];
    if AllHold(l, atoms) && AllHold(r, atoms) {
      forall k | 0 <= k < |l + r| ensures Eval((l + r)[k], atoms) {
        if k >= |l| {
          assert (l + r)[k] == r[k - |l|];
        }
      }
    }
  }

  /** Splitting keeps the meaning: the clause holds exactly when every
      conjunct does. */
  lemma {:induction false} ConjunctsEquivalent(e: Expr, atoms: nat -> bool)
    ensures AllHold(Conjuncts(e), atoms) <==> Eval(e, atoms)
  {
    if IsAnd(e) {
      ConjunctsEquivalent(e.lhs, atoms);
      ConjunctsEquivalent(e.rhs, atoms);
      AllHoldConcat(Conjuncts(e.lhs), Conjuncts(e.rhs), atoms);
    } else {
      assert Conjuncts(e)[0] == e;
    }
  }

  /** The split goes all the way down: no conjunct is itself a conjunction,
      and there is at least one. */
  lemma {:induction false} ConjunctsMaximal(e: Expr)
    ensures |Conjuncts(e)| >= 1
    ensures forall k :: 0 <= k < |Conjuncts(e)| ==> !IsAnd(Conjuncts(e)[k])
  {
    if IsAnd(e) {
      ConjunctsMaximal(e.lhs);
      ConjunctsMaximal(e.rhs);
      var l, r := Conjuncts(e.lhs), Conjuncts(e.rhs);
      assert forall k :: 0 <= k < |l| ==> (l + r)[k] == l[k];
      assert forall k :: 0 <= k < |r| ==> (l + r)[|l| + k] == r[k];
    }
  }

  /** A clause that is not a conjunction is kept whole. */
  lemma ConjunctsOfNonAnd(e: Expr)
    requires !IsAnd(e)
    ensures Conjuncts(e) == [e]
  {
  }
}
