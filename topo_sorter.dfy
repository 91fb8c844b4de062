/** The dependency orderer (lib/typecheck.cpp, class TopoSorter): a
    depth-first walk over the declarations that assigns every declaration its
    position in a definition order, after the declarations it refers to, and
    reports undefined identifiers and circular definitions.

    A declaration is abstracted to the identifiers its type-inst and
    initializer refer to, in walk order (`deps`). While a declaration is
    walked, `checkId` pushes a fresh TOPLEVEL frame, so a lookup sees that
    empty frame and the bottom frame only: name resolution is the map
    `globals`, the bottom frame of the sorter's scope stack. */
module TopoSort {
  import opened Types
  import opened Scopes

  /** A declaration's identity. */
  type Decl = nat

  datatype Outcome = Done | UndefinedIdentifier(id: Ident) | CircularDefinition(id: Ident)

  /** Declaration `a` refers to declaration `b`. */
  predicate Edge(deps: map<Decl, seq<Ident>>, globals: map<Ident, Decl>, a: Decl, b: Decl) {
    a in deps && exists i :: 0 <= i < |deps[a]| && deps[a][i] in globals && globals[deps[a][i]] == b
  }

  predicate IsPath(deps: map<Decl, seq<Ident>>, globals: map<Ident, Decl>, p: seq<Decl>) {
    |p| >= 1 && forall k :: 0 <= k < |p| - 1 ==> Edge(deps, globals, p[k], p[k + 1])
  }

  /** `d` depends on itself through a chain of references. */
  ghost predicate OnCycle(deps: map<Decl, seq<Ident>>, globals: map<Ident, Decl>, d: Decl) {
    exists p :: IsPath(deps, globals, p) && |p| >= 2 && p[0] == d && p[|p| - 1] == d
  }

  /** Every finished declaration (position >= 0) refers only to defined
      declarations that finished before it. */
  predicate TopoOrdered(deps: map<Decl, seq<Ident>>, globals: map<Ident, Decl>, pos: map<Decl, int>) {
    forall d :: d in pos && pos[d] >= 0 ==>
      d in deps && forall x :: x in deps[d] ==> x in globals && globals[x] in pos && 0 <= pos[globals[x]] < pos[d]
  }

  /** Following references from a finished declaration only reaches
      declarations with strictly smaller positions. */
  lemma {:induction false} FinishedPathDescends(deps: map<Decl, seq<Ident>>, globals: map<Ident, Decl>,
                                                pos: map<Decl, int>, p: seq<Decl>)
    requires TopoOrdered(deps, globals, pos) && IsPath(deps, globals, p) && |p| >= 2
    requires p[0] in pos && pos[p[0]] >= 0
    ensures p[|p| - 1] in pos && 0 <= pos[p[|p| - 1]] < pos[p[0]]
  {
    assert Edge(deps, globals, p[0], p[1]);
    var i :| 0 <= i < |deps[p[0]]| && deps[p[0]][i] in globals && globals[deps[p[0]][i]] == p[1];
    assert deps[p[0]][i] in deps[p[0]];
    if |p| > 2 {
      assert IsPath(deps, globals, p[1..]);
      FinishedPathDescends(deps, globals, pos, p[1..]);
    }
  }

  /** No cycle is reachable from a finished declaration: once `run` has
      given a declaration its position, no circular definition hides behind it. */
  lemma FinishedReachesNoCycle(deps: map<Decl, seq<Ident>>, globals: map<Ident, Decl>,
                               pos: map<Decl, int>, p: seq<Decl>)
    requires TopoOrdered(deps, globals, pos) && IsPath(deps, globals, p)
    requires p[0] in pos && pos[p[0]] >= 0
    ensures !OnCycle(deps, globals, p[|p| - 1])
  {
    var e := p[|p| - 1];
    if |p| >= 2 {
      FinishedPathDescends(deps, globals, pos, p);
    }
    assert e in pos && pos[e] >= 0;
    if OnCycle(deps, globals, e) {
      var q :| IsPath(deps, globals, q) && |q| >= 2 && q[0] == e && q[|q| - 1] == e;
      FinishedPathDescends(deps, globals, pos, q);
      assert false;
    }
  }

  lemma FewerUnvisited(all: set<Decl>, before: set<Decl>, after: set<Decl>, d: Decl)
    requires d in all && d !in before && before <= after && d in after
    ensures |all - after| < |all - before|
  {
    assert all - after <= (all - before) - {d};
    assert |(all - before) - {d}| == |all - before| - 1;
    SubsetCard(all - after, (all - before) - {d});
  }

  /** The sorter's invariant over its state: names resolve to declarations,
      `decls` lists each finished declaration at its position, and finished
      declarations are topologically ordered. */
  predicate ValidState(deps: map<Decl, seq<Ident>>, globals: map<Ident, Decl>, pos: map<Decl, int>, decls: seq<Decl>) {
    && (forall x :: x in globals ==> globals[x] in deps)
    && (forall d :: d in pos ==> d in deps)
    && (forall i :: 0 <= i < |decls| ==> decls[i] in pos && pos[decls[i]] == i)
    && (forall d :: d in pos ==> pos[d] == -1 || (0 <= pos[d] < |decls| && decls[pos[d]] == d))
    && TopoOrdered(deps, globals, pos)
  }

  /** The declarations marked in progress (-1) are exactly those on the
      walk's stack, and each stack entry refers to the next. */
  predicate ConsistentState(deps: map<Decl, seq<Ident>>, globals: map<Ident, Decl>, pos: map<Decl, int>, stack: seq<Decl>) {
    && (forall d :: d in pos && pos[d] == -1 ==> d in stack)
    && (forall k :: 0 <= k < |stack| ==> stack[k] in pos && pos[stack[k]] == -1)
    && (forall k :: 0 <= k < |stack| - 1 ==> Edge(deps, globals, stack[k], stack[k + 1]))
  }

  /** `b` is `a` with zero or more declarations appended. */
  predicate Extends(a: seq<Decl>, b: seq<Decl>) {
    |a| <= |b| && forall i :: 0 <= i < |a| ==> b[i] == a[i]
  }

  /** From state (`p0`, `d0`) to state (`p1`, `d1`) the walk only adds:
      no declaration is forgotten, finished ones keep their positions and
      the definition order is only appended to. */
  predicate Grows(p0: map<Decl, int>, p1: map<Decl, int>, d0: seq<Decl>, d1: seq<Decl>) {
    && p0.Keys <= p1.Keys
    && (forall e :: e in p0 && p0[e] >= 0 ==> p1[e] == p0[e])
    && Extends(d0, d1)
  }

  lemma GrowsTrans(p0: map<Decl, int>, p1: map<Decl, int>, p2: map<Decl, int>,
                   d0: seq<Decl>, d1: seq<Decl>, d2: seq<Decl>)
    requires Grows(p0, p1, d0, d1) && Grows(p1, p2, d1, d2)
    ensures Grows(p0, p2, d0, d2)
  {
  }

  /** Identifier `x` names a declaration that finished before position `n`. */
  predicate Resolved(globals: map<Ident, Decl>, pos: map<Decl, int>, n: int, x: Ident) {
    x in globals && globals[x] in pos && 0 <= pos[globals[x]] < n
  }

  /** Marking a new declaration in progress and pushing it keeps the invariants. */
  lemma MarkKeepsInvariants(deps: map<Decl, seq<Ident>>, globals: map<Ident, Decl>, pos: map<Decl, int>,
                            decls: seq<Decl>, stack: seq<Decl>, d: Decl)
    requires ValidState(deps, globals, pos, decls) && ConsistentState(deps, globals, pos, stack)
    requires d in deps && d !in pos
    requires |stack| > 0 ==> Edge(deps, globals, stack[|stack| - 1], d)
    ensures ValidState(deps, globals, pos[d := -1], decls)
    ensures ConsistentState(deps, globals, pos[d := -1], stack + [d])
  {
    var pos' := pos[d := -1];
    forall e | e in pos' && pos'[e] >= 0
      ensures e in deps && forall x :: x in deps[e] ==> x in globals && globals[x] in pos' && 0 <= pos'[globals[x]] < pos'[e]
    {
      assert e in pos && pos[e] >= 0;
    }
  }

  /** Giving the walked declaration the next position, once everything it
      refers to has finished, and popping it keeps the invariants. */
  lemma FinishKeepsInvariants(deps: map<Decl, seq<Ident>>, globals: map<Ident, Decl>, pos: map<Decl, int>,
                              decls: seq<Decl>, stack: seq<Decl>, d: Decl)
    requires ValidState(deps, globals, pos, decls) && ConsistentState(deps, globals, pos, stack + [d])
    requires d in deps && d !in stack
    requires forall x :: x in deps[d] ==> Resolved(globals, pos, |decls|, x)
    ensures ValidState(deps, globals, pos[d := |decls|], decls + [d])
    ensures ConsistentState(deps, globals, pos[d := |decls|], stack)
  {
    var pos', decls' := pos[d := |decls|], decls + [d];
    assert (stack + [d])[|stack|] == d;
    assert pos[d] == -1;
    forall e | e in pos' && pos'[e] >= 0
      ensures e in deps && forall x :: x in deps[e] ==> x in globals && globals[x] in pos' && 0 <= pos'[globals[x]] < pos'[e]
    {
      if e != d {
        assert e in pos && pos[e] >= 0;
        forall x | x in deps[e]
          ensures globals[x] != d
        {
          assert pos[globals[x]] >= 0;
        }
      } else {
        forall x | x in deps[d]
          ensures x in globals && globals[x] in pos' && 0 <= pos'[globals[x]] < pos'[e]
        {
          assert Resolved(globals, pos, |decls|, x);
        }
      }
    }
    forall i | 0 <= i < |decls'|
      ensures decls'[i] in pos' && pos'[decls'[i]] == i
    {
      if i < |decls| {
        assert pos[decls[i]] == i;
      }
    }
    forall e | e in pos' && pos'[e] == -1
      ensures e in stack
    {
      assert e in stack + [d];
    }
    forall k | 0 <= k < |stack|
      ensures stack[k] in pos' && pos'[stack[k]] == -1
    {
      assert (stack + [d])[k] == stack[k];
    }
    forall k | 0 <= k < |stack| - 1
      ensures Edge(deps, globals, stack[k], stack[k + 1])
    {
      assert (stack + [d])[k] == stack[k] && (stack + [d])[k + 1] == stack[k + 1];
    }
  }

  /** Declarations that already finished keep their positions, so names
      resolved before stay resolved. */
  lemma StillResolved(globals: map<Ident, Decl>, pos0: map<Decl, int>, pos1: map<Decl, int>,
                      d0: seq<Decl>, d1: seq<Decl>, xs: seq<Ident>)
    requires Grows(pos0, pos1, d0, d1)
    requires forall x :: x in xs ==> Resolved(globals, pos0, |d0|, x)
    ensures forall x :: x in xs ==> Resolved(globals, pos1, |d1|, x)
  {
  }

  lemma ExtendResolved(globals: map<Ident, Decl>, pos: map<Decl, int>, n: int, xs: seq<Ident>, i: nat)
    requires i < |xs|
    requires forall x :: x in xs[..i] ==> Resolved(globals, pos, n, x)
    requires Resolved(globals, pos, n, xs[i])
    ensures forall x :: x in xs[..i + 1] ==> Resolved(globals, pos, n, x)
  {
    assert xs[..i + 1] == xs[..i] + [xs[i]];
  }

  class TopoSorter {
    /** For each declaration, the identifiers its type-inst and initializer refer to. */
    const deps: map<Decl, seq<Ident>>
    /** The bottom scope frame: top-level names and their declarations. */
    var globals: map<Ident, Decl>
    /** -1 while a declaration is walked, then its position in `decls`. */
    var pos: map<Decl, int>
    /** Finished declarations in completion order. */
    var decls: seq<Decl>
    /** The declarations being walked, outermost first. */
    ghost var stack: seq<Decl>

    ghost predicate Valid()
      reads this
    {
      ValidState(deps, globals, pos, decls)
    }

    /** The declarations marked in progress are exactly those on the walk's
        stack, and each refers to the next. */
    ghost predicate Consistent()
      reads this
    {
      ConsistentState(deps, globals, pos, stack)
    }

    constructor (deps: map<Decl, seq<Ident>>)
      ensures Valid() && Consistent()
      ensures this.deps == deps && globals == map[] && pos == map[] && decls == [] && stack == []
    {
      this.deps := deps;
      globals := map[];
      pos := map[];
      decls := [];
      stack := [];
    }

    /** Register a top-level declaration in the bottom frame. This is the
        TOPLEVEL instance of `Scopes.ScopeStack.Add` (no enum restriction and
        no shadowing check apply there), restated over `globals`, the bottom
        frame's bindings. */
    method Add(id: Ident, d: Decl) returns (status: AddStatus)
      requires Valid() && Consistent() && stack == [] && d in deps
      modifies this
      ensures Valid() && Consistent()
      ensures pos == old(pos) && decls == old(decls) && stack == old(stack)
      ensures status == SkippedAnonymous <==> Anonymous(id)
      ensures status == Inserted <==> !Anonymous(id) && id !in old(globals)
      ensures status == DuplicateDefinition <==> !Anonymous(id) && id in old(globals) && id.idn >= -1
      ensures status == Inserted ==> globals == old(globals)[id := d]
      ensures status != Inserted ==> globals == old(globals)
    {
      if Anonymous(id) {
        return SkippedAnonymous;
      }
      if id !in globals {
        globals := globals[id := d];
        status := Inserted;
      } else if id.idn >= -1 {
        status := DuplicateDefinition;
      } else {
        status := KeptExisting;
      }
    }

    /** Resolve a name, failing with an undefined-identifier error. */
    method Get(id: Ident) returns (r: Result<Decl, Outcome>)
      requires Valid()
      ensures r.Ok? <==> id in globals
      ensures r.Ok? ==> r.value == globals[id] && r.value in deps
      ensures r.Err? ==> r.error == UndefinedIdentifier(id)
    {
      if id !in globals {
        return Err(UndefinedIdentifier(id));
      }
      return Ok(globals[id]);
    }

    /** Walk declaration `d` (the VarDecl case of `run`): if it is new, mark it
        in progress, check every identifier it refers to, then give it the
        next position and append it to `decls`. */
    method Run(d: Decl) returns (r: Outcome)
      requires Valid() && Consistent() && d in deps
      requires d in pos ==> pos[d] >= 0
      requires d !in pos && |stack| > 0 ==> Edge(deps, globals, stack[|stack| - 1], d)
      modifies this
      decreases |deps.Keys - pos.Keys|, 0
      ensures Valid() && globals == old(globals)
      ensures Grows(old(pos), pos, old(decls), decls)
      ensures r.Done? ==> Consistent() && stack == old(stack)
      ensures r.Done? ==> d in pos && 0 <= pos[d] < |decls| && decls[pos[d]] == d
      ensures d in old(pos) ==> r.Done? && pos == old(pos) && decls == old(decls)
      ensures r.UndefinedIdentifier? ==> r.id !in globals
      ensures r.CircularDefinition? ==> r.id in globals && OnCycle(deps, globals, globals[r.id])
    {
      if d in pos {
        return Done;
      }
      Mark(d);
      FewerUnvisited(deps.Keys, old(pos).Keys, pos.Keys, d);
      ghost var pos1, decls1 := pos, decls;
      r := CheckRefs(d);
      GrowsTrans(old(pos), pos1, pos, old(decls), decls1, decls);
      if !r.Done? {
        return;
      }
      ghost var pos2, decls2 := pos, decls;
      Finish(d, old(stack));
      GrowsTrans(old(pos), pos2, pos, old(decls), decls2, decls);
    }

    /** Mark a new declaration as being walked and push it on the walk. */
    method Mark(d: Decl)
      requires Valid() && Consistent() && d in deps && d !in pos
      requires |stack| > 0 ==> Edge(deps, globals, stack[|stack| - 1], d)
      modifies this
      ensures Valid() && Consistent()
      ensures globals == old(globals) && decls == old(decls)
      ensures pos == old(pos)[d := -1] && stack == old(stack) + [d]
      ensures Grows(old(pos), pos, old(decls), decls)
    {
      MarkKeepsInvariants(deps, globals, pos, decls, stack, d);
      pos, stack := pos[d := -1], stack + [d];
    }

    /** Give the walked declaration the next position, append it to the
        definition order and pop it off the walk. */
    method Finish(d: Decl, ghost rest: seq<Decl>)
      requires Valid() && Consistent() && d in deps
      requires stack == rest + [d] && d !in rest
      requires forall x :: x in deps[d] ==> Resolved(globals, pos, |decls|, x)
      modifies this
      ensures Valid() && Consistent()
      ensures globals == old(globals) && stack == rest
      ensures pos == old(pos)[d := |old(decls)|] && decls == old(decls) + [d]
      ensures Grows(old(pos), pos, old(decls), decls)
    {
      FinishKeepsInvariants(deps, globals, pos, decls, rest, d);
      assert stack[|stack| - 1] == d;
      assert pos[d] == -1;
      pos, decls, stack := pos[d := |decls|], decls + [d], rest;
    }

    /** Check, in order, every identifier the declaration on top of the walk
        refers to; on success each names a declaration that has finished. */
    method CheckRefs(d: Decl) returns (r: Outcome)
      requires Valid() && Consistent() && d in deps
      requires |stack| > 0 && stack[|stack| - 1] == d
      modifies this
      decreases |deps.Keys - pos.Keys|, 2
      ensures Valid() && globals == old(globals)
      ensures Grows(old(pos), pos, old(decls), decls)
      ensures r.Done? ==> Consistent() && stack == old(stack)
      ensures r.Done? ==> forall x :: x in deps[d] ==> Resolved(globals, pos, |decls|, x)
      ensures r.UndefinedIdentifier? ==> r.id !in globals
      ensures r.CircularDefinition? ==> r.id in globals && OnCycle(deps, globals, globals[r.id])
    {
      var refs := deps[d];
      var i := 0;
      while i < |refs|
        invariant 0 <= i <= |refs|
        invariant Valid() && Consistent() && globals == old(globals) && stack == old(stack)
        invariant Grows(old(pos), pos, old(decls), decls)
        invariant forall x :: x in refs[..i] ==> Resolved(globals, pos, |decls|, x)
      {
        SubsetCard(deps.Keys - pos.Keys, deps.Keys - old(pos).Keys);
        ghost var posBefore, declsBefore := pos, decls;
        r := CheckId(refs[i]);
        if !r.Done? {
          return;
        }
        StillResolved(globals, posBefore, pos, declsBefore, decls, refs[..i]);
        ExtendResolved(globals, pos, |decls|, refs, i);
        i := i + 1;
      }
      assert refs[..i] == refs;
      r := Done;
    }

    /** Check one identifier referred to by the declaration on top of the
        walk: undefined names and declarations still in progress fail; a
        declaration not seen yet is walked now. */
    method CheckId(x: Ident) returns (r: Outcome)
      requires Valid() && Consistent()
      requires |stack| > 0 && x in deps[stack[|stack| - 1]]
      modifies this
      decreases |deps.Keys - pos.Keys|, 1
      ensures Valid() && globals == old(globals)
      ensures Grows(old(pos), pos, old(decls), decls)
      ensures r.Done? ==> Consistent() && stack == old(stack)
      ensures r.Done? ==> Resolved(globals, pos, |decls|, x)
      ensures x !in globals ==> r == UndefinedIdentifier(x)
      ensures x in globals && globals[x] in old(pos) && old(pos)[globals[x]] == -1 ==> r == CircularDefinition(x)
      ensures x in globals && globals[x] in old(pos) && old(pos)[globals[x]] >= 0 ==>
        r == Done && pos == old(pos) && decls == old(decls)
      ensures r.UndefinedIdentifier? ==> r.id !in globals
      ensures r.CircularDefinition? ==> r.id in globals && OnCycle(deps, globals, globals[r.id])
    {
      if x !in globals {
        return UndefinedIdentifier(x);
      }
      var dd := globals[x];
      ghost var top := stack[|stack| - 1];
      ghost var i :| 0 <= i < |deps[top]| && deps[top][i] == x;
      assert Edge(deps, globals, top, dd);
      if dd !in pos {
        r := Run(dd);
        if !r.Done? {
          return;
        }
      } else if pos[dd] == -1 {
        ghost var k :| 0 <= k < |stack| && stack[k] == dd;
        ghost var p := stack[k..] + [dd];
        assert IsPath(deps, globals, p) && |p| >= 2 && p[0] == dd && p[|p| - 1] == dd;
        return CircularDefinition(x);
      }
      r := Done;
    }

    /** The driver's pass over the model's declaration items: walk each in turn. */
    method RunAll(ds: seq<Decl>) returns (r: Outcome)
      requires Valid() && Consistent() && stack == []
      requires forall k :: 0 <= k < |ds| ==> ds[k] in deps
      modifies this
      ensures Valid() && globals == old(globals)
      ensures Grows(old(pos), pos, old(decls), decls)
      ensures r.Done? ==> Consistent() && stack == []
      ensures r.Done? ==> forall k :: 0 <= k < |ds| ==> ds[k] in pos && 0 <= pos[ds[k]] < |decls|
      ensures r.UndefinedIdentifier? ==> r.id !in globals
      ensures r.CircularDefinition? ==> r.id in globals && OnCycle(deps, globals, globals[r.id])
    {
      var i := 0;
      while i < |ds|
        invariant 0 <= i <= |ds|
        invariant Valid() && Consistent() && globals == old(globals) && stack == []
        invariant Grows(old(pos), pos, old(decls), decls)
        invariant forall k :: 0 <= k < i ==> ds[k] in pos && 0 <= pos[ds[k]] < |decls|
      {
        assert ds[i] in pos ==> pos[ds[i]] >= 0;
        ghost var posBefore := pos;
        r := Run(ds[i]);
        if !r.Done? {
          return;
        }
        forall k | 0 <= k < i
          ensures ds[k] in pos && 0 <= pos[ds[k]] < |decls|
        {
          assert posBefore[ds[k]] >= 0;
        }
        i := i + 1;
      }
      r := Done;
    }
  }
}
