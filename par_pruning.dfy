/** Choosing the functions that get a par version (lib/typecheck.cpp,
    the par-specialisation step of type checking). Each candidate records
    whether a par version already exists and the functions its body calls
    that have no usable par version. A candidate can only be made par if all
    those functions are candidates too, so candidates are erased until every
    remaining one depends only on remaining ones.

    Which functions are candidates, and which calls count as dependencies,
    is decided by a traversal of function bodies that is not part of this
    model: the initial candidates are the input. Functions are identified by
    a number. */
module ParSpecialisation {
  import opened Types

  type FnId = nat

  datatype Candidate = Candidate(existingPar: bool, deps: seq<FnId>)

  type Candidates = map<FnId, Candidate>

  /** Candidate `f` calls a function that is not a candidate. */
  predicate BlockedIn(m: Candidates, f: FnId)
    requires f in m
  {
    exists k :: 0 <= k < |m[f].deps| && m[f].deps[k] !in m
  }

  /** The candidates one round of the loop erases. */
  function Blocked(m: Candidates): (r: set<FnId>)
    ensures r <= m.Keys
  {
    set f | f in m && BlockedIn(m, f)
  }

  function Without(m: Candidates, r: set<FnId>): Candidates {
    map f | f in m && f !in r :: m[f]
  }

  /** Every dependency of a candidate is a candidate. */
  predicate Closed(m: Candidates) {
    forall f, k :: f in m && 0 <= k < |m[f].deps| ==> m[f].deps[k] in m
  }

  /** `s` is a set of candidates of `m` closed under their dependencies. */
  predicate ClosedWithin(s: set<FnId>, m: Candidates) {
    s <= m.Keys && forall f, k :: f in s && f in m && 0 <= k < |m[f].deps| ==> m[f].deps[k] in s
  }

  /** Erasing a nonempty set of candidates leaves fewer. */
  lemma WithoutSmaller(m: Candidates, r: set<FnId>)
    requires r <= m.Keys && r != {}
    ensures |Without(m, r).Keys| < |m.Keys|
  {
    var f :| f in r;
    assert Without(m, r).Keys <= m.Keys - {f};
    SubsetCard(Without(m, r).Keys, m.Keys - {f});
  }

  /** The outcome of the loop: erase the blocked candidates until none is. */
  function Pruned(m: Candidates): Candidates
    decreases |m.Keys|
  {
    var r := Blocked(m);
    if r == {} then m
    else
      WithoutSmaller(m, r);
      Pruned(Without(m, r))
  }

  /** Pruning only erases: what remains is a candidate with its record. */
  lemma {:induction false} PrunedSubmap(m: Candidates)
    ensures forall f :: f in Pruned(m) ==> f in m && Pruned(m)[f] == m[f]
    decreases |m.Keys|
  {
    var r := Blocked(m);
    if r != {} {
      WithoutSmaller(m, r);
      PrunedSubmap(Without(m, r));
    }
  }

  /** Afterwards every dependency of every remaining candidate remains. */
  lemma {:induction false} PrunedClosed(m: Candidates)
    ensures Closed(Pruned(m))
    decreases |m.Keys|
  {
    var r := Blocked(m);
    if r == {} {
      forall f, k | f in m && 0 <= k < |m[f].deps|
        ensures m[f].deps[k] in m
      {
        assert f !in Blocked(m);
      }
    } else {
      WithoutSmaller(m, r);
      PrunedClosed(Without(m, r));
    }
  }

  /** Nothing is erased needlessly: every set of candidates closed under
      dependencies survives, so the result is the largest such set. */
  lemma {:induction false} PrunedGreatest(m: Candidates, s: set<FnId>)
    requires ClosedWithin(s, m)
    ensures s <= Pruned(m).Keys
    decreases |m.Keys|
  {
    var r := Blocked(m);
    if r != {} {
      BlockedMissesClosed(m, s);
      var m' := Without(m, r);
      assert ClosedWithin(s, m') by {
        forall f, k | f in s && f in m' && 0 <= k < |m'[f].deps|
          ensures m'[f].deps[k] in s
        {
          assert m'[f] == m[f];
        }
      }
      WithoutSmaller(m, r);
      PrunedGreatest(m', s);
    }
  }

  /** No member of a closed set is blocked. */
  lemma BlockedMissesClosed(m: Candidates, s: set<FnId>)
    requires ClosedWithin(s, m)
    ensures Blocked(m) !! s
  {
  }

  /** A closed set of candidates is left alone. */
  lemma PrunedKeepsClosed(m: Candidates)
    requires Closed(m)
    ensures Pruned(m) == m
  {
    assert Blocked(m) == {};
  }

  /** The candidate table the pruning loop works on. */
  class ParSpecialiser {
    var fnsToMakePar: Candidates

    constructor()
      ensures fnsToMakePar == map[]
    {
      fnsToMakePar := map[];
    }

    /** Register a candidate; a function already registered keeps its
        first record, as a map insertion does. */
    method Insert(f: FnId, c: Candidate)
      modifies this
      ensures fnsToMakePar == if f in old(fnsToMakePar) then old(fnsToMakePar) else old(fnsToMakePar)[f := c]
    {
      if f !in fnsToMakePar {
        fnsToMakePar := fnsToMakePar[f := c];
      }
    }

    /** Some function in `deps` is not a candidate. */
    method HasMissingDep(deps: seq<FnId>) returns (missing: bool)
      ensures missing <==> exists j :: 0 <= j < |deps| && deps[j] !in fnsToMakePar
    {
      var k := 0;
      missing := false;
      while k < |deps|
        invariant k <= |deps|
        invariant missing <==> exists j :: 0 <= j < k && deps[j] !in fnsToMakePar
      {
        if deps[k] !in fnsToMakePar {
          missing := true;
        }
        k := k + 1;
      }
    }

    /** One scan: every candidate with a dependency that is not a candidate. */
    method CollectBlocked() returns (toRemove: set<FnId>)
      ensures toRemove == Blocked(fnsToMakePar)
    {
      toRemove := {};
      var pending := fnsToMakePar.Keys;
      ghost var done: set<FnId> := {};
      while pending != {}
        invariant pending + done == fnsToMakePar.Keys && pending !! done
        invariant forall g :: g in toRemove <==> g in done && BlockedIn(fnsToMakePar, g)
        decreases |pending|
      {
        var f :| f in pending;
        var missing := HasMissingDep(fnsToMakePar[f].deps);
        assert missing <==> BlockedIn(fnsToMakePar, f);
        if missing {
          toRemove := toRemove + {f};
        }
        pending := pending - {f};
        done := done + {f};
      }
    }

    /** Erase the given functions one at a time. */
    method EraseAll(toRemove: set<FnId>)
      modifies this
      ensures fnsToMakePar == Without(old(fnsToMakePar), toRemove)
    {
      var rest := toRemove;
      while rest != {}
        invariant rest <= toRemove
        invariant fnsToMakePar == Without(old(fnsToMakePar), toRemove - rest)
        decreases |rest|
      {
        var f :| f in rest;
        fnsToMakePar := map g | g in fnsToMakePar && g != f :: fnsToMakePar[g];
        rest := rest - {f};
      }
    }

    /** Repeat scanning and erasing until a scan finds nothing. */
    method Prune()
      modifies this
      ensures fnsToMakePar == Pruned(old(fnsToMakePar))
    {
      var didRemove := true;
      while didRemove
        invariant Pruned(fnsToMakePar) == Pruned(old(fnsToMakePar))
        invariant !didRemove ==> Blocked(fnsToMakePar) == {}
        decreases |fnsToMakePar.Keys| + (if didRemove then 1 else 0)
      {
        didRemove := false;
        var toRemove := CollectBlocked();
        if toRemove != {} {
          didRemove := true;
          WithoutSmaller(fnsToMakePar, toRemove);
          EraseAll(toRemove);
        }
      }
    }
  }
}
