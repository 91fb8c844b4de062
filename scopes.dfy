/** The scope stack used for lexical identifier resolution: a vector of
    frames, each tagged TOPLEVEL, FUN or INNER and mapping identifiers to
    their declarations (lib/typecheck.cpp, class Scopes). */
module Scopes {
  import opened Types

  datatype ScopeType = Toplevel | Fun | Inner

  /** An identifier: a synthetic number (-1 for a named identifier) and a name. */
  datatype Ident = Ident(idn: int, v: string)

  /** The parts of a variable declaration the scope stack looks at; `uid`
      stands for the declaration's identity. */
  datatype VarDecl = VarDecl(uid: nat, id: Ident, isEnum: bool, hasRhs: bool)

  datatype Frame = Frame(st: ScopeType, m: map<Ident, VarDecl>)

  /** The name that `add` never registers. */
  predicate Anonymous(id: Ident) {
    id.idn == -1 && id.v == []
  }

  datatype AddStatus =
    | Inserted
    | SkippedAnonymous
    | KeptExisting          // a duplicate of a hidden (idn < -1) identifier: silently ignored
    | DuplicateDefinition   // "identifier ... already defined"
    | EnumNotToplevel       // "enums are only allowed at top level"

  /** What `add` did, and the frame of the binding it warned about, if any. */
  datatype AddResult = AddResult(shadowed: Option<nat>, status: AddStatus)

  /** Frame `i` holds the binding that a new binding of `id` in the INNER top
      frame shadows: it is the nearest frame below the top binding `id`, and
      every frame strictly between is an INNER frame. */
  predicate ShadowedBy(frames: seq<Frame>, id: Ident, i: int) {
    && |frames| >= 2
    && frames[|frames| - 1].st == Inner
    && 0 <= i < |frames| - 1
    && id in frames[i].m
    && forall j :: i < j < |frames| - 1 ==> id !in frames[j].m && frames[j].st == Inner
  }

  /** The index of the innermost TOPLEVEL frame. */
  function HighestToplevel(frames: seq<Frame>): (t: nat)
    requires |frames| > 0 && frames[0].st == Toplevel
    ensures t < |frames| && frames[t].st == Toplevel
    ensures forall j :: t < j < |frames| ==> frames[j].st != Toplevel
  {
    if frames[|frames| - 1].st == Toplevel then |frames| - 1
    else HighestToplevel(frames[..|frames| - 1])
  }

  /** The frames a lookup visits: every frame from the top down to the
      innermost TOPLEVEL frame, and then the bottom frame. */
  predicate InChain(frames: seq<Frame>, k: int)
    requires |frames| > 0 && frames[0].st == Toplevel
  {
    k == 0 || HighestToplevel(frames) <= k < |frames|
  }

  function Abs(x: int): nat {
    if x < 0 then -x else x
  }

  /** Name `x` is close enough in length to `id` to be suggested. */
  predicate LengthClose(id: Ident, x: Ident) {
    Abs(|id.v| - |x.v|) <= 3
  }

  /** `x`, bound in frame `k` of the lookup chain, is a suggestion for `id`
      no other name in the chain beats on edit distance. */
  predicate BestSuggestion(frames: seq<Frame>, id: Ident, dist: (Ident, Ident) -> int, k: int, x: Ident)
    requires |frames| > 0 && frames[0].st == Toplevel
  {
    && 0 <= k < |frames| && InChain(frames, k) && x in frames[k].m
    && LengthClose(id, x) && dist(id, x) < 3
    && forall k', y :: 0 <= k' < |frames| && InChain(frames, k') && y in frames[k'].m && LengthClose(id, y) ==>
         dist(id, x) <= dist(id, y)
  }

  class ScopeStack {
    var frames: seq<Frame>

    ghost predicate Valid()
      reads this
    {
      |frames| >= 1 && frames[0].st == Toplevel
    }

    /** A fresh stack holds one empty TOPLEVEL frame. */
    constructor ()
      ensures Valid() && frames == [Frame(Toplevel, map[])]
    {
      frames := [Frame(Toplevel, map[])];
    }

    method PushToplevel()
      requires Valid()
      modifies this
      ensures Valid() && frames == old(frames) + [Frame(Toplevel, map[])]
    {
      frames := frames + [Frame(Toplevel, map[])];
    }

    method PushFun()
      requires Valid()
      modifies this
      ensures Valid() && frames == old(frames) + [Frame(Fun, map[])]
    {
      frames := frames + [Frame(Fun, map[])];
    }

    method Push()
      requires Valid()
      modifies this
      ensures Valid() && frames == old(frames) + [Frame(Inner, map[])]
    {
      frames := frames + [Frame(Inner, map[])];
    }

    /** Callers pop only what they pushed, so the bottom frame stays. */
    method Pop()
      requires Valid() && |frames| > 1
      modifies this
      ensures Valid() && frames == old(frames)[..|old(frames)| - 1]
    {
      frames := frames[..|frames| - 1];
    }

    /** The shadowing check of `add`: when the top frame is INNER, walk down
        from the frame below it, stop at the first frame binding `id` (the
        one warning) or after the first frame that is not INNER. */
    method ShadowCheck(id: Ident) returns (w: Option<nat>)
      requires Valid()
      ensures w.Some? ==> ShadowedBy(frames, id, w.value)
      ensures w.None? ==> forall i :: !ShadowedBy(frames, id, i)
    {
      w := None;
      var n := |frames|;
      if frames[n - 1].st != Inner {
        return;
      }
      var i := n - 2;
      while i >= 0
        invariant -1 <= i <= n - 2
        invariant forall j :: i < j < n - 1 ==> id !in frames[j].m && frames[j].st == Inner
      {
        if id in frames[i].m {
          w := Some(i);
          return;
        }
        if frames[i].st != Inner {
          return;
        }
        i := i - 1;
      }
    }

    /** Register `vd` in the top frame. */
    method Add(vd: VarDecl) returns (r: AddResult)
      requires Valid()
      modifies this
      ensures Valid()
      ensures var top := old(frames)[|old(frames)| - 1];
        && (r.status == EnumNotToplevel <==> top.st != Toplevel && vd.isEnum && vd.hasRhs)
        && (r.status == SkippedAnonymous <==> !(top.st != Toplevel && vd.isEnum && vd.hasRhs) && Anonymous(vd.id))
        && (r.status == Inserted <==>
              !(top.st != Toplevel && vd.isEnum && vd.hasRhs) && !Anonymous(vd.id) && vd.id !in top.m)
        && (r.status == DuplicateDefinition <==>
              !(top.st != Toplevel && vd.isEnum && vd.hasRhs) && !Anonymous(vd.id) && vd.id in top.m && vd.id.idn >= -1)
        && (r.status == Inserted ==>
              frames == old(frames)[..|old(frames)| - 1] + [Frame(top.st, top.m[vd.id := vd])])
        && (r.status != Inserted ==> frames == old(frames))
      ensures r.shadowed.Some? ==> ShadowedBy(old(frames), vd.id, r.shadowed.value)
      ensures r.status in {Inserted, DuplicateDefinition, KeptExisting} && r.shadowed.None? ==>
        forall i :: !ShadowedBy(old(frames), vd.id, i)
    {
      var n := |frames|;
      var top := frames[n - 1];
      if top.st != Toplevel && vd.isEnum && vd.hasRhs {
        return AddResult(None, EnumNotToplevel);
      }
      if Anonymous(vd.id) {
        return AddResult(None, SkippedAnonymous);
      }
      var w := None;
      if top.st == Inner {
        w := ShadowCheck(vd.id);
      }
      if vd.id !in top.m {
        frames := frames[..n - 1] + [Frame(top.st, top.m[vd.id := vd])];
        r := AddResult(w, Inserted);
      } else if vd.id.idn >= -1 {
        r := AddResult(w, DuplicateDefinition);
      } else {
        r := AddResult(w, KeptExisting);
      }
    }

    /** Look `id` up from the innermost frame outward; after an unsuccessful
        TOPLEVEL frame above the bottom, jump straight to the bottom frame. */
    method Find(id: Ident) returns (r: Option<VarDecl>)
      requires Valid()
      ensures var t := HighestToplevel(frames);
        && (r.Some? <==> (exists j :: t <= j < |frames| && id in frames[j].m) || id in frames[0].m)
        && (forall j :: t <= j < |frames| && id in frames[j].m && (forall k :: j < k < |frames| ==> id !in frames[k].m) ==>
              r == Some(frames[j].m[id]))
        && ((forall j :: t <= j < |frames| ==> id !in frames[j].m) && id in frames[0].m ==>
              r == Some(frames[0].m[id]))
    {
      var n := |frames|;
      ghost var t := HighestToplevel(frames);
      ghost var jumped := false;
      var cur := n - 1;
      while true
        invariant 0 <= cur < n
        invariant !jumped ==> t <= cur && forall k :: cur < k < n ==> id !in frames[k].m
        invariant jumped ==> cur == 0 && forall k :: t <= k < n ==> id !in frames[k].m
        decreases if jumped then 0 else cur + 1
      {
        if id !in frames[cur].m {
          if frames[cur].st == Toplevel {
            if cur > 0 {
              cur := 0;
              jumped := true;
            } else {
              return None;
            }
          } else {
            cur := cur - 1;
          }
        } else {
          return Some(frames[cur].m[id]);
        }
      }
    }

    /** The "did you mean" search: over the same frames as `Find`, the binding
        whose name is nearest to `id` by `dist` (the edit distance), among
        names within distance 2 and length difference 3. */
    method FindSimilar(id: Ident, dist: (Ident, Ident) -> int) returns (r: Option<VarDecl>)
      requires Valid()
      ensures r.Some? ==>
        exists k, x :: BestSuggestion(frames, id, dist, k, x) && frames[k].m[x] == r.value
      ensures r.None? ==>
        forall k, x :: 0 <= k < |frames| && InChain(frames, k) && x in frames[k].m && LengthClose(id, x) ==>
          dist(id, x) >= 3
    {
      var n := |frames|;
      ghost var t := HighestToplevel(frames);
      ghost var jumped := false;
      ghost var done: set<nat> := {};
      ghost var bk: nat, bx: Ident := 0, id;
      r := None;
      var minEdits := 3;
      var cur := n - 1;
      while true
        invariant 0 <= cur < n && InChain(frames, cur)
        invariant !jumped ==> t <= cur && forall k :: k in done <==> cur < k < n
        invariant jumped ==> cur == 0 && 0 < t && forall k :: k in done <==> t <= k < n
        invariant forall k, x :: k in done && x in frames[k].m && LengthClose(id, x) ==> dist(id, x) >= minEdits
        invariant minEdits <= 3 && (r.None? ==> minEdits == 3)
        invariant r.Some? ==>
          && 0 <= bk < n && InChain(frames, bk) && bx in frames[bk].m && frames[bk].m[bx] == r.value
          && LengthClose(id, bx) && dist(id, bx) == minEdits && minEdits < 3
        decreases if jumped then 0 else cur + 1
      {
        var todo := frames[cur].m.Keys;
        while todo != {}
          invariant todo <= frames[cur].m.Keys
          invariant forall x :: x in frames[cur].m.Keys - todo && LengthClose(id, x) ==> dist(id, x) >= minEdits
          invariant forall k, x :: k in done && x in frames[k].m && LengthClose(id, x) ==> dist(id, x) >= minEdits
          invariant minEdits <= 3 && (r.None? ==> minEdits == 3)
          invariant r.Some? ==>
            && 0 <= bk < n && InChain(frames, bk) && bx in frames[bk].m && frames[bk].m[bx] == r.value
            && LengthClose(id, bx) && dist(id, bx) == minEdits && minEdits < 3
          decreases todo
        {
          var x :| x in todo;
          var edits := dist(id, x);
          if edits < minEdits && Abs(|id.v| - |x.v|) <= 3 {
            minEdits := edits;
            r := Some(frames[cur].m[x]);
            bk, bx := cur, x;
          }
          todo := todo - {x};
        }
        done := done + {cur};
        if frames[cur].st == Toplevel {
          if cur > 0 {
            cur := 0;
            jumped := true;
          } else {
            break;
          }
        } else {
          cur := cur - 1;
        }
      }
      assert forall k :: 0 <= k < n && InChain(frames, k) ==> k in done;
      if r.Some? {
        assert BestSuggestion(frames, id, dist, bk, bx);
      }
    }
  }
}
