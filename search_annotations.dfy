/** Two pieces of the solver-instance base (lib/solver_instance_base.cpp):
    flattening nested `seq_search` annotations into one list of search
    annotations, and the registry that maps constraint names to the
    functions posting them to a solver. */
module SearchAnnotations {
  import opened Types

  /** A search annotation: a `seq_search` call, whose first argument is an
      array literal of annotations, or any other expression (identified by
      a number). */
  datatype Ann = SeqSearch(elems: seq<Ann>) | Other(id: nat)

  function Size(a: Ann): nat {
    match a
    case SeqSearch(elems) => 1 + SeqSize(elems)
    case Other(_) => 1
  }

  function SeqSize(anns: seq<Ann>): nat {
    if anns == [] then 0 else Size(anns[0]) + SeqSize(anns[1..])
  }

  /** The annotations, in order, with every `seq_search` replaced by the
      flattening of its elements. */
  function Flattened(anns: seq<Ann>): seq<Ann>
    decreases SeqSize(anns), 1
  {
    if anns == [] then [] else FlattenedOne(anns[0]) + Flattened(anns[1..])
  }

  function FlattenedOne(a: Ann): seq<Ann>
    decreases Size(a), 0
  {
    match a
    case SeqSearch(elems) => Flattened(elems)
    case Other(_) => [a]
  }

  /** Flattening is done into a vector the caller owns; it only appends. */
  class SearchFlattener {
    var out: seq<Ann>

    constructor()
      ensures out == []
    {
      out := [];
    }

    /** Each annotation that is not a `seq_search` is appended; a
        `seq_search` is replaced by flattening each of its elements as an
        annotation of its own. */
    method FlattenSearchAnnotations(ann: seq<Ann>)
      modifies this
      ensures out == old(out) + Flattened(ann)
      decreases SeqSize(ann)
    {
      var i := 0;
      while i < |ann|
        invariant i <= |ann|
        invariant out == old(out) + Flattened(ann[..i])
      {
        var e := ann[i];
        FlattenedSnoc(ann[..i], e);
        assert ann[..i + 1] == ann[..i] + [e];
        ElementSmaller(ann, i);
        match e {
          case SeqSearch(anns) =>
            var j := 0;
            while j < |anns|
              invariant j <= |anns|
              invariant out == old(out) + Flattened(ann[..i]) + Flattened(anns[..j])
            {
              FlattenedSnoc(anns[..j], anns[j]);
              assert anns[..j + 1] == anns[..j] + [anns[j]];
              ElementSmaller(anns, j);
              FlattenedSingle(anns[j]);
              FlattenSearchAnnotations([anns[j]]);
              j := j + 1;
            }
            assert anns[..j] == anns;
          case Other(_) =>
            out := out + [e];
        }
        i := i + 1;
      }
      assert ann[..i] == ann;
    }
  }

  /** An element of a list of annotations is smaller than the list. */
  lemma {:induction false} ElementSmaller(anns: seq<Ann>, i: nat)
    requires i < |anns|
    ensures SeqSize([anns[i]]) < SeqSize(anns) + 1
    ensures SeqSize([anns[i]]) == Size(anns[i])
  {
    if i > 0 {
      ElementSmaller(anns[1..], i - 1);
    }
  }

  lemma FlattenedSingle(a: Ann)
    ensures Flattened([a]) == FlattenedOne(a)
  {
    assert [a][1..] == [];
  }

  lemma FlattenedSnoc(anns: seq<Ann>, a: Ann)
    ensures Flattened(anns + [a]) == Flattened(anns) + FlattenedOne(a)
  {
    FlattenedConcat(anns, [a]);
    FlattenedSingle(a);
  }

  /** Flattening keeps the order: it distributes over concatenation. */
  lemma {:induction false} FlattenedConcat(a: seq<Ann>, b: seq<Ann>)
    ensures Flattened(a + b) == Flattened(a) + Flattened(b)
    decreases |a|
  {
    if a == [] {
      assert a + b == b;
    } else {
      assert (a + b)[0] == a[0];
      assert (a + b)[1..] == a[1..] + b;
      FlattenedConcat(a[1..], b);
    }
  }

  /** No `seq_search` call is ever appended. */
  lemma {:induction false} FlattenedHasNoSeqSearch(anns: seq<Ann>)
    ensures forall k :: 0 <= k < |Flattened(anns)| ==> Flattened(anns)[k].Other?
    decreases SeqSize(anns), 1
  {
    if anns != [] {
      FlattenedOneHasNoSeqSearch(anns[0]);
      FlattenedHasNoSeqSearch(anns[1..]);
      var x, y := FlattenedOne(anns[0]), Flattened(anns[1..]);
      assert forall k :: 0 <= k < |y| ==> (x + y)[|x| + k] == y[k];
    }
  }

  lemma {:induction false} FlattenedOneHasNoSeqSearch(a: Ann)
    ensures forall k :: 0 <= k < |FlattenedOne(a)| ==> FlattenedOne(a)[k].Other?
    decreases Size(a), 0
  {
    if a.SeqSearch? {
      FlattenedHasNoSeqSearch(a.elems);
    }
  }

  /** Annotations that are not `seq_search` calls pass through unchanged
      and in order. */
  lemma {:induction false} FlattenedPassesThrough(anns: seq<Ann>)
    requires forall k :: 0 <= k < |anns| ==> anns[k].Other?
    ensures Flattened(anns) == anns
    decreases |anns|
  {
    if anns != [] {
      FlattenedPassesThrough(anns[1..]);
    }
  }

  /** Flattening a flattened list changes nothing. */
  lemma FlattenedIdempotent(anns: seq<Ann>)
    ensures Flattened(Flattened(anns)) == Flattened(anns)
  {
    FlattenedHasNoSeqSearch(anns);
    FlattenedPassesThrough(Flattened(anns));
  }

  /** A `seq_search` in the list is replaced by its elements' flattening, in
      place. */
  lemma SeqSearchReplaced(pre: seq<Ann>, elems: seq<Ann>, post: seq<Ann>)
    ensures Flattened(pre + [SeqSearch(elems)] + post) == Flattened(pre) + Flattened(elems) + Flattened(post)
  {
    FlattenedConcat(pre + [SeqSearch(elems)], post);
    FlattenedSnoc(pre, SeqSearch(elems));
  }

  // ---------------------------------------------------------------------
  // The constraint registry.

  /** A function that posts a constraint, identified by a number. */
  type Poster = nat

  /** Registering keeps the first poster registered under a name. */
  function Register(reg: map<string, Poster>, name: string, p: Poster): map<string, Poster> {
    if name in reg then reg else reg[name := p]
  }

  /** The poster for a call named `id`, or None: an unknown constraint. */
  function Lookup(reg: map<string, Poster>, id: string): Option<Poster> {
    if id in reg then Some(reg[id]) else None
  }

  /** After registering, the name is known, a name's first poster is the
      one found, and other names are unaffected. */
  lemma RegisterThenLookup(reg: map<string, Poster>, name: string, p: Poster, other: string)
    ensures Lookup(Register(reg, name, p), name).Some?
    ensures name !in reg ==> Lookup(Register(reg, name, p), name) == Some(p)
    ensures name in reg ==> Lookup(Register(reg, name, p), name) == Lookup(reg, name)
    ensures other != name ==> Lookup(Register(reg, name, p), other) == Lookup(reg, other)
  {
  }

  /** Registering a second poster under a name leaves the first in place. */
  lemma FirstRegistrationWins(reg: map<string, Poster>, name: string, p: Poster, q: Poster)
    requires name !in reg
    ensures Lookup(Register(Register(reg, name, p), name, q), name) == Some(p)
  {
  }

  class Registry {
    var registry: map<string, Poster>

    constructor()
      ensures registry == map[]
    {
      registry := map[];
    }

    method Add(name: string, p: Poster)
      modifies this
      ensures registry == Register(old(registry), name, p)
    {
      if name !in registry {
        registry := registry[name := p];
      }
    }

    /** The poster to invoke on a call named `id`; None where the code
        reports the unknown constraint and exits. */
    method Post(id: string) returns (r: Option<Poster>)
      ensures r == Lookup(registry, id)
      ensures r.Some? <==> id in registry
    {
      if id in registry {
        r := Some(registry[id]);
      } else {
        r := None;
      }
    }
  }
}
