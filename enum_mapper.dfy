/** The ordinal layout of an enum declared in parts (`create_enum_mapper`,
    lib/typecheck.cpp): an enum `X = {A, B} ++ C(1..3) ++ anon_enum(2)` is
    the integer range `1..total`, each part owning the next block of
    consecutive ordinals.

    Only the arithmetic of the generated definitions is modelled: the
    ordinal of each literal identifier, the offset of a constructor part and
    its inverse, the cumulative cardinalities `partCardinality`, the
    enum's range, the threshold chain of the to-string dispatcher, and the
    names of the generated to-string functions. The generated syntax trees
    are not. Cardinalities are the values the generated expressions take. */
module EnumMapper {
  import opened Types

  /** One part of an enum definition: a set literal of identifiers, an
      anonymous block (`anon_enum(n)` or `anon_enum_set(s)`, with `card`
      elements), or a constructor `C(E)` whose argument `E` is the
      contiguous set `argMin..argMin+argCard-1` (the generated model
      asserts contiguity). */
  datatype Part =
    | Literal(names: seq<string>)
    | Anon(card: nat)
    | Constructor(cname: string, argMin: int, argCard: nat)

  function Card(part: Part): nat {
    match part
    case Literal(names) => |names|
    case Anon(n) => n
    case Constructor(_, _, n) => n
  }

  /** The number of ordinals the parts use. */
  function Sum(parts: seq<Part>): nat {
    if parts == [] then 0 else Sum(parts[..|parts| - 1]) + Card(parts[|parts| - 1])
  }

  predicate IsEmptyLiteral(part: Part) {
    part.Literal? && part.names == []
  }

  /** The cumulative cardinalities as the code collects them: a literal
      part pushes its running total when it handles its last identifier,
      so an empty literal part pushes nothing. */
  function CardinalitiesAsWritten(parts: seq<Part>): seq<int> {
    if parts == [] then []
    else
      var init := parts[..|parts| - 1];
      CardinalitiesAsWritten(init) + (if IsEmptyLiteral(parts[|parts| - 1]) then [] else [Sum(parts)])
  }

  /** The cumulative cardinalities with one entry per part: entry `i` is the
      number of ordinals of parts `0..i`. */
  function Cardinalities(parts: seq<Part>): (r: seq<int>)
    ensures |r| == |parts|
  {
    if parts == [] then [] else Cardinalities(parts[..|parts| - 1]) + [Sum(parts)]
  }

  /** The running total before part `p` as the code reads it: the last
      entry of `partCardinality`, or none (0) when it is empty. */
  function PrevAsWritten(parts: seq<Part>, p: nat): int
    requires p <= |parts|
  {
    var pc := CardinalitiesAsWritten(parts[..p]);
    if pc == [] then 0 else pc[|pc| - 1]
  }

  /** The number of ordinals used by the parts before `p`. */
  function Prev(parts: seq<Part>, p: nat): nat
    requires p <= |parts|
  {
    Sum(parts[..p])
  }

  /** The enum's range is `1..Total`: the last cumulative cardinality, or
      `1..0` when there is none. */
  function Total(parts: seq<Part>): int {
    var pc := CardinalitiesAsWritten(parts);
    if pc == [] then 0 else pc[|pc| - 1]
  }

  /** The ordinal given to the `i`-th identifier of literal part `p`. */
  function LiteralOrdinal(parts: seq<Part>, p: nat, i: nat): int
    requires p < |parts| && parts[p].Literal? && i < |parts[p].names|
  {
    PrevAsWritten(parts, p) + i + 1
  }

  /** The identifier the to-string function of literal part `p` shows for
      ordinal `x`: the names array is indexed by `x - prev`, from 1. */
  function LiteralShown(parts: seq<Part>, p: nat, x: int): string
    requires p < |parts| && parts[p].Literal?
    requires PrevAsWritten(parts, p) < x <= PrevAsWritten(parts, p) + |parts[p].names|
  {
    parts[p].names[x - PrevAsWritten(parts, p) - 1]
  }

  /** The offset of a constructor part: `prev - (min(E) - 1)`. */
  function ConstrMin(prev: int, argMin: int): int {
    prev - (argMin - 1)
  }

  /** `C(x)`: the ordinal of the constructor applied to `x`. */
  function Forward(constrMin: int, x: int): int {
    constrMin + x
  }

  /** `C⁻¹(y)`: the argument an ordinal of the constructor part came from. */
  function Inverse(constrMin: int, y: int): int {
    y - constrMin
  }

  // ---------------------------------------------------------------------
  // The loop over the parts.

  /** The parts of an enum, in order, with the literal identifiers and their
      ordinals in the order the `to_enum` definitions are created. */
  function NamedOrdinals(parts: seq<Part>): seq<(string, int)> {
    if parts == [] then []
    else
      var init := parts[..|parts| - 1];
      NamedOrdinals(init) + PartOrdinals(parts[|parts| - 1], Sum(init))
  }

  function PartOrdinals(part: Part, prev: int): (r: seq<(string, int)>)
    ensures part.Literal? ==> |r| == |part.names|
    ensures forall k :: 0 <= k < |r| ==>
      part.Literal? && prev < r[k].1 <= prev + |part.names| && part.names[r[k].1 - prev - 1] == r[k].0
    ensures forall j, k :: 0 <= j < k < |r| ==> r[j].1 < r[k].1
  {
    if part.Literal? then seq(|part.names|, k requires 0 <= k < |part.names| => (part.names[k], prev + k + 1))
    else []
  }

  /** The last entry of `partCardinality`, or 0 when it is empty. */
  function Last(pc: seq<int>): int {
    if pc == [] then 0 else pc[|pc| - 1]
  }

  /** `partCardinality` after handling one more part. */
  function CardsAfter(pc: seq<int>, part: Part): seq<int> {
    if IsEmptyLiteral(part) then pc else pc + [Last(pc) + Card(part)]
  }

  /** The loop of `create_enum_mapper` over the parts: each part's
      identifiers and running total are added by `LayOutPart`. */
  method LayOut(parts: seq<Part>) returns (partCardinality: seq<int>, named: seq<(string, int)>)
    ensures partCardinality == CardinalitiesAsWritten(parts)
    ensures named == NamedOrdinals(parts)
  {
    partCardinality := [];
    named := [];
    var p := 0;
    while p < |parts|
      invariant p <= |parts|
      invariant partCardinality == CardinalitiesAsWritten(parts[..p])
      invariant named == NamedOrdinals(parts[..p])
    {
      LayOutStep(parts, p);
      var added;
      partCardinality, added := LayOutPart(parts[p], partCardinality);
      named := named + added;
      p := p + 1;
    }
    assert parts[..p] == parts;
  }

  /** One part: a literal part defines its `i`-th identifier as
      `to_enum(X, prev + i + 1)` and pushes the running total with its last
      identifier; an anonymous or constructor part pushes the running total
      plus its cardinality. */
  method LayOutPart(part: Part, pc: seq<int>) returns (pc': seq<int>, added: seq<(string, int)>)
    ensures pc' == CardsAfter(pc, part)
    ensures added == PartOrdinals(part, Last(pc))
  {
    var prev := if pc == [] then 0 else pc[|pc| - 1];
    pc' := pc;
    added := [];
    match part {
      case Literal(names) =>
        var i := 0;
        while i < |names|
          invariant i <= |names|
          invariant added == PartOrdinals(part, prev)[..i]
          invariant pc' == if i == |names| && i > 0 then pc + [prev + i] else pc
        {
          added := added + [(names[i], prev + i + 1)];
          if i == |names| - 1 {
            pc' := pc' + [prev + i + 1];
          }
          i := i + 1;
        }
        assert PartOrdinals(part, prev)[..i] == PartOrdinals(part, prev);
      case Anon(n) =>
        pc' := pc' + [prev + n];
      case Constructor(_, _, n) =>
        pc' := pc' + [prev + n];
    }
  }

  lemma LayOutStep(parts: seq<Part>, p: nat)
    requires p < |parts|
    ensures CardinalitiesAsWritten(parts[..p + 1]) == CardsAfter(CardinalitiesAsWritten(parts[..p]), parts[p])
    ensures NamedOrdinals(parts[..p + 1]) ==
      NamedOrdinals(parts[..p]) + PartOrdinals(parts[p], Last(CardinalitiesAsWritten(parts[..p])))
  {
    assert parts[..p + 1][..p] == parts[..p];
    LastCardinality(parts[..p]);
  }

  /** The last cumulative cardinality the code has collected is the number
      of ordinals used so far, and none is collected only when none is used. */
  lemma {:induction false} LastCardinality(parts: seq<Part>)
    ensures var pc := CardinalitiesAsWritten(parts);
      (if pc == [] then 0 else pc[|pc| - 1]) == Sum(parts)
  {
    if parts != [] {
      LastCardinality(parts[..|parts| - 1]);
    }
  }

  /** Skipping empty literal parts does not change the running totals: the
      offset before every part, and the enum's range, are the number of
      ordinals used. */
  lemma PrevAsWrittenAgrees(parts: seq<Part>, p: nat)
    requires p <= |parts|
    ensures PrevAsWritten(parts, p) == Prev(parts, p)
  {
    LastCardinality(parts[..p]);
  }

  lemma TotalIsSum(parts: seq<Part>)
    ensures Total(parts) == Sum(parts)
  {
    LastCardinality(parts);
  }

  lemma {:induction false} PrevStep(parts: seq<Part>, p: nat)
    requires p < |parts|
    ensures Prev(parts, p + 1) == Prev(parts, p) + Card(parts[p])
  {
    assert parts[..p + 1][..p] == parts[..p];
  }

  lemma {:induction false} PrevMonotone(parts: seq<Part>, p: nat, q: nat)
    requires p <= q <= |parts|
    ensures Prev(parts, p) <= Prev(parts, q)
    decreases q - p
  {
    if p < q {
      PrevStep(parts, p);
      PrevMonotone(parts, p + 1, q);
    }
  }

  /** Every part owns the block `Prev(p)+1 .. Prev(p)+Card(p)`; the blocks
      follow each other without overlap and end at the enum's total. */
  lemma PartBlocks(parts: seq<Part>, p: nat, q: nat)
    requires p < q < |parts|
    ensures Prev(parts, p) + Card(parts[p]) <= Prev(parts, q)
    ensures Prev(parts, q) + Card(parts[q]) <= Total(parts)
  {
    PrevStep(parts, p);
    PrevMonotone(parts, p + 1, q);
    PrevStep(parts, q);
    PrevMonotone(parts, q + 1, |parts|);
    assert parts[..|parts|] == parts;
    TotalIsSum(parts);
  }

  /** Two increasing runs of ordinals, the first within `1..mid` and the
      second within `mid+1..hi`, join into one increasing run within `1..hi`. */
  lemma OrdinalsConcat(a: seq<(string, int)>, b: seq<(string, int)>, mid: int, hi: int)
    requires forall k :: 0 <= k < |a| ==> 1 <= a[k].1 <= mid
    requires 0 <= mid <= hi && forall k :: 0 <= k < |b| ==> mid < b[k].1 <= hi
    requires forall k, l :: 0 <= k < l < |a| ==> a[k].1 < a[l].1
    requires forall k, l :: 0 <= k < l < |b| ==> b[k].1 < b[l].1
    ensures forall k :: 0 <= k < |a + b| ==> 1 <= (a + b)[k].1 <= hi
    ensures forall k, l :: 0 <= k < l < |a + b| ==> (a + b)[k].1 < (a + b)[l].1
  {
    forall k, l | 0 <= k < l < |a + b|
      ensures (a + b)[k].1 < (a + b)[l].1
    {
      if l < |a| {
        assert (a + b)[k] == a[k] && (a + b)[l] == a[l];
      } else if k >= |a| {
        assert (a + b)[k] == b[k - |a|] && (a + b)[l] == b[l - |a|];
      } else {
        assert (a + b)[k] == a[k] && (a + b)[l] == b[l - |a|];
      }
    }
    forall k | 0 <= k < |a + b|
      ensures 1 <= (a + b)[k].1 <= hi
    {
      if k < |a| {
        assert (a + b)[k] == a[k];
      } else {
        assert (a + b)[k] == b[k - |a|];
      }
    }
  }

  /** The identifiers of the literal parts get distinct ordinals, in
      increasing order, inside the enum's range. */
  lemma {:induction false} NamedOrdinalsInRange(parts: seq<Part>)
    ensures forall k :: 0 <= k < |NamedOrdinals(parts)| ==> 1 <= NamedOrdinals(parts)[k].1 <= Sum(parts)
    ensures forall k, l :: 0 <= k < l < |NamedOrdinals(parts)| ==> NamedOrdinals(parts)[k].1 < NamedOrdinals(parts)[l].1
  {
    if parts != [] {
      var init := parts[..|parts| - 1];
      NamedOrdinalsInRange(init);
      var a: seq<(string, int)>, b: seq<(string, int)> := NamedOrdinals(init), PartOrdinals(parts[|parts| - 1], Sum(init));
      assert NamedOrdinals(parts) == a + b;
      assert Sum(parts) == Sum(init) + Card(parts[|parts| - 1]);
      OrdinalsConcat(a, b, Sum(init), Sum(parts));
    }
  }

  /** A literal identifier is shown as itself: the to-string function of its
      part indexes the names array with the identifier's own ordinal. */
  lemma LiteralRoundTrip(parts: seq<Part>, p: nat, i: nat)
    requires p < |parts| && parts[p].Literal? && i < |parts[p].names|
    ensures PrevAsWritten(parts, p) < LiteralOrdinal(parts, p, i) <= PrevAsWritten(parts, p) + |parts[p].names|
    ensures LiteralShown(parts, p, LiteralOrdinal(parts, p, i)) == parts[p].names[i]
  {
  }

  /** The constructor maps its argument set `argMin..argMin+argCard-1` onto
      the part's block, and `C⁻¹` undoes `C` in both directions. */
  lemma ConstructorRoundTrip(prev: int, argMin: int, argCard: nat, x: int, y: int)
    ensures Inverse(ConstrMin(prev, argMin), Forward(ConstrMin(prev, argMin), x)) == x
    ensures Forward(ConstrMin(prev, argMin), Inverse(ConstrMin(prev, argMin), y)) == y
    ensures argMin <= x < argMin + argCard <==>
      prev < Forward(ConstrMin(prev, argMin), x) <= prev + argCard
  {
  }

  /** The constructor of part `p`, with the offset the code computes from
      the running total before the part, maps its argument set exactly onto
      the part's block, which lies in the enum's range. */
  lemma ConstructorPartBlock(parts: seq<Part>, p: nat, x: int)
    requires p < |parts| && parts[p].Constructor?
    ensures var cm := ConstrMin(PrevAsWritten(parts, p), parts[p].argMin);
      && (parts[p].argMin <= x < parts[p].argMin + parts[p].argCard <==>
          Prev(parts, p) < Forward(cm, x) <= Prev(parts, p) + Card(parts[p]))
      && (parts[p].argMin <= x < parts[p].argMin + parts[p].argCard ==> 1 <= Forward(cm, x) <= Total(parts))
  {
    PrevAsWrittenAgrees(parts, p);
    ConstructorRoundTrip(Prev(parts, p), parts[p].argMin, parts[p].argCard, x, x);
    PrevStep(parts, p);
    PrevMonotone(parts, p + 1, |parts|);
    assert parts[..|parts|] == parts;
    TotalIsSum(parts);
  }

  // ---------------------------------------------------------------------
  // The to-string dispatcher of an enum with more than one part.

  /** The threshold chain `if deopt(x) <= pc[0] then part 0 elseif ... else
      last part`, evaluated from part `i`; None where the chain reads past
      the end of `pc`. */
  function Dispatch(pc: seq<int>, nparts: nat, x: int, i: nat): Option<nat>
    requires 0 < nparts
    decreases nparts - i
  {
    if i >= nparts - 1 then Some(nparts - 1)
    else if i >= |pc| then None
    else if x <= pc[i] then Some(i)
    else Dispatch(pc, nparts, x, i + 1)
  }

  /** With one cumulative cardinality per part, the dispatcher sends every
      ordinal of the enum to the part whose block holds it. */
  lemma {:induction false} DispatchFindsOwner(parts: seq<Part>, x: int, i: nat)
    requires 0 < |parts| && i < |parts|
    requires Prev(parts, i) < x <= Total(parts)
    ensures var r := Dispatch(Cardinalities(parts), |parts|, x, i);
      r.Some? && r.value < |parts| && Prev(parts, r.value) < x <= Prev(parts, r.value) + Card(parts[r.value])
    decreases |parts| - i
  {
    PrevStep(parts, i);
    CardinalityEntry(parts, i);
    if i == |parts| - 1 {
      TotalIsSum(parts);
      assert parts[..|parts|] == parts;
    } else if x > Cardinalities(parts)[i] {
      DispatchFindsOwner(parts, x, i + 1);
    }
  }

  lemma {:induction false} CardinalityEntry(parts: seq<Part>, i: nat)
    requires i < |parts|
    ensures Cardinalities(parts)[i] == Prev(parts, i + 1)
  {
    var init := parts[..|parts| - 1];
    if i < |parts| - 1 {
      CardinalityEntry(init, i);
      assert init[..i + 1] == parts[..i + 1];
    } else {
      assert parts[..i + 1] == parts;
    }
  }

  /** The dispatcher as generated, over the cumulative cardinalities the
      code collects: with an empty literal part in the middle, the second
      ordinal is sent to the empty part instead of the part that owns it. */
  lemma DispatchAsWrittenMisroutes()
    ensures var parts := [Literal(["A"]), Literal([]), Literal(["B"])];
      Prev(parts, 2) < 2 <= Prev(parts, 2) + Card(parts[2]) &&
      Dispatch(CardinalitiesAsWritten(parts), |parts|, 2, 0) == Some(1)
  {
    var parts := [Literal(["A"]), Literal([]), Literal(["B"])];
    assert parts[..2] == [Literal(["A"]), Literal([])];
    assert parts[..1] == [Literal(["A"])];
    assert parts[..0] == [];
    assert [Literal(["A"])][..0] == [];
    assert [Literal(["A"]), Literal([])][..1] == [Literal(["A"])];
    assert CardinalitiesAsWritten(parts) == [1, 2];
  }

  /** Without an empty literal part, the code collects one cumulative
      cardinality per part, the corrected list. */
  lemma {:induction false} AsWrittenAgrees(parts: seq<Part>)
    requires forall p :: 0 <= p < |parts| ==> !IsEmptyLiteral(parts[p])
    ensures CardinalitiesAsWritten(parts) == Cardinalities(parts)
  {
    if parts != [] {
      AsWrittenAgrees(parts[..|parts| - 1]);
    }
  }

  /** Without an empty literal part, the dispatcher as generated sends every
      ordinal of the enum to the part whose block holds it. */
  lemma DispatchAsWrittenFindsOwner(parts: seq<Part>, x: int)
    requires 0 < |parts| && forall p :: 0 <= p < |parts| ==> !IsEmptyLiteral(parts[p])
    requires 1 <= x <= Total(parts)
    ensures var r := Dispatch(CardinalitiesAsWritten(parts), |parts|, x, 0);
      r.Some? && r.value < |parts| && Prev(parts, r.value) < x <= Prev(parts, r.value) + Card(parts[r.value])
  {
    AsWrittenAgrees(parts);
    assert parts[..0] == [];
    DispatchFindsOwner(parts, x, 0);
  }

  // ---------------------------------------------------------------------
  // The to-string function of an anonymous part.

  /** The ordinal shown as `to_enum(X, k)` for ordinal `x` of an anonymous
      part, as generated: the running total before the part is added to
      `x`, although the dispatcher passes the enum's own ordinal. */
  function AnonShownAsWritten(parts: seq<Part>, p: nat, x: int): int
    requires p <= |parts|
  {
    var pc := CardinalitiesAsWritten(parts[..p]);
    if pc == [] then x else pc[|pc| - 1] + x
  }

  /** The ordinal shown for ordinal `x` of an anonymous part, so that
      `to_enum(X, k)` denotes the same element. */
  function AnonShown(parts: seq<Part>, p: nat, x: int): int
    requires p <= |parts|
  {
    x
  }

  /** The generated to-string of an anonymous part shifts every ordinal by
      the number of ordinals before the part, so it shows the intended
      ordinal exactly when no ordinal precedes the part (it comes first, or
      only empty literal parts precede it). */
  lemma AnonShownAsWrittenAgrees(parts: seq<Part>, p: nat, x: int)
    requires p <= |parts|
    ensures AnonShownAsWritten(parts, p, x) == Prev(parts, p) + x
    ensures AnonShownAsWritten(parts, p, x) == AnonShown(parts, p, x) <==> Prev(parts, p) == 0
  {
    LastCardinality(parts[..p]);
  }

  /** With an anonymous part after a literal one, the last element of the
      enum is shown as an ordinal outside the enum's range. */
  lemma AnonShownAsWrittenOutOfRange()
    ensures var parts := [Literal(["A"]), Anon(1)];
      Total(parts) == 2 && AnonShownAsWritten(parts, 1, 2) == 3
  {
    var parts := [Literal(["A"]), Anon(1)];
    assert parts[..1] == [Literal(["A"])];
    assert parts[..1][..0] == [];
    assert parts[..|parts| - 1] == [Literal(["A"])];
    assert Sum([Literal(["A"])]) == 1;
    assert CardinalitiesAsWritten([Literal(["A"])]) == [1];
    assert Sum(parts) == 2;
    assert CardinalitiesAsWritten(parts) == [1, 2];
  }

  /** Every element of an anonymous part is shown as its own ordinal, which
      lies in the part's block and so inside the enum's range. */
  lemma AnonShownInRange(parts: seq<Part>, p: nat, x: int)
    requires p < |parts| && parts[p].Anon?
    requires Prev(parts, p) < x <= Prev(parts, p) + Card(parts[p])
    ensures 1 <= AnonShown(parts, p, x) <= Total(parts)
  {
    PrevStep(parts, p);
    PrevMonotone(parts, p + 1, |parts|);
    assert parts[..|parts|] == parts;
    TotalIsSum(parts);
  }

  // ---------------------------------------------------------------------
  // Names of the generated to-string functions.

  /** `create_enum_to_string_name`: the prefix followed by the enum's name. */
  function ToStringName(ident: string, prefix: string): string {
    prefix + ident
  }

  /** For a fixed prefix, different enums get different names. */
  lemma ToStringNameInjective(x: string, y: string, prefix: string)
    requires ToStringName(x, prefix) == ToStringName(y, prefix)
    ensures x == y
  {
    assert ToStringName(x, prefix)[|prefix|..] == x;
    assert ToStringName(y, prefix)[|prefix|..] == y;
  }

  /** Decimal digits of a natural number, as `std::to_string` writes them. */
  function Decimal(n: nat): (r: string)
    ensures |r| >= 1
    ensures forall k :: 0 <= k < |r| ==> '0' <= r[k] <= '9'
  {
    if n < 10 then [Digit(n)] else Decimal(n / 10) + [Digit(n % 10)]
  }

  function Digit(d: nat): (c: char)
    requires d < 10
    ensures '0' <= c <= '9'
  {
    ('0' as int + d) as char
  }

  lemma {:induction false} DecimalLong(n: nat)
    ensures n >= 10 <==> |Decimal(n)| >= 2
  {
    if n >= 10 {
      assert |Decimal(n)| == |Decimal(n / 10)| + 1;
    }
  }

  lemma {:induction false} DecimalInjective(m: nat, n: nat)
    requires Decimal(m) == Decimal(n)
    ensures m == n
  {
    DecimalLong(m);
    DecimalLong(n);
    if m >= 10 {
      var a, b := Decimal(m / 10), Decimal(n / 10);
      assert a == Decimal(m)[..|a|];
      assert b == Decimal(n)[..|b|];
      DecimalInjective(m / 10, n / 10);
      assert Digit(m % 10) == Digit(n % 10);
    }
  }

  /** The name of part `p`'s to-string function: `_toString_p_X` when the
      enum has several parts, `_toString_X` otherwise. */
  function PartToStringName(ident: string, p: nat, multi: bool): string {
    ToStringName(ident, if multi then "_toString_" + Decimal(p) + "_" else "_toString_")
  }

  /** Different parts of one enum, or parts of different enums, get
      different to-string functions. */
  lemma PartToStringNamesDistinct(x: string, y: string, p: nat, q: nat)
    requires PartToStringName(x, p, true) == PartToStringName(y, q, true)
    ensures p == q && x == y
  {
    var s, t := Decimal(p) + "_" + x, Decimal(q) + "_" + y;
    var pre := "_toString_";
    assert PartToStringName(x, p, true) == pre + s;
    assert PartToStringName(y, q, true) == pre + t;
    assert s == (pre + s)[|pre|..];
    assert t == (pre + t)[|pre|..];
    var dp, dq := Decimal(p), Decimal(q);
    FirstUnderscore(dp, x);
    FirstUnderscore(dq, y);
    assert |dp| == |dq|;
    assert dp == s[..|dp|];
    assert dq == t[..|dq|];
    DecimalInjective(p, q);
    assert x == s[|dp| + 1..];
    assert y == t[|dq| + 1..];
  }

  /** In `d + "_" + rest` with `d` made of digits, the first underscore
      follows `d`. */
  lemma FirstUnderscore(d: string, rest: string)
    requires forall k :: 0 <= k < |d| ==> '0' <= d[k] <= '9'
    ensures (d + "_" + rest)[|d|] == '_'
    ensures forall k :: 0 <= k < |d| ==> (d + "_" + rest)[k] != '_'
  {
  }
}
