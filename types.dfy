/** The compact type descriptor every typed expression carries, and the
    small result wrappers the rest of the model uses for the type checker's
    thrown errors. */
module Types {

  datatype Option<T> = None | Some(value: T)

  /** A computation that either yields a value or fails with an error, the
      model of a `throw TypeError(...)` inside the checker. */
  datatype Result<T, E> = Ok(value: T) | Err(error: E)

  /** Parameter (fixed before solving) or variable (decided by the solver). */
  datatype Inst = Par | Var

  /** Base kinds, including the bottom type of `<>` and `{}`, the top type of
      polymorphic arguments and the `unknown` of a not-yet-typed expression. */
  datatype BaseType = Top | Bot | Bool | Int | Float | String | Ann | Unknown

  datatype SetType = Plain | Set

  datatype OptType = Present | Optional

  /** A type: instantiation, base kind, set-ness, optionality, the
      contains-var flag, dimension (-1 is the generic `$T`-array sentinel)
      and the enum identity (0: not enumerated). */
  datatype Type = Type(ti: Inst, bt: BaseType, st: SetType, ot: OptType, cv: bool, dim: int, enumId: nat)
  {
    predicate IsVar() { ti == Var }
    predicate IsPar() { ti == Par }
    predicate IsOpt() { ot == Optional }
    predicate IsSet() { st == Set }
    predicate IsBot() { bt == Bot }
    predicate IsUnknown() { bt == Unknown }
    /** Scalar, non-set types of one base kind. These stand for
        `Type::isbool`, `Type::isint`, `Type::isstring` and `Type::isann`,
        whose definitions are not part of this model; the definitions here
        are assumed. */
    predicate IsBool() { dim == 0 && st == Plain && bt == Bool }
    predicate IsInt() { dim == 0 && st == Plain && bt == Int }
    predicate IsString() { dim == 0 && st == Plain && bt == String }
    predicate IsAnn() { dim == 0 && st == Plain && bt == Ann }
  }

  /** The default-constructed type: a par, present, non-set scalar of
      unknown base kind. */
  const Default: Type := Type(Par, Unknown, Plain, Present, false, 0, 0)

  const ParBool: Type := Type(Par, Bool, Plain, Present, false, 0, 0)
  const VarBool: Type := Type(Var, Bool, Plain, Present, false, 0, 0)

  /** A subset has no more elements than its superset. The termination
      arguments of `TopoSort.FewerUnvisited`, `TopoSort.TopoSorter.CheckRefs`
      and `ParSpecialisation.WithoutSmaller` rest on it. */
  lemma {:induction false} SubsetCard<T>(a: set<T>, b: set<T>)
    requires a <= b
    ensures |a| <= |b|
    decreases |b|
  {
    if a != {} {
      var x :| x in a;
      SubsetCard(a - {x}, b - {x});
    }
  }
}
