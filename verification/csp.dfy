/** Vocabulary shared by every part of the forward-checking solver: variables,
    values, the domain store, constraint pairs and the two constraint relations. */
module Csp {

  /** Variables are named, as in the instance `main` builds (`x1` .. `x7`). */
  type Var = string

  /** Domain values; the instance `main` builds colours with the values 1 .. 4. */
  type Val = int

  /** The domain store: each variable's ordered candidate values. The first
      value is the one tried first. */
  type Domains = map<Var, seq<Val>>

  /** A value beside Python's `None`; revision marks rejected cells with `None`. */
  datatype Option<T> = None | Some(value: T)

  /** A 2-tuple of variables. A constraint is read as an unordered pair; an arc
      is an ordered pair whose head's domain is pruned against its tail's. */
  datatype Pair = Pair(head: Var, tail: Var) {

    /** The tuple read backwards, `c[::-1]`. */
    function Reversed(): Pair {
      Pair(tail, head)
    }

    /** Python's `v in c` on a 2-tuple. */
    predicate Mentions(v: Var) {
      head == v || tail == v
    }
  }

  type Constraint = Pair
  type Arc = Pair

  /** The binary predicate a constraint imposes between two values. It is
      applied to plain values and, during revision, to cells that may hold
      `None`, where it behaves like Python's `!=` and `==`. */
  datatype Relation = Inequality | Equality {
    predicate Holds<T(==)>(a: T, b: T) {
      match this
      case Inequality => a != b
      case Equality => a == b
    }
  }

  /** No variable occurs twice. */
  ghost predicate Distinct(s: seq<Var>) {
    forall v :: multiset(s)[v] <= 1
  }
}
