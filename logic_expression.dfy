/**
 * The n-ary formula of the `reasoning` package, seen through its
 * LogicExpression interface: an atom with a name, or a construction holding an
 * ordered list of terms joined by one connective; both carry a count of the
 * negations written in front of them.
 */
module LogicExpression {
  import opened Wrappers
  import opened Terminal

  datatype ExpressionType = AtomType | ConstructionType

  datatype Expr =
    | Atom(name: string, negs: nat)
    | Construction(terms: seq<Expr>, terminal: Terminal, negs: nat)

  function GetType(e: Expr): (r: ExpressionType)
    ensures r == AtomType <==> e.Atom?
  {
    if e.Atom? then AtomType else ConstructionType
  }

  /** The atom's name; null for a construction. */
  function GetName(e: Expr): (r: Option<string>)
    ensures r.Some? <==> e.Atom?
    ensures e.Atom? ==> r.value == e.name
  {
    if e.Atom? then Some(e.name) else None
  }

  /** The construction's terms; null for an atom. */
  function GetTerms(e: Expr): (r: Option<seq<Expr>>)
    ensures r.Some? <==> e.Construction?
    ensures e.Construction? ==> r.value == e.terms
  {
    if e.Construction? then Some(e.terms) else None
  }

  /** The construction's connective; null for an atom. */
  function GetTerminal(e: Expr): (r: Option<Terminal>)
    ensures r.Some? <==> e.Construction?
    ensures e.Construction? ==> r.value == e.terminal
  {
    if e.Construction? then Some(e.terminal) else None
  }

  function MaxOf(s: seq<nat>): (m: nat)
    ensures forall i :: 0 <= i < |s| ==> s[i] <= m
    ensures s == [] ==> m == 0
    ensures s != [] ==> exists i :: 0 <= i < |s| && s[i] == m
  {
    if s == [] then 0
    else
      var rest := MaxOf(s[1..]);
      assert forall i :: 1 <= i < |s| ==> s[i] == s[1..][i - 1];
      if s[0] >= rest then s[0] else rest
  }

  /** Depth: 0 for an atom, one more than the deepest term for a construction. */
  function Depth(e: Expr): (d: nat)
    ensures d == 0 <==> e.Atom?
  {
    match e
    case Atom(_, _) => 0
    case Construction(ts, _, _) =>
      1 + MaxOf(seq(|ts|, i requires 0 <= i < |ts| => Depth(ts[i])))
  }

  /** Number of elements: the terms of a construction, the atom itself for an atom. */
  function Size(e: Expr): (n: nat)
    ensures n == if e.Construction? then |e.terms| else 1
  {
    if e.Construction? then |e.terms| else 1
  }

  /**
   * The expression with `term` added in front, joined by `t`. A construction
   * keeps its other terms and its negation count; an atom becomes the second
   * term of a fresh two-term construction.
   */
  function AddToFront(e: Expr, term: Expr, t: Terminal): (r: Expr)
    ensures r.Construction? && r.terminal == t && |r.terms| >= 1 && r.terms[0] == term
    ensures r.terms[1..] == if e.Construction? then e.terms else [e]
    ensures Size(r) == (if e.Construction? then Size(e) else 1) + 1
  {
    if e.Construction? then Construction([term] + e.terms, t, e.negs)
    else Construction([term, e], t, 0)
  }

  /** The expression with `term` added at the back, joined by `t`. */
  function AddToBack(e: Expr, term: Expr, t: Terminal): (r: Expr)
    ensures r.Construction? && r.terminal == t && |r.terms| >= 1
    ensures r.terms[|r.terms| - 1] == term
    ensures r.terms[..|r.terms| - 1] == if e.Construction? then e.terms else [e]
    ensures Size(r) == (if e.Construction? then Size(e) else 1) + 1
  {
    if e.Construction? then Construction(e.terms + [term], t, e.negs)
    else Construction([e, term], t, 0)
  }

  /**
   * Well-formed expressions as the parser builds them: every construction has
   * at least two terms, implications and equivalences exactly two, and no
   * construction is joined by NOT.
   */
  ghost predicate WellFormed(e: Expr)
  {
    match e
    case Atom(_, _) => true
    case Construction(ts, t, _) =>
      && t != Not
      && |ts| >= 2
      && (t == Implication || t == Equivalence ==> |ts| == 2)
      && forall i :: 0 <= i < |ts| ==> WellFormed(ts[i])
  }

  // ---------------------------------------------------------------------
  // Meaning of a formula under a truth assignment to atom names.

  /** `b` seen through `k` negations. */
  function Polar(b: bool, k: nat): bool
  {
    if k % 2 == 0 then b else !b
  }

  /** The value of a construction's connective, before its own negations. */
  ghost function Base(e: Expr, v: string -> bool): bool
    requires e.Construction?
    decreases e, 0
  {
    var ts := e.terms;
    match e.terminal
    case And => forall i :: 0 <= i < |ts| ==> Eval(ts[i], v)
    case Or => exists i :: 0 <= i < |ts| && Eval(ts[i], v)
    case Implication => |ts| < 2 || !Eval(ts[0], v) || Eval(ts[1], v)
    case Equivalence => |ts| < 2 || Eval(ts[0], v) == Eval(ts[1], v)
    case Not => false
  }

  /** Truth value of `e` when each atom name `n` has the value `v(n)`. */
  ghost function Eval(e: Expr, v: string -> bool): bool
    decreases e, 1
  {
    match e
    case Atom(n, k) => Polar(v(n), k)
    case Construction(_, _, k) => Polar(Base(e, v), k)
  }

  /** Every term of `ts` holds. */
  ghost predicate AllHold(ts: seq<Expr>, v: string -> bool)
  {
    forall i :: 0 <= i < |ts| ==> Eval(ts[i], v)
  }

  /** Some term of `ts` holds. */
  ghost predicate SomeHolds(ts: seq<Expr>, v: string -> bool)
  {
    exists i :: 0 <= i < |ts| && Eval(ts[i], v)
  }
}
