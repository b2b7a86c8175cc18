/**
 * The binary formula of the `reasoning2` package: an atom with a name, or a
 * construction joining a left and a right operand by one connective; both
 * carry a count of the negations written in front of them.
 */
module BinaryExpression {
  import opened Wrappers
  import opened Terminal
  import opened Text
  import BinaryTerminal
  import LogicExpression
  import LogicMethods

  datatype ExpressionType = AtomType | ConstructionType

  datatype Expr =
    | Atom(name: string, negs: nat)
    | Construction(left: Expr, terminal: Terminal, right: Expr, negs: nat)

  function GetType(e: Expr): (r: ExpressionType)
    ensures r == AtomType <==> e.Atom?
  {
    if e.Atom? then AtomType else ConstructionType
  }

  /** The atom's name; null for a construction. */
  function GetName(e: Expr): (r: Option<string>)
    ensures r.Some? <==> e.Atom?
    ensures e.Atom? ==> r.value == e.name
  {
    if e.Atom? then Some(e.name) else None
  }

  /** The construction's left operand; null for an atom. */
  function GetLeft(e: Expr): (r: Option<Expr>)
    ensures r.Some? <==> e.Construction?
    ensures e.Construction? ==> r.value == e.left
  {
    if e.Construction? then Some(e.left) else None
  }

  /** The construction's right operand; null for an atom. */
  function GetRight(e: Expr): (r: Option<Expr>)
    ensures r.Some? <==> e.Construction?
    ensures e.Construction? ==> r.value == e.right
  {
    if e.Construction? then Some(e.right) else None
  }

  /** The construction's connective; null for an atom. */
  function GetTerminal(e: Expr): (r: Option<Terminal>)
    ensures r.Some? <==> e.Construction?
    ensures e.Construction? ==> r.value == e.terminal
  {
    if e.Construction? then Some(e.terminal) else None
  }

  /** The three-operand constructor: a construction with no negation. */
  function Join3(left: Expr, t: Terminal, right: Expr): (r: Expr)
    ensures r.Construction? && r.negs == 0
    ensures GetLeft(r) == Some(left) && GetRight(r) == Some(right) && GetTerminal(r) == Some(t)
  {
    Construction(left, t, right, 0)
  }

  /** The one-argument atom constructor: an atom with no negation. */
  function NewAtom(name: string): (r: Expr)
    ensures GetType(r) == AtomType && GetName(r) == Some(name) && r.negs == 0
  {
    Atom(name, 0)
  }

  /** Number of nodes, negations not counted. */
  function Size(e: Expr): (n: nat)
    ensures n >= 1
  {
    match e
    case Atom(_, _) => 1
    case Construction(l, _, r, _) => 1 + Size(l) + Size(r)
  }

  // ---------------------------------------------------------------------
  // Depth

  /** A child's depth as its parent joined by `t` counts it: one less under the same connective. */
  function ChildDepth(c: Expr, t: Terminal): (d: nat)
    decreases c, 1
  {
    if c.Construction? && c.terminal == t then Depth(c) - 1 else Depth(c)
  }

  /**
   * Depth: 0 for an atom; for a construction one more than the deeper
   * operand, where an operand joined by the same connective counts one less.
   */
  function Depth(e: Expr): (d: nat)
    ensures d == 0 <==> e.Atom?
    decreases e, 0
  {
    match e
    case Atom(_, _) => 0
    case Construction(l, t, r, _) =>
      var ld, rd := ChildDepth(l, t), ChildDepth(r, t);
      1 + if ld >= rd then ld else rd
  }

  /** Every construction inside `e` is joined by `t`; negations do not matter. */
  predicate Flat(e: Expr, t: Terminal)
  {
    e.Atom? || (e.terminal == t && Flat(e.left, t) && Flat(e.right, t))
  }

  /**
   * Depth 1 means exactly one connective, however often it is used:
   * (A | B) | C has depth 1, while A | (B & C) does not.
   */
  lemma {:induction false} DepthOne(e: Expr)
    requires e.Construction?
    ensures Depth(e) == 1 <==> Flat(e, e.terminal)
  {
    var t := e.terminal;
    if e.left.Construction? && e.left.terminal == t {
      DepthOne(e.left);
    }
    if e.right.Construction? && e.right.terminal == t {
      DepthOne(e.right);
    }
  }

  // ---------------------------------------------------------------------
  // Equality and hash codes

  /**
   * The source's equals: atoms are equal when negation count and name are;
   * constructions when negation counts, both operands and the connective are.
   */
  function Equals(a: Expr, b: Expr): (r: bool)
    ensures r <==> a == b
    decreases Size(a) + Size(b)
  {
    match a
    case Atom(n, k) => b.Atom? && b.negs == k && b.name == n
    case Construction(l, t, rt, k) =>
      b.Construction? && b.negs == k && Equals(b.left, l) && Equals(b.right, rt) && b.terminal == t
  }

  /** The value of `x` as a 32-bit two's-complement int. */
  function Wrap(x: int): (r: int)
    ensures -0x8000_0000 <= r < 0x8000_0000
    ensures (r - x) % 0x1_0000_0000 == 0
  {
    (x + 0x8000_0000) % 0x1_0000_0000 - 0x8000_0000
  }

  /** Java's String.hashCode: s[0]*31^(n-1) + ... + s[n-1], in 32-bit arithmetic. */
  function StringHash(s: string): int
  {
    if s == [] then 0 else Wrap(31 * StringHash(s[..|s| - 1]) + s[|s| - 1] as int)
  }

  /**
   * hashCode: negations plus the name's hash for an atom; negations plus
   * both operands' hashes plus the connective's for a construction. The
   * connective's hash is the enum constant's identity hash, which the
   * source does not fix, so it is a parameter.
   */
  function Hash(e: Expr, opHash: Terminal -> int): (h: int)
    ensures -0x8000_0000 <= h < 0x8000_0000
  {
    match e
    case Atom(n, k) => Wrap(k + StringHash(n))
    case Construction(l, t, r, k) => Wrap(k + Hash(l, opHash) + Hash(r, opHash) + opHash(t))
  }

  /** Equal expressions have equal hash codes. */
  lemma HashAgreesWithEquals(a: Expr, b: Expr, opHash: Terminal -> int)
    requires Equals(a, b)
    ensures Hash(a, opHash) == Hash(b, opHash)
  {
  }

  lemma WrapCongruent(x: int, y: int)
    requires (x - y) % 0x1_0000_0000 == 0
    ensures Wrap(x) == Wrap(y)
  {
    var m := 0x1_0000_0000;
    var q := (x - y) / m;
    assert x - y == q * m;
    assert x + 0x8000_0000 == (y + 0x8000_0000) + q * m;
  }

  /** Swapping the operands keeps the hash code: the sum does not see the order. */
  lemma HashSwap(l: Expr, t: Terminal, r: Expr, k: nat, opHash: Terminal -> int)
    ensures Hash(Construction(l, t, r, k), opHash) == Hash(Construction(r, t, l, k), opHash)
  {
  }

  /** One more negation adds one to the hash code, wrapping at 2^31. */
  lemma HashNegated(e: Expr, opHash: Terminal -> int)
    ensures Hash(e.(negs := e.negs + 1), opHash) == Wrap(Hash(e, opHash) + 1)
  {
    match e
    case Atom(n, k) =>
      WrapCongruent(k + 1 + StringHash(n), Wrap(k + StringHash(n)) + 1);
    case Construction(l, t, r, k) =>
      var x := k + Hash(l, opHash) + Hash(r, opHash) + opHash(t);
      WrapCongruent(x + 1, Wrap(x) + 1);
  }

  // ---------------------------------------------------------------------
  // Rendering

  /** The prefix an atom's toString writes per negation: two characters, unlike a construction's "¬". */
  const AtomMark: string := "Â¬"

  /** What is written once per negation: `mark` for an atom, "¬" for a construction. */
  function Mark(e: Expr, mark: string): string
  {
    if e.Atom? then mark else "¬"
  }

  /** What follows the negations: an atom's name, or "(left op right)". */
  function Body(e: Expr, mark: string): (s: string)
    ensures e.Construction? ==> |s| > 0 && s[0] == '(' && s[|s| - 1] == ')'
    ensures e.Atom? ==> s == e.name
    decreases e, 0
  {
    match e
    case Atom(n, _) => n
    case Construction(l, t, r, _) =>
      "(" + Show(l, mark) + " " + BinaryTerminal.ToString(t) + " " + Show(r, mark) + ")"
  }

  /** An expression written out: its mark once per negation, then its body. */
  function Show(e: Expr, mark: string): (s: string)
    decreases e, 1
  {
    Repeat(Mark(e, mark), e.negs) + Body(e, mark)
  }

  /** The source's toString: atoms are negated with the two-character "Â¬", constructions with "¬". */
  function ToString(e: Expr): (s: string)
    ensures e.Atom? && e.negs == 0 ==> s == e.name
    ensures e.negs > 0 ==> s == Mark(e, AtomMark) + Show(e.(negs := e.negs - 1), AtomMark)
  {
    if e.negs > 0 then
      var e' := e.(negs := e.negs - 1);
      ShowSucc(e', AtomMark);
      assert e'.(negs := e'.negs + 1) == e;
      Show(e, AtomMark)
    else
      Show(e, AtomMark)
  }

  /** The rendering the source evidently intends: every negation written "¬". */
  function ToStringCorrected(e: Expr): string
  {
    Show(e, "¬")
  }

  /** One more negation writes one more mark in front. */
  lemma ShowSucc(e: Expr, mark: string)
    ensures Show(e.(negs := e.negs + 1), mark) == Mark(e, mark) + Show(e, mark)
  {
    var e' := e.(negs := e.negs + 1);
    var m, b := Mark(e, mark), Body(e, mark);
    assert Mark(e', mark) == m && Body(e', mark) == b;
    assert Repeat(m, e.negs + 1) == m + Repeat(m, e.negs);
    assert (m + Repeat(m, e.negs)) + b == m + (Repeat(m, e.negs) + b);
  }

  /** Under the intended rendering, one more negation writes one more "¬" in front. */
  lemma ShowNegated(e: Expr)
    ensures ToStringCorrected(e.(negs := e.negs + 1)) == "¬" + ToStringCorrected(e)
  {
    ShowSucc(e, "¬");
  }

  /** As written, one more negation of a construction writes one more "¬" in front. */
  lemma ShowNegatedConstruction(e: Expr)
    requires e.Construction?
    ensures ToString(e.(negs := e.negs + 1)) == "¬" + ToString(e)
  {
    ShowSucc(e, AtomMark);
  }

  /** As written, a negated atom's rendering starts with 'Â', and an atom name starts with a capital. */
  lemma AtomRenderingStart(e: Expr)
    requires e.Atom? && IsAtomName(e.name)
    ensures |ToString(e)| > 0 && ToString(e)[0] != '¬'
  {
    if e.negs > 0 {
      ShowSucc(Atom(e.name, e.negs - 1), AtomMark);
    }
  }

  // ---------------------------------------------------------------------
  // Meaning

  /** Truth value of `e` when each atom name `n` has the value `v(n)`. */
  function Eval(e: Expr, v: string -> bool): bool
  {
    match e
    case Atom(n, k) => LogicExpression.Polar(v(n), k)
    case Construction(l, t, r, k) => LogicExpression.Polar(LogicMethods.Join(t, Eval(l, v), Eval(r, v)), k)
  }

  /** No construction is joined by NOT, as the parser builds them. */
  predicate Proper(e: Expr)
  {
    match e
    case Atom(_, _) => true
    case Construction(l, t, r, _) => t != Not && Proper(l) && Proper(r)
  }

  /** No implication or equivalence anywhere in `e`. */
  predicate ArrowFree(e: Expr)
  {
    match e
    case Atom(_, _) => true
    case Construction(l, t, r, _) => t != Implication && t != Equivalence && ArrowFree(l) && ArrowFree(r)
  }

  /** Every atom name in `e` is a run of capitals followed by digits, as the parser reads them. */
  predicate WellNamed(e: Expr)
  {
    match e
    case Atom(n, _) => IsAtomName(n)
    case Construction(l, _, r, _) => WellNamed(l) && WellNamed(r)
  }

  /** Every negation count in `e` is at most `n`. */
  predicate CountsAtMost(e: Expr, n: nat)
  {
    e.negs <= n && (e.Construction? ==> CountsAtMost(e.left, n) && CountsAtMost(e.right, n))
  }

  /**
   * Negation normal form: only conjunctions and disjunctions, none of them
   * negated, and atoms negated at most once.
   */
  predicate Nnf(e: Expr)
    ensures Nnf(e) ==> Proper(e)
  {
    match e
    case Atom(_, k) => k <= 1
    case Construction(l, t, r, k) => (t == And || t == Or) && k == 0 && Nnf(l) && Nnf(r)
  }
}
