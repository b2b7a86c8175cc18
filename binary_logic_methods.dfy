/**
 * The formula rewrites of the binary package (reasoning2 LogicMethods):
 * negation, the two-operand builders, double negation elimination, the
 * commutativity, associativity and distributivity rewrites, De Morgan, arrow
 * elimination, and the textual complement test.
 */
module BinaryLogicMethods {
  import opened Wrappers
  import opened Terminal
  import opened Text
  import opened BinaryExpression
  import LogicExpression
  import LogicMethods

  /** The atom the source uses for "true" when a disjunction meets its own negation. */
  const TRUE: Expr := Atom("T", 0)
  /** The atom the source uses for "false" when a conjunction meets its own negation. */
  const FALSE: Expr := Atom("FALSE", 0)

  // ---------------------------------------------------------------------
  // Builders

  /** One more negation in front of `e`; name, operands and connective are kept. */
  function Negate(e: Expr): (r: Expr)
    ensures r.negs == e.negs + 1 && Size(r) == Size(e)
    ensures GetType(r) == GetType(e) && GetName(r) == GetName(e)
    ensures GetLeft(r) == GetLeft(e) && GetRight(r) == GetRight(e) && GetTerminal(r) == GetTerminal(e)
  {
    match e
    case Atom(n, k) => Atom(n, k + 1)
    case Construction(l, t, r, k) => Construction(l, t, r, k + 1)
  }

  /**
   * `e1` and `e2` joined by `t` in a fresh un-negated construction (the
   * source's conj, disj, implies and equivalent); null for NOT.
   */
  function Combine(e1: Expr, e2: Expr, t: Terminal): (r: Option<Expr>)
    ensures r.None? <==> t == Not
    ensures r.Some? ==> r.value == Join3(e1, t, e2)
  {
    if t == Not then None else Some(Construction(e1, t, e2, 0))
  }

  /**
   * Double negation elimination: two negations fewer on an even count, an odd
   * count unchanged. The source turns a count of zero into -2, so a count of
   * zero is outside the model.
   */
  function Dne(e: Expr): (r: Expr)
    requires e.negs % 2 == 1 || e.negs >= 2
    ensures e.negs % 2 == 1 ==> r == e
    ensures e.negs % 2 == 0 ==> r.negs == e.negs - 2 && GetName(r) == GetName(e)
    ensures e.negs % 2 == 0 ==> GetLeft(r) == GetLeft(e) && GetRight(r) == GetRight(e) && GetTerminal(r) == GetTerminal(e)
  {
    if e.negs % 2 == 0 then
      match e
      case Atom(n, k) => Atom(n, k - 2)
      case Construction(l, t, r, k) => Construction(l, t, r, k - 2)
    else e
  }

  /** L & R becomes R & L; the node's own connective and negations are not consulted. */
  function CommConj(e: Expr): (r: Expr)
    requires e.Construction?
    ensures r == Join3(e.right, And, e.left)
  {
    Construction(e.right, And, e.left, 0)
  }

  /** L & (RL & RR) becomes (L & RL) & RR. */
  function AssocConj(e: Expr): (r: Expr)
    requires e.Construction? && e.right.Construction?
    ensures r == Join3(Join3(e.left, And, e.right.left), And, e.right.right)
  {
    Construction(Construction(e.left, And, e.right.left, 0), And, e.right.right, 0)
  }

  /** L & (RL | RR) becomes (L & RL) | (L & RR). */
  function DistConj(e: Expr): (r: Expr)
    requires e.Construction? && e.right.Construction?
    ensures r == Join3(Join3(e.left, And, e.right.left), Or, Join3(e.left, And, e.right.right))
  {
    Construction(Construction(e.left, And, e.right.left, 0), Or, Construction(e.left, And, e.right.right, 0), 0)
  }

  /** L | R becomes R | L. */
  function CommDisj(e: Expr): (r: Expr)
    requires e.Construction?
    ensures r == Join3(e.right, Or, e.left)
  {
    Construction(e.right, Or, e.left, 0)
  }

  /** L | (RL | RR) becomes (L | RL) | RR. */
  function AssocDisj(e: Expr): (r: Expr)
    requires e.Construction? && e.right.Construction?
    ensures r == Join3(Join3(e.left, Or, e.right.left), Or, e.right.right)
  {
    Construction(Construction(e.left, Or, e.right.left, 0), Or, e.right.right, 0)
  }

  /** (LL | LR) | R becomes LL | (LR | R). */
  function AssocDisjRev(e: Expr): (r: Expr)
    requires e.Construction? && e.left.Construction?
    ensures r == Join3(e.left.left, Or, Join3(e.left.right, Or, e.right))
  {
    Construction(e.left.left, Or, Construction(e.left.right, Or, e.right, 0), 0)
  }

  /**
   * L | (RL & RR) becomes (L | RL) & (L | RR). The right operand's own
   * connective is not consulted.
   */
  function DistDisj(e: Expr): (r: Expr)
    requires e.Construction? && e.right.Construction?
    ensures r == Join3(Join3(e.left, Or, e.right.left), And, Join3(e.left, Or, e.right.right))
  {
    Construction(Construction(e.left, Or, e.right.left, 0), And, Construction(e.left, Or, e.right.right, 0), 0)
  }

  /**
   * De Morgan's law: a conjunction becomes an un-negated disjunction of the
   * negated operands and vice versa; other connectives are returned unchanged.
   */
  function DeMorgans(e: Expr): (r: Expr)
    requires e.Construction?
    ensures e.terminal == And ==> r == Join3(Negate(e.left), Or, Negate(e.right))
    ensures e.terminal == Or ==> r == Join3(Negate(e.left), And, Negate(e.right))
    ensures e.terminal != And && e.terminal != Or ==> r == e
  {
    match e.terminal
    case And => Construction(Negate(e.left), Or, Negate(e.right), 0)
    case Or => Construction(Negate(e.left), And, Negate(e.right), 0)
    case _ => e
  }

  /** L -> R becomes -L | R, keeping the node's own negation count. */
  function RewriteImplication(e: Expr): (r: Expr)
    requires e.Construction?
    ensures r == Construction(Negate(e.left), Or, e.right, e.negs)
  {
    Construction(Negate(e.left), Or, e.right, e.negs)
  }

  /** L <-> R becomes (L -> R) & (R -> L), keeping the node's own negation count. */
  function RewriteEquivalence(e: Expr): (r: Expr)
    requires e.Construction?
    ensures r == Construction(Join3(e.left, Implication, e.right), And, Join3(e.right, Implication, e.left), e.negs)
  {
    Construction(Construction(e.left, Implication, e.right, 0), And, Construction(e.right, Implication, e.left, 0), e.negs)
  }

  // ---------------------------------------------------------------------
  // The complement test

  /** The source's isNegated: one rendering is "¬" followed by the other. */
  predicate IsNegated(e1: Expr, e2: Expr)
    ensures IsNegated(e1, e2) ==> e1 != e2
  {
    BinaryExpression.ToString(e1) == "¬" + BinaryExpression.ToString(e2) || BinaryExpression.ToString(e2) == "¬" + BinaryExpression.ToString(e1)
  }

  /** The same test over the intended rendering, where atoms are negated with "¬" too. */
  predicate IsNegatedCorrected(e1: Expr, e2: Expr)
  {
    ToStringCorrected(e1) == "¬" + ToStringCorrected(e2) || ToStringCorrected(e2) == "¬" + ToStringCorrected(e1)
  }

  /** A construction and its negation pass the source's test. */
  lemma NegatedConstructionIsNegated(e: Expr)
    requires e.Construction?
    ensures IsNegated(Negate(e), e)
  {
    ShowNegatedConstruction(e);
  }

  /**
   * Two atoms named as the parser names them never pass the source's test,
   * whatever their negation counts: an atom's rendering never starts with
   * the "¬" the test puts in front.
   */
  lemma AtomsNeverNegated(a: Expr, b: Expr)
    requires a.Atom? && b.Atom? && IsAtomName(a.name) && IsAtomName(b.name)
    ensures !IsNegated(a, b)
  {
    AtomRenderingStart(a);
    AtomRenderingStart(b);
    assert ("¬" + BinaryExpression.ToString(b))[0] == '¬';
    assert ("¬" + BinaryExpression.ToString(a))[0] == '¬';
  }

  /** Under the intended rendering every expression and its negation pass the test. */
  lemma NegatedIsNegatedCorrected(e: Expr)
    ensures IsNegatedCorrected(Negate(e), e)
  {
    ShowNegated(e);
  }

  /** Runs of "¬" in front of two strings that do not start with "¬" are equal only when they match in length and the strings match. */
  lemma {:induction false} MarksApart(i: nat, a: string, j: nat, b: string)
    requires |a| > 0 && a[0] != '¬' && |b| > 0 && b[0] != '¬'
    requires Repeat("¬", i) + a == Repeat("¬", j) + b
    ensures i == j && a == b
    decreases i + j
  {
    var x, y := Repeat("¬", i) + a, Repeat("¬", j) + b;
    if i == 0 && j == 0 {
      assert x == a && y == b;
    } else if i == 0 || j == 0 {
      // one side starts with "¬" and the other does not
      MarksFirst(i, a);
      MarksFirst(j, b);
      assert false;
    } else {
      assert x == "¬" + (Repeat("¬", i - 1) + a);
      assert y == "¬" + (Repeat("¬", j - 1) + b);
      assert x[1..] == Repeat("¬", i - 1) + a;
      assert y[1..] == Repeat("¬", j - 1) + b;
      MarksApart(i - 1, a, j - 1, b);
    }
  }

  /** The first character after `i` marks: "¬" when there is a mark, else the string's own first. */
  lemma MarksFirst(i: nat, a: string)
    requires |a| > 0
    ensures (Repeat("¬", i) + a)[0] == if i == 0 then a[0] else '¬'
  {
    if i > 0 {
      assert Repeat("¬", i) + a == "¬" + (Repeat("¬", i - 1) + a);
    }
  }

  /**
   * Under the intended rendering two atoms named as the parser names them
   * pass the test exactly when they share the name and their counts differ
   * by one.
   */
  lemma AtomsNegatedCorrected(a: string, i: nat, b: string, j: nat)
    requires IsAtomName(a) && IsAtomName(b)
    ensures IsNegatedCorrected(Atom(a, i), Atom(b, j)) <==> a == b && (i == j + 1 || j == i + 1)
  {
    ShowSucc(Atom(a, i), "¬");
    ShowSucc(Atom(b, j), "¬");
    if ToStringCorrected(Atom(a, i)) == "¬" + ToStringCorrected(Atom(b, j)) {
      MarksApart(i, a, j + 1, b);
    }
    if ToStringCorrected(Atom(b, j)) == "¬" + ToStringCorrected(Atom(a, i)) {
      MarksApart(j, b, i + 1, a);
    }
  }

  // ---------------------------------------------------------------------
  // Meaning of the builders

  /** Negation flips the value. */
  lemma NegateValue(e: Expr, v: string -> bool)
    ensures Eval(Negate(e), v) == !Eval(e, v)
  {
  }

  /** Combining keeps the meaning of the connective applied to both operands. */
  lemma CombineValue(e1: Expr, e2: Expr, t: Terminal, v: string -> bool)
    requires t != Not
    ensures Combine(e1, e2, t).Some?
    ensures Eval(Combine(e1, e2, t).value, v) == LogicMethods.Join(t, Eval(e1, v), Eval(e2, v))
  {
  }

  /** Double negation elimination keeps the value. */
  lemma DneValue(e: Expr, v: string -> bool)
    requires e.negs % 2 == 1 || e.negs >= 2
    ensures Eval(Dne(e), v) == Eval(e, v)
  {
    if e.negs % 2 == 0 {
      assert (e.negs - 2) % 2 == 0;
    }
  }

  /** An un-negated `t`-construction, as the rewrites expect their input. */
  predicate Plain(e: Expr, t: Terminal)
  {
    e.Construction? && e.terminal == t && e.negs == 0
  }

  /** Commutativity keeps the value of an un-negated conjunction or disjunction. */
  lemma CommValue(e: Expr, v: string -> bool)
    requires e.Construction? && e.negs == 0
    ensures e.terminal == And ==> Eval(CommConj(e), v) == Eval(e, v)
    ensures e.terminal == Or ==> Eval(CommDisj(e), v) == Eval(e, v)
  {
  }

  /** Associativity keeps the value when both nodes are un-negated and share the connective. */
  lemma AssocValue(e: Expr, v: string -> bool)
    requires e.Construction? && e.right.Construction?
    ensures Plain(e, And) && Plain(e.right, And) ==> Eval(AssocConj(e), v) == Eval(e, v)
    ensures Plain(e, Or) && Plain(e.right, Or) ==> Eval(AssocDisj(e), v) == Eval(e, v)
  {
  }

  /** Reverse associativity keeps the value of (LL | LR) | R. */
  lemma AssocDisjRevValue(e: Expr, v: string -> bool)
    requires Plain(e, Or) && Plain(e.left, Or)
    ensures Eval(AssocDisjRev(e), v) == Eval(e, v)
  {
  }

  /** Distributivity keeps the value when the right operand has the other connective. */
  lemma DistValue(e: Expr, v: string -> bool)
    requires e.Construction? && e.right.Construction?
    ensures Plain(e, And) && Plain(e.right, Or) ==> Eval(DistConj(e), v) == Eval(e, v)
    ensures Plain(e, Or) && Plain(e.right, And) ==> Eval(DistDisj(e), v) == Eval(e, v)
  {
  }

  /** On a once-negated conjunction or disjunction De Morgan's law keeps the value. */
  lemma DeMorgansValue(e: Expr, v: string -> bool)
    requires e.Construction? && e.negs == 1 && (e.terminal == And || e.terminal == Or)
    ensures Eval(DeMorgans(e), v) == Eval(e, v)
  {
    NegateValue(e.left, v);
    NegateValue(e.right, v);
  }

  /** Arrow elimination keeps the value of an implication. */
  lemma ImplicationValue(e: Expr, v: string -> bool)
    requires e.Construction? && e.terminal == Implication
    ensures Eval(RewriteImplication(e), v) == Eval(e, v)
  {
    NegateValue(e.left, v);
  }

  /** Arrow elimination keeps the value of an equivalence. */
  lemma EquivalenceValue(e: Expr, v: string -> bool)
    requires e.Construction? && e.terminal == Equivalence
    ensures Eval(RewriteEquivalence(e), v) == Eval(e, v)
  {
  }
}
