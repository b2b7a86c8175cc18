/**
 * The staged conversion of the binary package (reasoning2 LogicMethods.transform):
 * arrows are resolved, De Morgan's law pushes negations onto the atoms, the
 * disjunctions are distributed, three simplification passes run, and the
 * rendering of the result is scanned into clauses.
 */
module BinaryNormalForm {
  import opened Wrappers
  import opened Terminal
  import opened BinaryExpression
  import opened BinaryLogicMethods
  import LogicExpression
  import LogicMethods

  // ---------------------------------------------------------------------
  // Double negation elimination as the stages apply it

  /**
   * The count `dne` leaves when applied while the count is at least 2: an
   * even count drops to 0, a count below 2 stays; an odd count from 3 up is
   * never changed by `dne`, so the loop never ends (None).
   */
  function Settled(k: nat): (r: Option<nat>)
    ensures r.Some? ==> r.value <= 1 && r.value % 2 == k % 2
    ensures r.None? <==> k >= 3 && k % 2 == 1
  {
    if k < 2 then Some(k) else if k % 2 == 0 then Some(0) else None
  }

  /** `e` with its own negation count replaced by `k`. */
  function WithNegs(e: Expr, k: nat): (r: Expr)
    ensures r.negs == k && Size(r) == Size(e) && r.Atom? == e.Atom?
    ensures r.Atom? ==> r.name == e.name
    ensures r.Construction? ==> r.left == e.left && r.terminal == e.terminal && r.right == e.right
  {
    match e
    case Atom(n, _) => Atom(n, k)
    case Construction(l, t, r, _) => Construction(l, t, r, k)
  }

  /** Settling the count keeps the value. */
  lemma SettledValue(e: Expr, v: string -> bool)
    requires Settled(e.negs).Some?
    ensures Eval(WithNegs(e, Settled(e.negs).value), v) == Eval(e, v)
  {
  }

  /** How much an arrow weighs in the measure that shows resolveArrows ends: an equivalence is rewritten into two implications. */
  function Weight(e: Expr): (w: nat)
    ensures w >= 1
  {
    match e
    case Atom(_, _) => 1
    case Construction(l, t, r, _) => Weight(l) + Weight(r) + if t == Equivalence then 2 else 1
  }

  lemma ProperNegs(e: Expr, k: nat)
    ensures Proper(WithNegs(e, k)) == Proper(e)
  {
  }

  lemma WeightNegs(e: Expr, k: nat)
    ensures Weight(WithNegs(e, k)) == Weight(e) && Weight(Negate(e)) == Weight(e)
  {
  }

  // ---------------------------------------------------------------------
  // resolveArrows

  /** The arrow rewrite of one node: an implication to a disjunction, an equivalence to a conjunction of two implications. */
  function Unarrow(d: Expr): (r: Expr)
    requires d.Construction?
    ensures d.terminal == Implication ==> r == Construction(Negate(d.left), Or, d.right, d.negs)
    ensures d.terminal == Equivalence ==> r == Construction(Join3(d.left, Implication, d.right), And, Join3(d.right, Implication, d.left), d.negs)
    ensures d.terminal != Implication && d.terminal != Equivalence ==> r == d
  {
    var d1 := if d.terminal == Implication then RewriteImplication(d) else d;
    if d1.terminal == Equivalence then RewriteEquivalence(d1) else d1
  }

  /** The arrow rewrite keeps the value. */
  lemma UnarrowValue(d: Expr, v: string -> bool)
    requires d.Construction?
    ensures Eval(Unarrow(d), v) == Eval(d, v)
  {
    if d.terminal == Implication {
      ImplicationValue(d, v);
    } else if d.terminal == Equivalence {
      EquivalenceValue(d, v);
    }
  }

  /**
   * What resolveArrows computes: the count is settled, the node's arrow is
   * rewritten, and both operands of the result are resolved in turn, left
   * first.
   */
  function Resolved(e: Expr): (r: Run<Expr>)
    decreases Weight(e)
  {
    match Settled(e.negs)
    case None => Diverges
    case Some(k) =>
      var d := WithNegs(e, k);
      if d.Atom? then Halts(d)
      else
        var d2 := Unarrow(d);
        WeightNegs(d.left, k);
        match Resolved(d2.left)
        case Diverges => Diverges
        case Halts(l) =>
          match Resolved(d2.right)
          case Diverges => Diverges
          case Halts(r) => Halts(Construction(l, d2.terminal, r, d2.negs))
  }

  /**
   * Resolves the implications and equivalences of `e`. The source's loop
   * `while (negations >= 2) exp = dne(exp)` never ends on an odd count of 3
   * or more, since dne returns it unchanged; the model reports that as
   * divergence.
   */
  method ResolveArrows(e: Expr) returns (r: Run<Expr>)
    ensures r == Resolved(e)
    decreases Weight(e)
  {
    var exp := e;
    while exp.negs >= 2
      invariant exp == WithNegs(e, exp.negs) && exp.negs % 2 == e.negs % 2
      invariant exp.negs < 2 ==> Settled(e.negs) == Some(exp.negs)
      decreases exp.negs
    {
      if exp.negs % 2 == 1 {
        // dne leaves an odd count unchanged: the loop repeats forever
        return Diverges;
      }
      exp := Dne(exp);
    }
    if exp.Atom? {
      return Halts(exp);
    }
    if exp.terminal == Implication {
      exp := RewriteImplication(exp);
    }
    if exp.terminal == Equivalence {
      exp := RewriteEquivalence(exp);
    }
    assert exp == Unarrow(WithNegs(e, Settled(e.negs).value));
    WeightNegs(e.left, exp.negs);
    var left := ResolveArrows(exp.left);
    if left.Diverges? {
      return Diverges;
    }
    var right := ResolveArrows(exp.right);
    if right.Diverges? {
      return Diverges;
    }
    return Halts(Construction(left.value, exp.terminal, right.value, exp.negs));
  }

  /** Resolving arrows keeps the value. */
  lemma {:induction false} ResolvedValue(e: Expr, v: string -> bool)
    requires Resolved(e).Halts?
    ensures Eval(Resolved(e).value, v) == Eval(e, v)
    decreases Weight(e)
  {
    var k := Settled(e.negs).value;
    var d := WithNegs(e, k);
    SettledValue(e, v);
    if d.Construction? {
      var d2 := Unarrow(d);
      UnarrowValue(d, v);
      WeightNegs(d.left, k);
      ResolvedValue(d2.left, v);
      ResolvedValue(d2.right, v);
    }
  }

  /** The output has no arrow, no count above 1, and no NOT-joined node unless the input had one. */
  lemma {:induction false} ResolvedShape(e: Expr)
    requires Resolved(e).Halts?
    ensures ArrowFree(Resolved(e).value) && CountsAtMost(Resolved(e).value, 1)
    ensures Proper(e) ==> Proper(Resolved(e).value)
    decreases Weight(e)
  {
    var k := Settled(e.negs).value;
    var d := WithNegs(e, k);
    if d.Construction? {
      var d2 := Unarrow(d);
      ProperNegs(d.left, d.left.negs + 1);
      assert WithNegs(d.left, d.left.negs + 1) == Negate(d.left);
      assert Proper(e) ==> Proper(d2.left) && Proper(d2.right);
      WeightNegs(d.left, k);
      ResolvedShape(d2.left);
      ResolvedShape(d2.right);
    }
  }

  /** Resolving arrows keeps the atom names. */
  lemma {:induction false} ResolvedNames(e: Expr)
    requires Resolved(e).Halts? && WellNamed(e)
    ensures WellNamed(Resolved(e).value)
    decreases Weight(e)
  {
    var k := Settled(e.negs).value;
    var d := WithNegs(e, k);
    if d.Construction? {
      var d2 := Unarrow(d);
      NamesNegs(d.left, d.left.negs + 1);
      assert WithNegs(d.left, d.left.negs + 1) == Negate(d.left);
      WeightNegs(d.left, k);
      ResolvedNames(d2.left);
      ResolvedNames(d2.right);
    }
  }

  lemma NamesNegs(e: Expr, k: nat)
    ensures WellNamed(WithNegs(e, k)) == WellNamed(e)
  {
  }

  /**
   * resolveArrows ends on `e` with `x` extra negations exactly when no node
   * it visits settles to an odd count of 3 or more: the node itself, the
   * operands of an ordinary node, the negated left operand and the right
   * operand of an implication, and both operands of an equivalence, plain and
   * negated (the two implications it becomes).
   */
  predicate TameAt(e: Expr, x: nat)
  {
    Settled(e.negs + x).Some? &&
    (e.Construction? ==>
      match e.terminal
      case Implication => TameAt(e.left, 1) && TameAt(e.right, 0)
      case Equivalence => TameAt(e.left, 0) && TameAt(e.right, 0) && TameAt(e.left, 1) && TameAt(e.right, 1)
      case _ => TameAt(e.left, 0) && TameAt(e.right, 0))
  }

  /** A settled construction is resolved exactly when both operands of its rewrite are. */
  lemma ResolvedSplit(e: Expr)
    requires Settled(e.negs).Some? && e.Construction?
    ensures var d2 := Unarrow(WithNegs(e, Settled(e.negs).value));
      Resolved(e).Halts? <==> Resolved(d2.left).Halts? && Resolved(d2.right).Halts?
  {
  }

  /** resolveArrows ends exactly on the tame expressions. */
  lemma {:induction false} ResolvedHalts(e: Expr, x: nat)
    ensures Resolved(WithNegs(e, e.negs + x)).Halts? <==> TameAt(e, x)
    decreases Weight(e), 1
  {
    var b := WithNegs(e, e.negs + x);
    if Settled(b.negs).Some? && e.Construction? {
      ResolvedSplit(b);
      if e.terminal == Implication {
        ImplicationHalts(e);
      } else if e.terminal == Equivalence {
        EquivalenceHalts(e);
      } else {
        PlainHalts(e);
      }
    }
  }

  /** An implication's rewrite is resolved exactly when its negated left operand and its right operand are tame. */
  lemma {:induction false} ImplicationHalts(e: Expr)
    requires e.Construction? && e.terminal == Implication
    ensures Resolved(Negate(e.left)).Halts? <==> TameAt(e.left, 1)
    ensures Resolved(e.right).Halts? <==> TameAt(e.right, 0)
    decreases Weight(e), 0
  {
    var l, r := e.left, e.right;
    assert WithNegs(l, l.negs + 1) == Negate(l) && WithNegs(r, r.negs) == r;
    ResolvedHalts(l, 1);
    ResolvedHalts(r, 0);
  }

  /** Any other node is resolved exactly when both operands are tame. */
  lemma {:induction false} PlainHalts(e: Expr)
    requires e.Construction?
    ensures Resolved(e.left).Halts? <==> TameAt(e.left, 0)
    ensures Resolved(e.right).Halts? <==> TameAt(e.right, 0)
    decreases Weight(e), 0
  {
    var l, r := e.left, e.right;
    assert WithNegs(l, l.negs) == l && WithNegs(r, r.negs) == r;
    ResolvedHalts(l, 0);
    ResolvedHalts(r, 0);
  }

  /** The two implications an equivalence becomes are resolved exactly when its operands are tame plain and negated. */
  lemma {:induction false} EquivalenceHalts(e: Expr)
    requires e.Construction? && e.terminal == Equivalence
    ensures Resolved(Join3(e.left, Implication, e.right)).Halts? <==> TameAt(e.left, 1) && TameAt(e.right, 0)
    ensures Resolved(Join3(e.right, Implication, e.left)).Halts? <==> TameAt(e.right, 1) && TameAt(e.left, 0)
    decreases Weight(e), 0
  {
    var l, r := e.left, e.right;
    var i1, i2 := Join3(l, Implication, r), Join3(r, Implication, l);
    assert WithNegs(l, l.negs) == l && WithNegs(r, r.negs) == r;
    assert WithNegs(l, l.negs + 1) == Negate(l) && WithNegs(r, r.negs + 1) == Negate(r);
    ResolvedHalts(l, 0);
    ResolvedHalts(r, 0);
    ResolvedHalts(l, 1);
    ResolvedHalts(r, 1);
    ResolvedSplit(i1);
    ResolvedSplit(i2);
  }

  /** Three negations in front of an atom make resolveArrows loop forever. */
  lemma TripleNegationDiverges(n: string)
    ensures Resolved(Atom(n, 3)) == Diverges
  {
  }

  /**
   * A twice-negated left operand of an implication loops too: the rewrite
   * negates it a third time.
   */
  lemma NegatedPremiseDiverges(a: string, b: string)
    ensures Resolved(Construction(Atom(a, 2), Implication, Atom(b, 0), 0)) == Diverges
  {
    assert Resolved(Negate(Atom(a, 2))) == Diverges;
  }

  // ---------------------------------------------------------------------
  // performDeMorgans

  /**
   * What performDeMorgans computes: the count is settled, a node negated
   * once is rewritten by De Morgan's law, and both operands of the result
   * are processed in turn, left first.
   */
  function DeMorganed(e: Expr): (r: Run<Expr>)
    decreases Size(e)
  {
    match Settled(e.negs)
    case None => Diverges
    case Some(k) =>
      var d := WithNegs(e, k);
      if d.Atom? then Halts(d)
      else
        var d1 := if k == 1 then DeMorgans(d) else d;
        match DeMorganed(d1.left)
        case Diverges => Diverges
        case Halts(l) =>
          match DeMorganed(d1.right)
          case Diverges => Diverges
          case Halts(r) => Halts(Construction(l, d1.terminal, r, d1.negs))
  }

  /**
   * Pushes the negations of `e` inwards by De Morgan's law. As in
   * resolveArrows, the source's dne loop never ends on an odd count of 3 or
   * more, which the model reports as divergence.
   */
  method PerformDeMorgans(e: Expr) returns (r: Run<Expr>)
    ensures r == DeMorganed(e)
    decreases Size(e)
  {
    var exp := e;
    while exp.negs >= 2
      invariant exp == WithNegs(e, exp.negs) && exp.negs % 2 == e.negs % 2
      invariant exp.negs < 2 ==> Settled(e.negs) == Some(exp.negs)
      decreases exp.negs
    {
      if exp.negs % 2 == 1 {
        // dne leaves an odd count unchanged: the loop repeats forever
        return Diverges;
      }
      exp := Dne(exp);
    }
    if exp.Atom? {
      return Halts(exp);
    }
    if exp.negs == 1 {
      exp := DeMorgans(exp);
    }
    var left := PerformDeMorgans(exp.left);
    if left.Diverges? {
      return Diverges;
    }
    var right := PerformDeMorgans(exp.right);
    if right.Diverges? {
      return Diverges;
    }
    return Halts(Construction(left.value, exp.terminal, right.value, exp.negs));
  }

  /** performDeMorgans keeps the value. */
  lemma {:induction false} DeMorganedValue(e: Expr, v: string -> bool)
    requires DeMorganed(e).Halts?
    ensures Eval(DeMorganed(e).value, v) == Eval(e, v)
    decreases Size(e)
  {
    var k := Settled(e.negs).value;
    var d := WithNegs(e, k);
    SettledValue(e, v);
    if d.Construction? {
      var d1 := if k == 1 then DeMorgans(d) else d;
      if k == 1 && (d.terminal == And || d.terminal == Or) {
        DeMorgansValue(d, v);
      }
      DeMorganedValue(d1.left, v);
      DeMorganedValue(d1.right, v);
    }
  }

  /** On arrow-free input without NOT-joined nodes, the result is in negation normal form. */
  lemma {:induction false} DeMorganedNnf(e: Expr)
    requires DeMorganed(e).Halts? && ArrowFree(e) && Proper(e)
    ensures Nnf(DeMorganed(e).value)
    decreases Size(e)
  {
    var k := Settled(e.negs).value;
    var d := WithNegs(e, k);
    if d.Construction? {
      var d1 := if k == 1 then DeMorgans(d) else d;
      NegateShape(d.left);
      NegateShape(d.right);
      DeMorganedNnf(d1.left);
      DeMorganedNnf(d1.right);
    }
  }

  /** performDeMorgans keeps the atom names. */
  lemma {:induction false} DeMorganedNames(e: Expr)
    requires DeMorganed(e).Halts? && WellNamed(e)
    ensures WellNamed(DeMorganed(e).value)
    decreases Size(e)
  {
    var k := Settled(e.negs).value;
    var d := WithNegs(e, k);
    if d.Construction? {
      var d1 := if k == 1 then DeMorgans(d) else d;
      NamesNegs(d.left, d.left.negs + 1);
      NamesNegs(d.right, d.right.negs + 1);
      assert WithNegs(d.left, d.left.negs + 1) == Negate(d.left);
      assert WithNegs(d.right, d.right.negs + 1) == Negate(d.right);
      DeMorganedNames(d1.left);
      DeMorganedNames(d1.right);
    }
  }

  lemma NegateShape(e: Expr)
    ensures ArrowFree(Negate(e)) == ArrowFree(e) && Proper(Negate(e)) == Proper(e)
  {
  }

  /**
   * performDeMorgans ends on every expression, and on its negation, whose
   * counts are all at most 1, which is what resolveArrows produces.
   */
  lemma {:induction false} DeMorganedHalts(e: Expr)
    requires CountsAtMost(e, 1)
    ensures DeMorganed(e).Halts? && DeMorganed(Negate(e)).Halts?
    decreases Size(e)
  {
    if e.Construction? {
      DeMorganedHalts(e.left);
      DeMorganedHalts(e.right);
    }
  }

  /** Three negations in front of an atom make performDeMorgans loop forever too. */
  lemma DeMorganTripleNegationDiverges(n: string)
    ensures DeMorganed(Atom(n, 3)) == Diverges
  {
  }
}
