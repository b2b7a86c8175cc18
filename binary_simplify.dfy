/**
 * The middle stages of the binary package's conversion (reasoning2
 * LogicMethods): shuffleExpression distributes disjunctions over
 * conjunctions, and simplifyDisj, simplifyConj and simplifyFalsehoods remove
 * repeated, complementary and constant operands, comparing operands by their
 * renderings.
 */
module BinarySimplify {
  import opened Wrappers
  import opened Terminal
  import opened BinaryExpression
  import opened BinaryLogicMethods
  import opened BinaryRendering
  import LogicExpression
  import LogicMethods

  // ---------------------------------------------------------------------
  // shuffleExpression

  /**
   * The source's shuffleExpression. Depth 1 and atoms are kept; a
   * disjunction with a construction on the left and an atom on the right is
   * commuted first; then, unless the depth has become 1, both operands are
   * shuffled and distDisj is applied to their disjunction, whatever the
   * right operand's connective; a conjunction has both operands shuffled;
   * any other connective gives null. The source prints every rebuilt
   * disjunction and conjunction unconditionally, and rendering one whose
   * shuffled operand is null throws, so a null below the top is a
   * NullPointer and only the top node can give null.
   */
  function Shuffle(e: Expr): (r: Result<Option<Expr>>)
    ensures r.Err? ==> r.fault == NullPointer
    ensures r == Ok(None) ==> e.Construction? && Depth(e) != 1 && e.terminal != And && e.terminal != Or
    ensures r.Ok? && r.value.Some? && e.Construction? ==> r.value.value.Construction?
    decreases Size(e)
  {
    if Depth(e) == 1 || e.Atom? then Ok(Some(e))
    else if e.terminal == Or then
      var d := if e.right.Atom? && e.left.Construction? then CommDisj(e) else e;
      if Depth(d) != 1 then
        match Shuffle(d.left)
        case Err(f) => Err(f)
        case Ok(l) =>
          match Shuffle(d.right)
          case Err(f) => Err(f)
          case Ok(r) =>
            if l.None? || r.None? then Err(NullPointer)
            else
              OperandsBelowDepthOne(d);
              Ok(Some(DistDisj(Join3(l.value, Or, r.value))))
      else Ok(Some(d))
    else if e.terminal == And then
      match Shuffle(e.left)
      case Err(f) => Err(f)
      case Ok(l) =>
        match Shuffle(e.right)
        case Err(f) => Err(f)
        case Ok(r) =>
          if l.None? || r.None? then Err(NullPointer)
          else Ok(Some(Join3(l.value, And, r.value)))
    else Ok(None)
  }

  /**
   * An arrow below a conjunction shuffles to null, and printing the rebuilt
   * conjunction throws: ((A & B) -> C) & D. The arrow alone gives null.
   */
  lemma NullOperandThrows()
    ensures var arrow := Join3(Join3(NewAtom("A"), And, NewAtom("B")), Implication, NewAtom("C"));
      Shuffle(arrow) == Ok(None) && Shuffle(Join3(arrow, And, NewAtom("D"))) == Err(NullPointer)
  {
    var ab := Join3(NewAtom("A"), And, NewAtom("B"));
    var arrow := Join3(ab, Implication, NewAtom("C"));
    assert Depth(ab) == 1 && Depth(arrow) == 2;
    assert Depth(Join3(arrow, And, NewAtom("D"))) == 3;
  }

  /** A construction of two atoms has depth 1. */
  lemma OperandsBelowDepthOne(e: Expr)
    requires e.Construction? && Depth(e) != 1
    ensures e.left.Construction? || e.right.Construction?
  {
  }

  /** The operands of a construction without NOT-joined nodes have none either. */
  lemma ProperParts(e: Expr)
    requires e.Construction? && Proper(e)
    ensures e.terminal != Not && Proper(e.left) && Proper(e.right) && Size(e.left) < Size(e) && Size(e.right) < Size(e)
  {
  }

  /**
   * The distribution the source evidently intends: distDisj only when the
   * shuffled right operand is an un-negated conjunction, and the plain
   * disjunction otherwise; with the debug printing gone, a null operand is
   * passed on as null rather than thrown.
   */
  function ShuffleCorrected(e: Expr): (r: Option<Expr>)
    ensures r.Some? && e.Construction? ==> r.value.Construction?
    decreases Size(e)
  {
    if Depth(e) == 1 || e.Atom? then Some(e)
    else if e.terminal == Or then
      var d := if e.right.Atom? && e.left.Construction? then CommDisj(e) else e;
      if Depth(d) != 1 then
        match ShuffleCorrected(d.left)
        case None => None
        case Some(l) =>
          match ShuffleCorrected(d.right)
          case None => None
          case Some(r) =>
            if Plain(r, And) then Some(DistDisj(Join3(l, Or, r))) else Some(Join3(l, Or, r))
      else Some(d)
    else if e.terminal == And then
      match ShuffleCorrected(e.left)
      case None => None
      case Some(l) =>
        match ShuffleCorrected(e.right)
        case None => None
        case Some(r) => Some(Join3(l, And, r))
    else None
  }

  /** On arrow-free input neither shuffle gives null, and the source's shuffle does not throw. */
  lemma {:induction false} ShuffleDefined(e: Expr)
    requires ArrowFree(e) && Proper(e)
    ensures Shuffle(e).Ok? && Shuffle(e).value.Some? && ShuffleCorrected(e).Some?
    decreases Size(e)
  {
    if Depth(e) != 1 && e.Construction? {
      var d := if e.terminal == Or && e.right.Atom? && e.left.Construction? then CommDisj(e) else e;
      ShuffleDefined(d.left);
      ShuffleDefined(d.right);
    }
  }

  /** As written, the shuffle keeps negation normal form and the atom names. */
  lemma {:induction false} ShuffleShape(e: Expr)
    requires Nnf(e)
    ensures Shuffle(e).Ok? && Shuffle(e).value.Some? && Nnf(Shuffle(e).value.value)
    ensures WellNamed(e) ==> WellNamed(Shuffle(e).value.value)
    decreases Size(e)
  {
    if Depth(e) != 1 && e.Construction? {
      var d := if e.terminal == Or && e.right.Atom? && e.left.Construction? then CommDisj(e) else e;
      ShuffleShape(d.left);
      ShuffleShape(d.right);
      if e.terminal == Or && Depth(d) != 1 {
        var l, r := Shuffle(d.left).value.value, Shuffle(d.right).value.value;
        OperandsBelowDepthOne(d);
        assert Nnf(r.left) && Nnf(r.right);
        assert WellNamed(r) ==> WellNamed(r.left) && WellNamed(r.right);
        assert Shuffle(e) == Ok(Some(DistDisj(Join3(l, Or, r))));
      }
    }
  }

  /** The intended shuffle keeps the value, negation normal form and the atom names. */
  lemma {:induction false} ShuffleCorrectedValue(e: Expr, v: string -> bool)
    requires Nnf(e) && WellNamed(e)
    ensures ShuffleCorrected(e).Some?
    ensures Eval(ShuffleCorrected(e).value, v) == Eval(e, v)
    ensures Nnf(ShuffleCorrected(e).value) && WellNamed(ShuffleCorrected(e).value)
    decreases Size(e)
  {
    if Depth(e) != 1 && e.Construction? {
      var d := if e.terminal == Or && e.right.Atom? && e.left.Construction? then CommDisj(e) else e;
      CommValue(e, v);
      ShuffleCorrectedValue(d.left, v);
      ShuffleCorrectedValue(d.right, v);
      if e.terminal == Or && Depth(d) != 1 {
        var l, r := ShuffleCorrected(d.left).value, ShuffleCorrected(d.right).value;
        if Plain(r, And) {
          DistValue(Join3(l, Or, r), v);
        }
      }
    }
  }

  /**
   * As written, (A & B) | (C | D) is distributed as if its right operand
   * were a conjunction, and the result is false where the input is true.
   */
  lemma DistributesOverDisjunction()
    ensures var e := Join3(Join3(NewAtom("A"), And, NewAtom("B")), Or, Join3(NewAtom("C"), Or, NewAtom("D")));
      var v := (n: string) => n == "C";
      Shuffle(e) == Ok(Some(DistDisj(e))) && Eval(e, v) && !Eval(Shuffle(e).value.value, v)
  {
    var ab, cd := Join3(NewAtom("A"), And, NewAtom("B")), Join3(NewAtom("C"), Or, NewAtom("D"));
    var e := Join3(ab, Or, cd);
    assert Depth(ab) == 1 && Depth(cd) == 1 && Depth(e) == 2;
  }

  // ---------------------------------------------------------------------
  // simplifyDisj

  /**
   * The source's simplifyDisj: a disjunction of two operands rendered alike
   * becomes its left operand, one of an operand and its rendered negation
   * becomes T; every construction is rebuilt by combine from its simplified
   * operands, which drops its own negations.
   */
  function SimplifyDisj(e: Expr): (r: Expr)
    requires Proper(e)
    ensures Proper(r)
    decreases Size(e)
  {
    if e.Atom? then e
    else if e.terminal == Or && BinaryExpression.ToString(e.left) == BinaryExpression.ToString(e.right) then
      var d := e.left;
      if d.Atom? then d
      else
        ProperParts(e);
        ProperParts(d);
        Combine(SimplifyDisj(d.left), SimplifyDisj(d.right), d.terminal).value
    else if e.terminal == Or && IsNegated(e.left, e.right) then TRUE
    else Combine(SimplifyDisj(e.left), SimplifyDisj(e.right), e.terminal).value
  }

  /** Operands the complement test pairs are an expression and its negation, in some order. */
  lemma NegatedPair(a: Expr, b: Expr)
    requires WellNamed(a) && WellNamed(b) && IsNegated(a, b)
    ensures a == Negate(b) || b == Negate(a)
  {
    if BinaryExpression.ToString(a) == "¬" + BinaryExpression.ToString(b) {
      NegatedRendering(a, b, AtomMark);
    } else {
      NegatedRendering(b, a, AtomMark);
    }
  }

  /**
   * simplifyDisj keeps the value when T is read as true, and keeps negation
   * normal form and the atom names.
   */
  lemma {:induction false} SimplifyDisjValue(e: Expr, v: string -> bool)
    requires Nnf(e) && WellNamed(e) && v("T")
    ensures Eval(SimplifyDisj(e), v) == Eval(e, v)
    ensures Nnf(SimplifyDisj(e)) && WellNamed(SimplifyDisj(e))
    decreases Size(e)
  {
    ConstantsWellNamed(AtomMark);
    if e.Construction? {
      var l, r := e.left, e.right;
      if e.terminal == Or && BinaryExpression.ToString(l) == BinaryExpression.ToString(r) {
        RenderingInjective(l, r, AtomMark);
        if l.Construction? {
          SimplifyDisjValue(l.left, v);
          SimplifyDisjValue(l.right, v);
        }
      } else if e.terminal == Or && IsNegated(l, r) {
        NegatedPair(l, r);
        NegateValue(l, v);
        NegateValue(r, v);
      } else {
        SimplifyDisjValue(l, v);
        SimplifyDisjValue(r, v);
      }
    }
  }

  // ---------------------------------------------------------------------
  // simplifyConj

  /**
   * The operand simplifyConj keeps in place of a conjunction: the right one
   * when the left is rendered "T", the left one when the right is, or the
   * left one when both are rendered alike; None when no test applies.
   */
  function ConjKept(e: Expr): (r: Option<Expr>)
    requires e.Construction?
    ensures r.Some? ==> r.value == e.left || r.value == e.right
    ensures r.Some? ==> Size(r.value) < Size(e) && (Proper(e) ==> Proper(r.value))
  {
    if BinaryExpression.ToString(e.left) == "T" then Some(e.right)
    else if BinaryExpression.ToString(e.right) == "T" then Some(e.left)
    else if BinaryExpression.ToString(e.left) == BinaryExpression.ToString(e.right) then Some(e.left)
    else None
  }

  /** Java's combine of two results, with the left operand simplified first. */
  function Rejoin(a: Result<Expr>, t: Terminal, b: Result<Expr>): (r: Result<Expr>)
    requires t != Not
    ensures r.Ok? <==> a.Ok? && b.Ok?
    ensures r.Ok? ==> r.value == Join3(a.value, t, b.value)
  {
    match a
    case Err(f) => Err(f)
    case Ok(x) =>
      match b
      case Err(f) => Err(f)
      case Ok(y) => Ok(Join3(x, t, y))
  }

  /**
   * The source's simplifyConj. Unlike simplifyDisj it does not check whether
   * the kept operand is an atom before asking for its operands, so a
   * conjunction that simplifies to an atom throws a NullPointerException.
   */
  function SimplifyConj(e: Expr): (r: Result<Expr>)
    requires Proper(e)
    ensures r.Ok? ==> Proper(r.value)
    decreases Size(e)
  {
    if e.Atom? then Ok(e)
    else if e.terminal == And && ConjKept(e).Some? then
      var d := ConjKept(e).value;
      if d.Atom? then Err(NullPointer)
      else Rejoin(SimplifyConj(d.left), d.terminal, SimplifyConj(d.right))
    else if e.terminal == And && IsNegated(e.left, e.right) then Ok(FALSE)
    else Rejoin(SimplifyConj(e.left), e.terminal, SimplifyConj(e.right))
  }

  /** simplifyConj with the atom check simplifyDisj has: a kept atom is returned as it is. */
  function SimplifyConjCorrected(e: Expr): (r: Expr)
    requires Proper(e)
    ensures Proper(r)
    decreases Size(e)
  {
    if e.Atom? then e
    else if e.terminal == And && ConjKept(e).Some? then
      var d := ConjKept(e).value;
      if d.Atom? then d
      else Combine(SimplifyConjCorrected(d.left), SimplifyConjCorrected(d.right), d.terminal).value
    else if e.terminal == And && IsNegated(e.left, e.right) then FALSE
    else Combine(SimplifyConjCorrected(e.left), SimplifyConjCorrected(e.right), e.terminal).value
  }

  /** Where the source's simplifyConj does not throw, it agrees with the corrected one. */
  lemma {:induction false} SimplifyConjAgrees(e: Expr)
    requires Proper(e) && SimplifyConj(e).Ok?
    ensures SimplifyConj(e).value == SimplifyConjCorrected(e)
    decreases Size(e)
  {
    if e.Construction? {
      if e.terminal == And && ConjKept(e).Some? {
        var d := ConjKept(e).value;
        SimplifyConjAgrees(d.left);
        SimplifyConjAgrees(d.right);
      } else if !(e.terminal == And && IsNegated(e.left, e.right)) {
        SimplifyConjAgrees(e.left);
        SimplifyConjAgrees(e.right);
      }
    }
  }

  /** The operand simplifyConj keeps has the conjunction's value when T is read as true. */
  lemma KeptValue(e: Expr, v: string -> bool)
    requires Nnf(e) && WellNamed(e) && v("T") && e.Construction? && e.terminal == And && ConjKept(e).Some?
    ensures Eval(ConjKept(e).value, v) == Eval(e, v)
    ensures Nnf(ConjKept(e).value) && WellNamed(ConjKept(e).value)
  {
    ConstantRendering(e.left, AtomMark);
    ConstantRendering(e.right, AtomMark);
    RenderingInjective(e.left, e.right, AtomMark);
  }

  /** A & A throws in the source's simplifyConj, and is A in the corrected one. */
  lemma ConjOfEqualAtomsThrows()
    ensures SimplifyConj(Join3(NewAtom("A"), And, NewAtom("A"))) == Err(NullPointer)
    ensures SimplifyConjCorrected(Join3(NewAtom("A"), And, NewAtom("A"))) == NewAtom("A")
  {
  }

  /**
   * The corrected simplifyConj keeps the value when T is read as true and
   * FALSE as false, and keeps negation normal form and the atom names.
   */
  lemma {:induction false} SimplifyConjCorrectedValue(e: Expr, v: string -> bool)
    requires Nnf(e) && WellNamed(e) && v("T") && !v("FALSE")
    ensures Eval(SimplifyConjCorrected(e), v) == Eval(e, v)
    ensures Nnf(SimplifyConjCorrected(e)) && WellNamed(SimplifyConjCorrected(e))
    decreases Size(e)
  {
    ConstantsWellNamed(AtomMark);
    if e.Construction? {
      var l, r := e.left, e.right;
      if e.terminal == And && ConjKept(e).Some? {
        KeptValue(e, v);
        var d := ConjKept(e).value;
        if d.Construction? {
          SimplifyConjCorrectedValue(d.left, v);
          SimplifyConjCorrectedValue(d.right, v);
        }
      } else if e.terminal == And && IsNegated(l, r) {
        NegatedPair(l, r);
        NegateValue(l, v);
        NegateValue(r, v);
      } else {
        SimplifyConjCorrectedValue(l, v);
        SimplifyConjCorrectedValue(r, v);
      }
    }
  }

  // ---------------------------------------------------------------------
  // simplifyFalsehoods

  /**
   * The source's simplifyFalsehoods. In a disjunction whose left operand is
   * rendered "FALSE" it continues with the right operand, then tests that
   * expression's right operand, whatever its connective; an atom reached on
   * either step has its null operands dereferenced.
   */
  function SimplifyFalsehoods(e: Expr): (r: Result<Expr>)
    requires Proper(e)
    ensures r.Ok? ==> Proper(r.value)
    decreases Size(e)
  {
    if e.Atom? then Ok(e)
    else if e.terminal == Or then
      var d1 := if BinaryExpression.ToString(e.left) == "FALSE" then e.right else e;
      if d1.Atom? then Err(NullPointer)
      else
        var d2 := if BinaryExpression.ToString(d1.right) == "FALSE" then d1.left else d1;
        if d2.Atom? then Err(NullPointer)
        else
          ProperParts(e);
          ProperParts(d1);
          ProperParts(d2);
          assert Size(d2) <= Size(e);
          Rejoin(SimplifyFalsehoods(d2.left), d2.terminal, SimplifyFalsehoods(d2.right))
    else Rejoin(SimplifyFalsehoods(e.left), e.terminal, SimplifyFalsehoods(e.right))
  }

  /** What simplifyFalsehoods evidently intends: a FALSE operand of a disjunction is dropped. */
  function SimplifyFalsehoodsCorrected(e: Expr): (r: Expr)
    requires Proper(e)
    ensures Proper(r)
    decreases Size(e)
  {
    if e.Atom? then e
    else if e.terminal == Or && BinaryExpression.ToString(e.left) == "FALSE" then SimplifyFalsehoodsCorrected(e.right)
    else if e.terminal == Or && BinaryExpression.ToString(e.right) == "FALSE" then SimplifyFalsehoodsCorrected(e.left)
    else Combine(SimplifyFalsehoodsCorrected(e.left), SimplifyFalsehoodsCorrected(e.right), e.terminal).value
  }

  /** The corrected simplifyFalsehoods keeps the value when FALSE is read as false. */
  lemma {:induction false} SimplifyFalsehoodsCorrectedValue(e: Expr, v: string -> bool)
    requires Nnf(e) && WellNamed(e) && !v("FALSE")
    ensures Eval(SimplifyFalsehoodsCorrected(e), v) == Eval(e, v)
    ensures Nnf(SimplifyFalsehoodsCorrected(e)) && WellNamed(SimplifyFalsehoodsCorrected(e))
    decreases Size(e)
  {
    if e.Construction? {
      ConstantRendering(e.left, AtomMark);
      ConstantRendering(e.right, AtomMark);
      SimplifyFalsehoodsCorrectedValue(e.left, v);
      SimplifyFalsehoodsCorrectedValue(e.right, v);
    }
  }

  /**
   * As written, FALSE | A throws, and FALSE | ((B | C) & FALSE), which is
   * false, becomes B | C.
   */
  lemma FalsehoodsFindings()
    ensures SimplifyFalsehoods(Join3(FALSE, Or, NewAtom("A"))) == Err(NullPointer)
    ensures var bc := Join3(NewAtom("B"), Or, NewAtom("C"));
      var e := Join3(FALSE, Or, Join3(bc, And, FALSE));
      var v := (n: string) => n == "B";
      SimplifyFalsehoods(e) == Ok(bc) && !Eval(e, v) && Eval(bc, v)
  {
    var bc := Join3(NewAtom("B"), Or, NewAtom("C"));
    assert SimplifyFalsehoods(NewAtom("B")) == Ok(NewAtom("B"));
    assert SimplifyFalsehoods(NewAtom("C")) == Ok(NewAtom("C"));
    assert BinaryExpression.ToString(NewAtom("C")) != "FALSE";
    assert SimplifyFalsehoods(bc) == Ok(bc);
  }
}
