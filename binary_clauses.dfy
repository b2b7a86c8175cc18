/**
 * The last stage of the binary package's conversion and the conversion as a
 * whole (reasoning2 LogicMethods.formClauses and transform): the rendering
 * of the simplified expression is scanned for atom names, and the stages run
 * one after the other.
 */
module BinaryClauses {
  import opened Wrappers
  import opened Text
  import opened Terminal
  import opened Clauses
  import opened BinaryExpression
  import opened BinaryNormalForm
  import opened BinarySimplify

  // ---------------------------------------------------------------------
  // formClauses

  /** The first index from `j` on that holds neither ')' nor ' ', or the length. */
  function SkipClosers(s: string, j: nat): (k: nat)
    requires j <= |s|
    ensures j <= k <= |s|
    ensures forall m :: j <= m < k ==> s[m] == ')' || s[m] == ' '
    ensures k < |s| ==> s[k] != ')' && s[k] != ' '
    decreases |s| - j
  {
    if j == |s| || (s[j] != ')' && s[j] != ' ') then j else SkipClosers(s, j + 1)
  }

  /** One step of the scan: the literal read, where the scan goes on, and whether an '&' closed the clause. */
  datatype Step = Step(lit: Literal, next: nat, closes: bool)

  /**
   * The step formClauses takes at position `i`: the leftmost atom name from
   * `i` on (the empty name at the end when there is none), negated once iff
   * '¬' stands right before it; the position then moves past the name and
   * any ')' and ' ', an '&' there closes the clause, and the position moves
   * one further. A name at position 0 has no character before it, so there
   * is no step.
   */
  function StepAt(s: string, i: nat): (r: Option<Step>)
    requires i < |s|
    ensures r.None? <==> LiteralStart(s, i) == 0
    ensures r.Some? ==> i < r.value.next <= |s| + 1
  {
    var a, b := LiteralStart(s, i), LiteralEnd(s, i);
    if a == 0 then None
    else
      var j := SkipClosers(s, b);
      Some(Step(Literal(s[a..b], if s[a - 1] == '¬' then 1 else 0), j + 1, j < |s| && s[j] == '&'))
  }

  /**
   * What formClauses computes from position `i`, with the clauses closed so
   * far and the one being filled; the last clause is added at the end.
   */
  function Scan(s: string, i: nat, closed: Cnf, current: Clause): (r: Result<Cnf>)
    requires i <= |s| + 1
    decreases |s| + 1 - i
  {
    if i >= |s| then Ok(closed + {current})
    else
      match StepAt(s, i)
      case None => Err(IndexOutOfBounds)
      case Some(Step(lit, j, closes)) =>
        if closes then Scan(s, j, closed + {current + {lit}}, {})
        else Scan(s, j, closed, current + {lit})
  }

  /** The clause set formClauses reads from a rendering. */
  function FormFrom(s: string): Result<Cnf>
  {
    Scan(s, 0, {}, {})
  }

  /**
   * Scans the rendering of `e` into clauses, as the source's formClauses
   * does with its regular expression, its charAt(literalStart - 1) test and
   * the skipping loop whose StringIndexOutOfBoundsException at the end of
   * the string is caught.
   */
  method FormClauses(e: Expr) returns (r: Result<Cnf>)
    ensures r == FormFrom(BinaryExpression.ToString(e))
  {
    r := ScanRendering(BinaryExpression.ToString(e));
  }

  /** The loop of formClauses over a rendering. */
  method ScanRendering(expression: string) returns (r: Result<Cnf>)
    ensures r == FormFrom(expression)
  {
    var i := 0;
    var cnf: Cnf := {};
    var clause: Clause := {};
    while i < |expression|
      invariant i <= |expression| + 1
      invariant Scan(expression, i, cnf, clause) == FormFrom(expression)
      decreases |expression| + 1 - i
    {
      if LiteralStart(expression, i) == 0 {
        return Err(IndexOutOfBounds);
      }
      var lit, next, closes := ReadStep(expression, i);
      ScanUnfold(expression, i, cnf, clause, lit, next, closes);
      if closes {
        cnf := cnf + {clause + {lit}};
        clause := {};
      } else {
        clause := clause + {lit};
      }
      i := next;
    }
    return Ok(cnf + {clause});
  }

  /**
   * One pass of the loop body of formClauses: the literal at the match, then
   * the skip past ')' and ' ' and the test for '&'.
   */
  method ReadStep(expression: string, i: nat) returns (lit: Literal, next: nat, closes: bool)
    requires i < |expression| && LiteralStart(expression, i) != 0
    ensures StepAt(expression, i) == Some(Step(lit, next, closes))
  {
    var literalStart := LiteralStart(expression, i);
    var literalEnd := LiteralEnd(expression, i);
    StepShape(expression, i);
    if expression[literalStart - 1] == '¬' {
      lit := Literal(expression[literalStart..literalEnd], 1);
    } else {
      lit := Literal(expression[literalStart..literalEnd], 0);
    }
    var j := literalEnd;
    while j < |expression| && (expression[j] == ')' || expression[j] == ' ')
      invariant literalEnd <= j <= |expression|
      invariant SkipClosers(expression, literalEnd) == SkipClosers(expression, j)
    {
      j := j + 1;
    }
    closes := j < |expression| && expression[j] == '&';
    next := j + 1;
  }

  /** The parts of a step, as the loop of formClauses computes them. */
  lemma StepShape(s: string, i: nat)
    requires i < |s| && LiteralStart(s, i) != 0
    ensures var a, b := LiteralStart(s, i), LiteralEnd(s, i);
      var step := StepAt(s, i).value;
      step.lit.name == s[a..b] && step.lit.negs == (if s[a - 1] == '¬' then 1 else 0) &&
      step.next == SkipClosers(s, b) + 1 &&
      step.closes == (SkipClosers(s, b) < |s| && s[SkipClosers(s, b)] == '&')
  {
  }

  /** One step of the scan, as the loop of formClauses takes it. */
  lemma ScanUnfold(s: string, i: nat, closed: Cnf, current: Clause, lit: Literal, next: nat, closes: bool)
    requires i < |s| && StepAt(s, i) == Some(Step(lit, next, closes))
    ensures next <= |s| + 1
    ensures closes ==> Scan(s, i, closed, current) == Scan(s, next, closed + {current + {lit}}, {})
    ensures !closes ==> Scan(s, i, closed, current) == Scan(s, next, closed, current + {lit})
  {
  }

  /** After the first step the scan never throws: only a name at position 0 has no character before it. */
  lemma {:induction false} ScanOk(s: string, i: nat, closed: Cnf, current: Clause)
    requires 0 < i <= |s| + 1
    ensures Scan(s, i, closed, current).Ok?
    decreases |s| + 1 - i
  {
    if i < |s| {
      var step := StepAt(s, i).value;
      ScanOk(s, step.next, closed + {current + {step.lit}}, {});
      ScanOk(s, step.next, closed, current + {step.lit});
    }
  }

  /** formClauses throws exactly when the rendering starts with an atom name. */
  lemma FormFromThrows(s: string)
    ensures FormFrom(s).Err? <==> |s| > 0 && IsUpper(s[0])
    ensures FormFrom(s).Err? ==> FormFrom(s).fault == IndexOutOfBounds
  {
    if |s| > 0 && LiteralStart(s, 0) != 0 {
      var step := StepAt(s, 0).value;
      ScanOk(s, step.next, {} + {{} + {step.lit}}, {});
      ScanOk(s, step.next, {}, {} + {step.lit});
    }
  }

  /** An un-negated atom is rendered as its name, so formClauses throws on it. */
  lemma AtomThrows(n: string)
    requires IsAtomName(n)
    ensures FormFrom(BinaryExpression.ToString(NewAtom(n))) == Err(IndexOutOfBounds)
  {
    assert BinaryExpression.ToString(NewAtom(n)) == n;
    FormFromThrows(n);
  }

  /** `l` is read from `s` at a match from `a` to `b`: an atom name, or the empty name at the end. */
  ghost predicate ReadAt(s: string, l: Literal)
  {
    exists a, b :: 0 < a <= b <= |s| && s[a..b] == l.name &&
      (IsAtomName(l.name) || a == |s|) &&
      l.negs == (if s[a - 1] == '¬' then 1 else 0)
  }

  ghost predicate ClauseRead(s: string, c: Clause)
  {
    forall l :: l in c ==> ReadAt(s, l)
  }

  ghost predicate CnfRead(s: string, f: Cnf)
  {
    forall c :: c in f ==> ClauseRead(s, c)
  }

  /** The literal of one step is read from the rendering. */
  lemma StepRead(s: string, i: nat)
    requires i < |s| && StepAt(s, i).Some?
    ensures ReadAt(s, StepAt(s, i).value.lit)
  {
    var a, b := LiteralStart(s, i), LiteralEnd(s, i);
    assert StepAt(s, i).value.lit == Literal(s[a..b], if s[a - 1] == '¬' then 1 else 0);
  }

  lemma ReadGrow(s: string, closed: Cnf, current: Clause, lit: Literal)
    requires CnfRead(s, closed) && ClauseRead(s, current) && ReadAt(s, lit)
    ensures ClauseRead(s, current + {lit}) && CnfRead(s, closed + {current + {lit}}) && ClauseRead(s, {})
  {
  }

  /**
   * Every literal formClauses reads is an atom name of the rendering (or the
   * empty name at its end), negated once iff '¬' stands right before it.
   */
  lemma {:induction false} ScanLiterals(s: string, i: nat, closed: Cnf, current: Clause)
    requires i <= |s| + 1 && Scan(s, i, closed, current).Ok?
    requires CnfRead(s, closed) && ClauseRead(s, current)
    ensures CnfRead(s, Scan(s, i, closed, current).value)
    decreases |s| + 1 - i
  {
    if i < |s| {
      var step := StepAt(s, i).value;
      StepRead(s, i);
      ReadGrow(s, closed, current, step.lit);
      if step.closes {
        ScanLiterals(s, step.next, closed + {current + {step.lit}}, {});
      } else {
        ScanLiterals(s, step.next, closed, current + {step.lit});
      }
    } else {
      assert Scan(s, i, closed, current).value == closed + {current};
    }
  }

  /** Every literal in the clauses formClauses returns is read from the rendering. */
  lemma FormFromLiterals(s: string)
    requires FormFrom(s).Ok?
    ensures CnfRead(s, FormFrom(s).value)
  {
    ScanLiterals(s, 0, {}, {});
  }

  /** The rendering of (A ∨ ¬B) ∧ C under the source's atom mark. */
  const TwoClauses: string := "((A || Â¬B) && C)"

  lemma FirstStep()
    ensures StepAt(TwoClauses, 0) == Some(Step(Literal("A", 0), 5, false))
  {
    var s := TwoClauses;
    assert s[0] == '(' && s[1] == '(' && s[2] == 'A' && s[3] == ' ' && s[4] == '|';
    assert FirstUpper(s, 0) == Some(2);
    assert RunEnd(s, 2, IsUpper) == 3 && RunEnd(s, 3, IsDigit) == 3;
    assert FindLiteral(s, 0) == Some((2, 3));
    assert s[2..3] == "A";
    assert SkipClosers(s, 4) == 4 && SkipClosers(s, 3) == 4;
  }

  lemma SecondStep()
    ensures StepAt(TwoClauses, 5) == Some(Step(Literal("B", 1), 13, true))
  {
    var s := TwoClauses;
    assert FirstUpper(s, 5) == Some(9);
    assert FindLiteral(s, 5) == Some((9, 10));
    assert s[9..10] == "B";
    assert SkipClosers(s, 12) == 12 && SkipClosers(s, 11) == 12 && SkipClosers(s, 10) == 12;
  }

  lemma ThirdStep()
    ensures StepAt(TwoClauses, 13) == Some(Step(Literal("C", 0), 18, false))
  {
    var s := TwoClauses;
    assert FirstUpper(s, 13) == Some(15);
    assert FindLiteral(s, 13) == Some((15, 16));
    assert s[15..16] == "C";
    assert SkipClosers(s, 17) == 17 && SkipClosers(s, 16) == 17;
  }

  /** A rendered two-clause form reads back as its two clauses, the negated atom included. */
  lemma ReadsTwoClauses()
    ensures FormFrom(TwoClauses) == Ok({{Literal("A", 0), Literal("B", 1)}, {Literal("C", 0)}})
  {
    ReadsFirstClause();
    ReadsLastClause();
  }

  /** The worked example's first clause is {A, ¬B}, closed at the '&'. */
  lemma ReadsFirstClause()
    ensures FormFrom(TwoClauses) == Scan(TwoClauses, 13, {{Literal("A", 0), Literal("B", 1)}}, {})
  {
    var a, b := Literal("A", 0), Literal("B", 1);
    FirstStep();
    ScanUnfold(TwoClauses, 0, {}, {}, a, 5, false);
    assert {} + {a} == {a};
    ReadsSecondLiteral();
  }

  /** With A read, the worked example's next literal is ¬B, and the '&' after it closes {A, ¬B}. */
  lemma ReadsSecondLiteral()
    ensures Scan(TwoClauses, 5, {}, {Literal("A", 0)}) == Scan(TwoClauses, 13, {{Literal("A", 0), Literal("B", 1)}}, {})
  {
    var a, b := Literal("A", 0), Literal("B", 1);
    SecondStep();
    ScanUnfold(TwoClauses, 5, {}, {a}, b, 13, true);
    assert {} + {{a} + {b}} == {{a, b}} by {
      assert {a} + {b} == {a, b};
    }
  }

  /** After the first clause is closed, the rest of the worked example reads as the clause {C}. */
  lemma ReadsLastClause()
    ensures Scan(TwoClauses, 13, {{Literal("A", 0), Literal("B", 1)}}, {})
         == Ok({{Literal("A", 0), Literal("B", 1)}, {Literal("C", 0)}})
  {
    var ab, c := {Literal("A", 0), Literal("B", 1)}, Literal("C", 0);
    ThirdStep();
    ScanUnfold(TwoClauses, 13, {ab}, {}, c, 18, false);
    assert Scan(TwoClauses, 18, {ab}, {c}) == Ok({ab} + {{c}});
    assert {} + {c} == {c};
    assert {ab} + {{c}} == {ab, {c}};
  }

  // ---------------------------------------------------------------------
  // transform

  /**
   * What transform computes: resolveArrows, performDeMorgans,
   * shuffleExpression, simplifyDisj, simplifyConj and simplifyFalsehoods in
   * turn, then formClauses on the rendering. A stage that loops makes the
   * whole loop; an exception from a stage ends it.
   */
  function Transformed(e: Expr): (r: Run<Result<Cnf>>)
    requires Proper(e)
  {
    match Resolved(e)
    case Diverges => Diverges
    case Halts(a) =>
      ResolvedShape(e);
      match DeMorganed(a)
      case Diverges => Diverges
      case Halts(b) =>
        DeMorganedNnf(a);
        Halts(Finished(b))
  }

  /**
   * The stages after performDeMorgans, which always end: shuffleExpression,
   * simplifyDisj, simplifyConj and simplifyFalsehoods, then formClauses on
   * the rendering.
   */
  function Finished(b: Expr): Result<Cnf>
    requires Nnf(b)
  {
    match Shuffle(b)
    case Err(f) => Err(f)
    case Ok(None) => Err(NullPointer)
    case Ok(Some(c)) =>
      ShuffleShape(b);
      match SimplifyConj(SimplifyDisj(c))
      case Err(f) => Err(f)
      case Ok(g) =>
        match SimplifyFalsehoods(g)
        case Err(f) => Err(f)
        case Ok(h) => FormFrom(BinaryExpression.ToString(h))
  }

  /** Transforms `e` into clause normal form, stage by stage. */
  method Transform(e: Expr) returns (r: Run<Result<Cnf>>)
    requires Proper(e)
    ensures r == Transformed(e)
  {
    var resolved := ResolveArrows(e);
    if resolved.Diverges? {
      return Diverges;
    }
    ResolvedShape(e);
    var deMorganed := PerformDeMorgans(resolved.value);
    if deMorganed.Diverges? {
      return Diverges;
    }
    DeMorganedNnf(resolved.value);
    var shuffled := Shuffle(deMorganed.value);
    if shuffled.Err? {
      return Halts(Err(shuffled.fault));
    }
    if shuffled.value.None? {
      return Halts(Err(NullPointer));
    }
    ShuffleShape(deMorganed.value);
    var conj := SimplifyConj(SimplifyDisj(shuffled.value.value));
    if conj.Err? {
      return Halts(Err(conj.fault));
    }
    var falsehoods := SimplifyFalsehoods(conj.value);
    if falsehoods.Err? {
      return Halts(Err(falsehoods.fault));
    }
    var cnf := FormClauses(falsehoods.value);
    return Halts(cnf);
  }

  /**
   * transform ends exactly on the tame expressions: performDeMorgans always
   * ends on what resolveArrows returns, and the other stages are recursions
   * on smaller operands.
   */
  lemma TransformHalts(e: Expr)
    requires Proper(e)
    ensures Transformed(e).Halts? <==> TameAt(e, 0)
  {
    assert WithNegs(e, e.negs + 0) == e;
    ResolvedHalts(e, 0);
    match Resolved(e)
    case Diverges =>
    case Halts(a) =>
      ResolvedShape(e);
      DeMorganedHalts(a);
      assert DeMorganed(a).Halts?;
  }

  /** A single atom reaches formClauses as its bare name, which throws. */
  lemma TransformAtomThrows(n: string)
    requires IsAtomName(n)
    ensures Transformed(NewAtom(n)) == Halts(Err(IndexOutOfBounds))
  {
    var a := NewAtom(n);
    assert Resolved(a) == Halts(a) && DeMorganed(a) == Halts(a);
    assert Shuffle(a) == Ok(Some(a)) && SimplifyDisj(a) == a;
    assert SimplifyConj(a) == Ok(a) && SimplifyFalsehoods(a) == Ok(a);
    AtomThrows(n);
  }

  /**
   * The stages with the intended shuffle, simplifyConj and
   * simplifyFalsehoods, on the atom names the parser reads: what transform
   * evidently means to hand to formClauses.
   */
  function CorrectedStages(e: Expr): (r: Run<Expr>)
    requires Proper(e) && WellNamed(e)
  {
    match Resolved(e)
    case Diverges => Diverges
    case Halts(a) =>
      ResolvedShape(e);
      ResolvedNames(e);
      match DeMorganed(a)
      case Diverges => Diverges
      case Halts(b) =>
        DeMorganedNnf(a);
        DeMorganedNames(a);
        ShuffleCorrectedValue(b, (n: string) => true);
        var c := ShuffleCorrected(b).value;
        Halts(SimplifyFalsehoodsCorrected(SimplifyConjCorrected(SimplifyDisj(c))))
  }

  /** The corrected stages end exactly where transform does. */
  lemma CorrectedStagesHalt(e: Expr)
    requires Proper(e) && WellNamed(e)
    ensures CorrectedStages(e).Halts? <==> Transformed(e).Halts?
  {
    if Resolved(e).Halts? {
      ResolvedShape(e);
      DeMorganedHalts(Resolved(e).value);
    }
  }

  /**
   * The corrected stages keep the value of the input when T is read as true
   * and FALSE as false, and end in negation normal form.
   */
  lemma CorrectedStagesValue(e: Expr, v: string -> bool)
    requires Proper(e) && WellNamed(e) && v("T") && !v("FALSE")
    requires CorrectedStages(e).Halts?
    ensures Eval(CorrectedStages(e).value, v) == Eval(e, v)
    ensures Nnf(CorrectedStages(e).value) && WellNamed(CorrectedStages(e).value)
  {
    var a := Resolved(e).value;
    ResolvedValue(e, v);
    ResolvedShape(e);
    ResolvedNames(e);
    var b := DeMorganed(a).value;
    DeMorganedValue(a, v);
    DeMorganedNnf(a);
    DeMorganedNames(a);
    ShuffleCorrectedValue(b, v);
    var c := ShuffleCorrected(b).value;
    SimplifyDisjValue(c, v);
    var d := SimplifyDisj(c);
    SimplifyConjCorrectedValue(d, v);
    SimplifyFalsehoodsCorrectedValue(SimplifyConjCorrected(d), v);
  }
}
