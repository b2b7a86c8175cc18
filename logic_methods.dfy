/**
 * The formula rewrites of the n-ary package: negation, combination under a
 * connective, double negation elimination, De Morgan, arrow elimination, and
 * the conversion to conjunctive normal form built from them.
 */
module LogicMethods {
  import opened Wrappers
  import opened Terminal
  import opened LogicExpression

  // ---------------------------------------------------------------------
  // Expression builders

  /** One more negation in front of `e`; name, terms and connective are kept. */
  function Negate(e: Expr): (r: Expr)
    ensures r.negs == e.negs + 1
    ensures GetType(r) == GetType(e) && GetName(r) == GetName(e)
    ensures GetTerms(r) == GetTerms(e) && GetTerminal(r) == GetTerminal(e)
  {
    match e
    case Atom(n, k) => Atom(n, k + 1)
    case Construction(ts, t, k) => Construction(ts, t, k + 1)
  }

  /** Every expression of the list negated, in the same order. */
  function NegateAll(l: seq<Expr>): (r: seq<Expr>)
    ensures |r| == |l|
    ensures forall i :: 0 <= i < |l| ==> r[i] == Negate(l[i])
  {
    seq(|l|, i requires 0 <= i < |l| => Negate(l[i]))
  }

  /** The terms `e` contributes when it is joined under `t`: its own terms when it is an un-negated `t`-construction. */
  predicate Opens(e: Expr, t: Terminal)
  {
    e.Construction? && e.terminal == t && e.negs == 0
  }

  /**
   * `e1` and `e2` joined by `t`. Arrows always make a fresh two-term node; a
   * conjunction or disjunction extends an un-negated left operand with the same
   * connective at the back, else an un-negated right one at the front when the
   * left is an atom, else it makes a fresh two-term node. Operand order is kept.
   */
  function Combine(e1: Expr, e2: Expr, t: Terminal): (r: Expr)
    ensures r.Construction? && r.terminal == t && r.negs == 0
    ensures t == Implication || t == Equivalence ==> r.terms == [e1, e2]
    ensures t != Implication && t != Equivalence && Opens(e1, t) ==> r.terms == e1.terms + [e2]
    ensures t != Implication && t != Equivalence && e1.Atom? && Opens(e2, t) ==> r.terms == [e1] + e2.terms
    ensures !Opens(e1, t) && !(e1.Atom? && Opens(e2, t)) ==> r.terms == [e1, e2]
  {
    if t == Implication || t == Equivalence then Construction([e1, e2], t, 0)
    else if e1.Atom? && e2.Atom? then Construction([e1, e2], t, 0)
    else if e1.Atom? then
      if e2.terminal == t && e2.negs == 0 then AddToFront(e2, e1, t)
      else Construction([e1, e2], t, 0)
    else if e2.Atom? then
      if e1.terminal == t && e1.negs == 0 then AddToBack(e1, e2, t)
      else Construction([e1, e2], t, 0)
    else if e1.terminal == t && e1.negs == 0 then AddToBack(e1, e2, t)
    else Construction([e1, e2], t, 0)
  }

  /**
   * Double negation elimination: two negations fewer on an even count, an odd
   * count unchanged. The source turns a count of zero into -2, so a count of
   * zero is outside the model.
   */
  function Dne(e: Expr): (r: Expr)
    requires e.negs % 2 == 1 || e.negs >= 2
    ensures e.negs % 2 == 1 ==> r == e
    ensures e.negs % 2 == 0 ==> r.negs == e.negs - 2 && GetName(r) == GetName(e)
    ensures e.negs % 2 == 0 ==> GetTerms(r) == GetTerms(e) && GetTerminal(r) == GetTerminal(e)
  {
    if e.negs % 2 == 0 then
      match e
      case Atom(n, k) => Atom(n, k - 2)
      case Construction(ts, t, k) => Construction(ts, t, k - 2)
    else e
  }

  /**
   * De Morgan's law: a conjunction becomes an un-negated disjunction of the
   * negated terms and vice versa; other connectives are returned unchanged.
   */
  function DeMorgans(e: Expr): (r: Expr)
    requires e.Construction?
    ensures e.terminal == And ==> r == Construction(NegateAll(e.terms), Or, 0)
    ensures e.terminal == Or ==> r == Construction(NegateAll(e.terms), And, 0)
    ensures e.terminal != And && e.terminal != Or ==> r == e
  {
    match e.terminal
    case And => Construction(NegateAll(e.terms), Or, 0)
    case Or => Construction(NegateAll(e.terms), And, 0)
    case _ => e
  }

  /** L -> R becomes -L | R, keeping the node's own negation count. */
  function RewriteImplication(e: Expr): (r: Expr)
    requires e.Construction? && |e.terms| >= 2
    ensures r == Construction([Negate(e.terms[0]), e.terms[1]], Or, e.negs)
  {
    Construction([Negate(e.terms[0]), e.terms[1]], Or, e.negs)
  }

  /** L <-> R becomes (L -> R) & (R -> L), keeping the node's own negation count. */
  function RewriteEquivalence(e: Expr): (r: Expr)
    requires e.Construction? && |e.terms| >= 2
    ensures r.Construction? && r.terminal == And && r.negs == e.negs && |r.terms| == 2
    ensures r.terms[0] == Construction([e.terms[0], e.terms[1]], Implication, 0)
    ensures r.terms[1] == Construction([e.terms[1], e.terms[0]], Implication, 0)
  {
    var l := e.terms[0];
    var rt := e.terms[1];
    Construction([Construction([l, rt], Implication, 0), Construction([rt, l], Implication, 0)], And, e.negs)
  }

  /** One expression is the other with exactly one more negation. */
  predicate IsNegated(e1: Expr, e2: Expr)
    ensures IsNegated(e1, e2) ==> e1.negs != e2.negs && GetName(e1) == GetName(e2) && GetTerms(e1) == GetTerms(e2)
  {
    e1 == Negate(e2) || e2 == Negate(e1)
  }

  // ---------------------------------------------------------------------
  // Meaning of the builders

  /** The value of `t` applied to two operand values. */
  function Join(t: Terminal, a: bool, b: bool): bool
  {
    match t
    case And => a && b
    case Or => a || b
    case Implication => !a || b
    case Equivalence => a == b
    case Not => false
  }

  lemma AllHoldConcat(a: seq<Expr>, b: seq<Expr>, v: string -> bool)
    ensures AllHold(a + b, v) == (AllHold(a, v) && AllHold(b, v))
  {
    if AllHold(a + b, v) {
      forall i | 0 <= i < |a| ensures Eval(a[i], v) { assert (a + b)[i] == a[i]; }
      forall i | 0 <= i < |b| ensures Eval(b[i], v) { assert (a + b)[|a| + i] == b[i]; }
    }
  }

  lemma SomeHoldsConcat(a: seq<Expr>, b: seq<Expr>, v: string -> bool)
    ensures SomeHolds(a + b, v) == (SomeHolds(a, v) || SomeHolds(b, v))
  {
    if SomeHolds(a, v) {
      var i :| 0 <= i < |a| && Eval(a[i], v);
      assert (a + b)[i] == a[i];
    }
    if SomeHolds(b, v) {
      var i :| 0 <= i < |b| && Eval(b[i], v);
      assert (a + b)[|a| + i] == b[i];
    }
  }

  /** An un-negated conjunction holds iff all its terms do; a disjunction iff some term does. */
  lemma OpenValue(e: Expr, v: string -> bool)
    requires e.Construction? && e.negs == 0
    ensures e.terminal == And ==> Eval(e, v) == AllHold(e.terms, v)
    ensures e.terminal == Or ==> Eval(e, v) == SomeHolds(e.terms, v)
  {
  }

  lemma PairValue(a: Expr, b: Expr, v: string -> bool)
    ensures AllHold([a, b], v) == (Eval(a, v) && Eval(b, v))
    ensures SomeHolds([a, b], v) == (Eval(a, v) || Eval(b, v))
  {
    assert [a, b][0] == a && [a, b][1] == b;
    assert [a, b] == [a] + [b];
    AllHoldConcat([a], [b], v);
    SomeHoldsConcat([a], [b], v);
  }

  /** Negation flips the value. */
  lemma NegateValue(e: Expr, v: string -> bool)
    ensures Eval(Negate(e), v) == !Eval(e, v)
  {
  }

  /** Combining keeps the meaning of the connective applied to both operands. */
  lemma CombineValue(e1: Expr, e2: Expr, t: Terminal, v: string -> bool)
    requires t != Not
    ensures Eval(Combine(e1, e2, t), v) == Join(t, Eval(e1, v), Eval(e2, v))
  {
    var r := Combine(e1, e2, t);
    if t == Implication || t == Equivalence {
      assert r.terms[0] == e1 && r.terms[1] == e2;
    } else if Opens(e1, t) {
      CombineBackValue(e1, e2, t, v);
    } else if e1.Atom? && Opens(e2, t) {
      CombineFrontValue(e1, e2, t, v);
    } else {
      OpenValue(r, v);
      PairValue(e1, e2, v);
    }
  }

  /** A list of one term holds exactly when the term does. */
  lemma SingleValue(e: Expr, v: string -> bool)
    ensures AllHold([e], v) == Eval(e, v) && SomeHolds([e], v) == Eval(e, v)
  {
    assert [e][0] == e;
  }

  lemma CombineBackValue(e1: Expr, e2: Expr, t: Terminal, v: string -> bool)
    requires (t == And || t == Or) && Opens(e1, t)
    ensures Eval(Combine(e1, e2, t), v) == Join(t, Eval(e1, v), Eval(e2, v))
  {
    OpenValue(Combine(e1, e2, t), v);
    OpenValue(e1, v);
    AllHoldConcat(e1.terms, [e2], v);
    SomeHoldsConcat(e1.terms, [e2], v);
    SingleValue(e2, v);
  }

  lemma CombineFrontValue(e1: Expr, e2: Expr, t: Terminal, v: string -> bool)
    requires (t == And || t == Or) && !Opens(e1, t) && e1.Atom? && Opens(e2, t)
    ensures Eval(Combine(e1, e2, t), v) == Join(t, Eval(e1, v), Eval(e2, v))
  {
    OpenValue(Combine(e1, e2, t), v);
    OpenValue(e2, v);
    AllHoldConcat([e1], e2.terms, v);
    SomeHoldsConcat([e1], e2.terms, v);
    SingleValue(e1, v);
  }

  /** Double negation elimination keeps the value. */
  lemma DneValue(e: Expr, v: string -> bool)
    requires e.negs % 2 == 1 || e.negs >= 2
    ensures Eval(Dne(e), v) == Eval(e, v)
  {
    if e.negs % 2 == 0 {
      assert (e.negs - 2) % 2 == 0;
      if e.Construction? {
        assert Base(Dne(e), v) == Base(e, v);
      }
    }
  }

  /** On a once-negated conjunction or disjunction De Morgan's law keeps the value. */
  lemma DeMorgansValue(e: Expr, v: string -> bool)
    requires e.Construction? && e.negs == 1 && (e.terminal == And || e.terminal == Or)
    ensures Eval(DeMorgans(e), v) == Eval(e, v)
  {
    var r := DeMorgans(e);
    var ts := e.terms;
    OpenValue(r, v);
    forall i | 0 <= i < |ts| ensures Eval(r.terms[i], v) == !Eval(ts[i], v) {
      NegateValue(ts[i], v);
    }
    if e.terminal == And {
      if SomeHolds(r.terms, v) {
        var i :| 0 <= i < |ts| && Eval(r.terms[i], v);
        assert !Eval(ts[i], v);
      }
    } else {
      if !AllHold(r.terms, v) {
        var i :| 0 <= i < |ts| && !Eval(r.terms[i], v);
        assert Eval(ts[i], v);
      }
    }
  }

  /** Arrow elimination keeps the value of a two-term implication. */
  lemma ImplicationValue(e: Expr, v: string -> bool)
    requires e.Construction? && e.terminal == Implication && |e.terms| == 2
    ensures Eval(RewriteImplication(e), v) == Eval(e, v)
  {
    var r := RewriteImplication(e);
    NegateValue(e.terms[0], v);
    PairValue(r.terms[0], r.terms[1], v);
    assert Base(r, v) == SomeHolds(r.terms, v);
  }

  /** Arrow elimination keeps the value of a two-term equivalence. */
  lemma EquivalenceValue(e: Expr, v: string -> bool)
    requires e.Construction? && e.terminal == Equivalence && |e.terms| == 2
    ensures Eval(RewriteEquivalence(e), v) == Eval(e, v)
  {
    var r := RewriteEquivalence(e);
    PairValue(r.terms[0], r.terms[1], v);
    assert Base(r, v) == AllHold(r.terms, v);
  }

  /**
   * The structural test agrees with the source's textual one for any
   * rendering that is injective and writes a negation as "-" in front.
   */
  lemma IsNegatedByRendering(render: Expr -> string, e1: Expr, e2: Expr)
    requires forall x :: render(Negate(x)) == "-" + render(x)
    requires forall x, y :: render(x) == render(y) ==> x == y
    ensures IsNegated(e1, e2) <==> (render(e1) == "-" + render(e2) || render(e2) == "-" + render(e1))
  {
    if render(e1) == "-" + render(e2) {
      assert render(e1) == render(Negate(e2));
    }
    if render(e2) == "-" + render(e1) {
      assert render(e2) == render(Negate(e1));
    }
  }

  /** Two atoms are complements iff they share a name and their counts differ by one. */
  lemma IsNegatedAtoms(a: string, i: nat, b: string, j: nat)
    ensures IsNegated(Atom(a, i), Atom(b, j)) <==> a == b && (i == j + 1 || j == i + 1)
  {
  }

  /** A complementary pair always takes opposite values. */
  lemma IsNegatedValue(e1: Expr, e2: Expr, v: string -> bool)
    requires IsNegated(e1, e2)
    ensures Eval(e1, v) == !Eval(e2, v)
  {
    if e1 == Negate(e2) { NegateValue(e2, v); } else { NegateValue(e1, v); }
  }

  // ---------------------------------------------------------------------
  // Conversion to conjunctive normal form

  function Sum(s: seq<nat>): (n: nat)
    ensures forall i :: 0 <= i < |s| ==> s[i] <= n
  {
    if s == [] then 0
    else
      assert forall i :: 1 <= i < |s| ==> s[i] == s[1..][i - 1];
      s[0] + Sum(s[1..])
  }

  lemma SumPair(a: nat, b: nat)
    ensures Sum([a, b]) == a + b
  {
    assert Sum([b]) == b by { assert [b][1..] == []; }
    assert [a, b][1..] == [b];
  }

  /** A weight that every rewriting step of the conversion makes smaller; negations do not count. */
  function Weight(e: Expr): nat
  {
    match e
    case Atom(_, _) => 1
    case Construction(ts, t, _) =>
      var s := Sum(seq(|ts|, i requires 0 <= i < |ts| => Weight(ts[i])));
      if t == Implication then 2 + s else if t == Equivalence then 6 + 2 * s else 1 + s
  }

  lemma TermLighter(e: Expr, k: nat)
    requires e.Construction? && k < |e.terms|
    ensures Weight(e.terms[k]) < Weight(e)
  {
    var ts := e.terms;
    var s := seq(|ts|, i requires 0 <= i < |ts| => Weight(ts[i]));
    assert s[k] == Weight(ts[k]);
  }

  lemma PairWeight(e: Expr)
    requires e.Construction? && |e.terms| == 2
    ensures e.terminal == Implication ==> Weight(e) == 2 + Weight(e.terms[0]) + Weight(e.terms[1])
    ensures e.terminal == Or || e.terminal == And ==> Weight(e) == 1 + Weight(e.terms[0]) + Weight(e.terms[1])
    ensures e.terminal == Equivalence ==> Weight(e) == 6 + 2 * (Weight(e.terms[0]) + Weight(e.terms[1]))
  {
    var ts := e.terms;
    assert seq(|ts|, i requires 0 <= i < |ts| => Weight(ts[i])) == [Weight(ts[0]), Weight(ts[1])];
    SumPair(Weight(ts[0]), Weight(ts[1]));
  }

  lemma RewriteImplicationLighter(e: Expr)
    requires e.Construction? && e.terminal == Implication && |e.terms| == 2
    ensures Weight(RewriteImplication(e)) < Weight(e)
  {
    var r := RewriteImplication(e);
    PairWeight(e);
    PairWeight(r);
    assert Weight(Negate(e.terms[0])) == Weight(e.terms[0]);
  }

  lemma RewriteEquivalenceLighter(e: Expr)
    requires e.Construction? && e.terminal == Equivalence && |e.terms| == 2
    ensures Weight(RewriteEquivalence(e)) < Weight(e)
  {
    var r := RewriteEquivalence(e);
    PairWeight(e);
    PairWeight(r);
    PairWeight(r.terms[0]);
    PairWeight(r.terms[1]);
  }

  lemma DeMorgansWeight(e: Expr)
    requires e.Construction? && (e.terminal == And || e.terminal == Or)
    ensures Weight(DeMorgans(e)) == Weight(e)
  {
    var ts := e.terms;
    var ns := DeMorgans(e).terms;
    assert ns == NegateAll(ts);
    var ws := seq(|ns|, i requires 0 <= i < |ns| => Weight(ns[i]));
    var vs := seq(|ts|, i requires 0 <= i < |ts| => Weight(ts[i]));
    forall i | 0 <= i < |ts|
      ensures ws[i] == vs[i]
    {
      NegateWeight(ts[i]);
    }
    assert ws == vs;
  }

  /** Negation does not change the weight. */
  lemma NegateWeight(e: Expr)
    ensures Weight(Negate(e)) == Weight(e)
  {
    match e
    case Atom(_, _) =>
    case Construction(ts, t, k) =>
      assert Negate(e) == Construction(ts, t, k + 1);
  }

  lemma RewritesWellFormed(e: Expr)
    requires WellFormed(e) && e.Construction?
    ensures e.terminal == Implication ==> WellFormed(RewriteImplication(e))
    ensures e.terminal == Equivalence ==> WellFormed(RewriteEquivalence(e))
    ensures e.terminal == And || e.terminal == Or ==> WellFormed(DeMorgans(e))
  {
    if e.terminal == Implication {
      var r := RewriteImplication(e);
      assert WellFormed(r.terms[0]) && WellFormed(r.terms[1]);
    } else if e.terminal == Equivalence {
      var r := RewriteEquivalence(e);
      assert WellFormed(r.terms[0].terms[0]) && WellFormed(r.terms[0].terms[1]);
      assert WellFormed(r.terms[0]) && WellFormed(r.terms[1]);
    } else if e.terminal == And || e.terminal == Or {
      var r := DeMorgans(e);
      forall i | 0 <= i < |r.terms| ensures WellFormed(r.terms[i]) {
        assert WellFormed(e.terms[i]);
      }
    }
  }

  /** `e` with its negation count reduced to its parity. */
  function DropDoubleNegations(e: Expr): (r: Expr)
    ensures r.negs == e.negs % 2
    ensures GetName(r) == GetName(e) && GetTerms(r) == GetTerms(e) && GetTerminal(r) == GetTerminal(e)
  {
    match e
    case Atom(n, k) => Atom(n, k % 2)
    case Construction(ts, t, k) => Construction(ts, t, k % 2)
  }

  lemma DropDoubleNegationsValue(e: Expr, v: string -> bool)
    ensures Eval(DropDoubleNegations(e), v) == Eval(e, v)
  {
    if e.Construction? {
      assert Base(DropDoubleNegations(e), v) == Base(e, v);
    }
  }

  /** Both ways of dropping double negations keep well-formedness and weight. */
  lemma NegationStepKeepsShape(e: Expr)
    requires WellFormed(e)
    ensures WellFormed(DropDoubleNegations(e)) && Weight(DropDoubleNegations(e)) == Weight(e)
    ensures e.negs % 2 == 0 && e.negs > 1 ==> WellFormed(Dne(e)) && Weight(Dne(e)) == Weight(e)
  {
  }

  /** An un-negated conjunction. */
  predicate IsAndNode(e: Expr)
  {
    e.Construction? && e.terminal == And && e.negs == 0
  }

  /**
   * A disjunct the distribution step can open: an atom, an un-negated
   * conjunction, or an un-negated one-term disjunction around one.
   */
  predicate IsConjunct(e: Expr)
  {
    e.Atom? || IsAndNode(e) || (Opens(e, Or) && |e.terms| == 1 && IsAndNode(e.terms[0]))
  }

  /** Negation normal form without arrows: only conjunctions and disjunctions, negations only on atoms. */
  predicate Nnf(e: Expr)
  {
    match e
    case Atom(_, _) => true
    case Construction(ts, t, k) =>
      k == 0 && (t == And || t == Or) && forall i :: 0 <= i < |ts| ==> Nnf(ts[i])
  }

  /** The conjuncts of a disjunct: the terms of a construction, the atom alone for an atom. */
  function Conjuncts(e: Expr): (r: seq<Expr>)
    ensures e.Atom? ==> r == [e]
    ensures e.Construction? ==> r == e.terms
  {
    if e.Atom? then [e] else e.terms
  }

  lemma ConjunctValue(e: Expr, v: string -> bool)
    requires IsConjunct(e)
    ensures Eval(e, v) == AllHold(Conjuncts(e), v)
  {
    if e.Atom? {
      assert [e][0] == e;
    } else if !IsAndNode(e) {
      assert e.terms == [e.terms[0]];
    }
  }

  /** Every pairing of a term of `a` with a term of `b` as a disjunction, row by row. */
  function Cross(a: seq<Expr>, b: seq<Expr>): (r: seq<Expr>)
  {
    if a == [] then [] else Row(a[0], b) + Cross(a[1..], b)
  }

  /** The pairings of `x` with each term of `b`, in order. */
  function Row(x: Expr, b: seq<Expr>): (r: seq<Expr>)
    ensures |r| == |b| && forall j :: 0 <= j < |b| ==> r[j] == Combine(x, b[j], Or)
  {
    seq(|b|, j requires 0 <= j < |b| => Combine(x, b[j], Or))
  }

  /** Where row `i` of the pairings starts when each row holds `n` pairings. */
  function RowStart(i: nat, n: nat): nat
  {
    if i == 0 then 0 else RowStart(i - 1, n) + n
  }

  /** Row `i` starts at `i * n`. */
  lemma {:induction false} RowStartIsProduct(i: nat, n: nat)
    ensures RowStart(i, n) == i * n
  {
    if i > 0 {
      RowStartIsProduct(i - 1, n);
      assert i * n == (i - 1) * n + n;
    }
  }

  /** There is one pairing per term of `a` and term of `b`. */
  lemma {:induction false} CrossLength(a: seq<Expr>, b: seq<Expr>)
    ensures |Cross(a, b)| == |a| * |b|
  {
    if a != [] {
      CrossLength(a[1..], b);
      assert |a| * |b| == (|a| - 1) * |b| + |b|;
    }
  }

  /** The pairings are laid out row by row: the `j`th pairing of row `i` sits `j` after the row's start. */
  lemma CrossRowMajor(a: seq<Expr>, b: seq<Expr>, i: nat, j: nat)
    requires i < |a| && j < |b|
    ensures RowStart(i, |b|) + j < |Cross(a, b)|
    ensures Cross(a, b)[RowStart(i, |b|) + j] == Combine(a[i], b[j], Or)
  {
    CrossRows(a, b, i, j);
  }

  /** Row `i` of the pairings occupies the positions from its start on. */
  lemma {:induction false} CrossRows(a: seq<Expr>, b: seq<Expr>, i: nat, j: nat)
    requires i < |a| && j < |b|
    ensures RowStart(i, |b|) + j < |Cross(a, b)|
    ensures Cross(a, b)[RowStart(i, |b|) + j] == Row(a[i], b)[j]
  {
    var row, rest := Row(a[0], b), Cross(a[1..], b);
    assert Cross(a, b) == row + rest;
    if i > 0 {
      assert a[1..][i - 1] == a[i];
      CrossRows(a[1..], b, i - 1, j);
    }
  }



  /** The pairings all hold iff all of `a` or all of `b` holds: distributivity. */
  lemma {:induction false} CrossValue(a: seq<Expr>, b: seq<Expr>, v: string -> bool)
    ensures AllHold(Cross(a, b), v) == (AllHold(a, v) || AllHold(b, v))
  {
    if a != [] {
      var row, rest := Row(a[0], b), Cross(a[1..], b);
      calc {
        AllHold(Cross(a, b), v);
      == { AllHoldConcat(row, rest, v); }
        AllHold(row, v) && AllHold(rest, v);
      == { RowValue(a[0], b, v); CrossValue(a[1..], b, v); }
        (Eval(a[0], v) || AllHold(b, v)) && (AllHold(a[1..], v) || AllHold(b, v));
      == { AllHoldCons(a, v); }
        AllHold(a, v) || AllHold(b, v);
      }
    }
  }

  /** A non-empty list all holds iff its first term and the rest do. */
  lemma AllHoldCons(a: seq<Expr>, v: string -> bool)
    requires a != []
    ensures AllHold(a, v) == (Eval(a[0], v) && AllHold(a[1..], v))
  {
    assert a == [a[0]] + a[1..];
    AllHoldConcat([a[0]], a[1..], v);
    SingleValue(a[0], v);
  }

  /** The pairings of `x` all hold iff `x` holds or all of `b` holds. */
  lemma RowValue(x: Expr, b: seq<Expr>, v: string -> bool)
    ensures AllHold(Row(x, b), v) == (Eval(x, v) || AllHold(b, v))
  {
    var row := Row(x, b);
    forall j | 0 <= j < |b| ensures Eval(row[j], v) == (Eval(x, v) || Eval(b[j], v)) {
      CombineValue(x, b[j], Or, v);
    }
  }

  lemma CombineNnf(e1: Expr, e2: Expr, t: Terminal)
    requires t == And || t == Or
    requires Nnf(e1) && Nnf(e2)
    ensures Nnf(Combine(e1, e2, t))
  {
    var r := Combine(e1, e2, t);
    forall i | 0 <= i < |r.terms| ensures Nnf(r.terms[i]) {
      if Opens(e1, t) {
        assert r.terms[i] in e1.terms || r.terms[i] == e2;
      } else if e1.Atom? && Opens(e2, t) {
        assert r.terms[i] == e1 || r.terms[i] in e2.terms;
      }
    }
  }

  lemma {:induction false} CrossNnf(a: seq<Expr>, b: seq<Expr>)
    requires forall x :: x in a ==> Nnf(x)
    requires forall y :: y in b ==> Nnf(y)
    ensures forall z :: z in Cross(a, b) ==> Nnf(z)
  {
    if a != [] {
      var row := Row(a[0], b);
      forall j | 0 <= j < |b| ensures Nnf(row[j]) {
        CombineNnf(a[0], b[j], Or);
      }
      CrossNnf(a[1..], b);
    }
  }

  /**
   * One distribution step with the evidently intended treatment of literals:
   * the first two disjuncts are replaced, at the front, by one conjunction of
   * every pairing of their conjuncts.
   */
  function DistributeStepCorrected(ds: seq<Expr>): (r: seq<Expr>)
    requires |ds| >= 2
    ensures |r| == |ds| - 1 && r[1..] == ds[2..]
    ensures IsAndNode(r[0]) && r[0].terms == Cross(Conjuncts(ds[0]), Conjuncts(ds[1]))
  {
    [Construction(Cross(Conjuncts(ds[0]), Conjuncts(ds[1])), And, 0)] + ds[2..]
  }

  /**
   * One distribution step as the source performs it: the conjuncts are taken
   * with getTerms(), which is null for an atom, so an atom among the first two
   * disjuncts raises a NullPointerException (the second only once the loop
   * over a non-empty first reaches it).
   */
  function DistributeStep(ds: seq<Expr>): (r: Result<seq<Expr>>)
    requires |ds| >= 2
    ensures r.Err? <==> ds[0].Atom? || (ds[1].Atom? && |ds[0].terms| > 0)
    ensures r.Err? ==> r.fault == NullPointer
    ensures r.Ok? ==> r.value == DistributeStepCorrected(ds)
  {
    if ds[0].Atom? || (ds[1].Atom? && |ds[0].terms| > 0) then Err(NullPointer)
    else Ok(DistributeStepCorrected(ds))
  }

  /** Every element of the list is a disjunct the distribution step can open, in negation normal form. */
  predicate Disjuncts(ds: seq<Expr>)
  {
    forall k :: 0 <= k < |ds| ==> IsConjunct(ds[k]) && Nnf(ds[k])
  }

  /** The distribution step keeps the shape of the disjuncts. */
  lemma DistributeStepShape(ds: seq<Expr>)
    requires |ds| >= 2 && Disjuncts(ds)
    ensures Disjuncts(DistributeStepCorrected(ds))
  {
    var r := DistributeStepCorrected(ds);
    var a := Conjuncts(ds[0]);
    var b := Conjuncts(ds[1]);
    assert forall x :: x in a ==> Nnf(x);
    assert forall y :: y in b ==> Nnf(y);
    CrossNnf(a, b);
    assert Nnf(r[0]) by {
      forall i | 0 <= i < |r[0].terms| ensures Nnf(r[0].terms[i]) {
        assert r[0].terms[i] in Cross(a, b);
      }
    }
    assert forall k :: 1 <= k < |r| ==> r[k] == ds[k + 1];
  }

  /** The distribution step keeps the value of the disjunction. */
  lemma DistributeStepValue(ds: seq<Expr>, v: string -> bool)
    requires |ds| >= 2 && Disjuncts(ds)
    ensures SomeHolds(DistributeStepCorrected(ds), v) == SomeHolds(ds, v)
  {
    var r := DistributeStepCorrected(ds);
    var a := Conjuncts(ds[0]);
    var b := Conjuncts(ds[1]);
    assert r == [r[0]] + ds[2..];
    assert ds == [ds[0], ds[1]] + ds[2..];
    SomeHoldsConcat([r[0]], ds[2..], v);
    SomeHoldsConcat([ds[0], ds[1]], ds[2..], v);
    PairValue(ds[0], ds[1], v);
    assert SomeHolds([r[0]], v) == Eval(r[0], v) by { assert [r[0]][0] == r[0]; }
    OpenValue(r[0], v);
    CrossValue(a, b, v);
    ConjunctValue(ds[0], v);
    ConjunctValue(ds[1], v);
  }

  /** The conjunction of the terms under And, their disjunction under Or. */
  ghost function Folded(ts: seq<Expr>, c: Terminal, v: string -> bool): bool
  {
    if c == And then AllHold(ts, v) else SomeHolds(ts, v)
  }

  /** `acc` has the value of the terms joined by `c` under every assignment. */
  ghost predicate FoldsTo(acc: Expr, ts: seq<Expr>, c: Terminal)
  {
    forall v :: Eval(acc, v) == Folded(ts, c, v)
  }

  /** The first converted term stands for the first term alone. */
  lemma FoldFirst(t: Expr, ts: seq<Expr>, c: Terminal)
    requires |ts| >= 1 && forall v :: Eval(t, v) == Eval(ts[0], v)
    ensures FoldsTo(t, ts[..1], c)
  {
    forall v ensures Eval(t, v) == Folded(ts[..1], c, v) {
      SingleValue(ts[0], v);
      assert ts[..1] == [ts[0]];
    }
  }

  /** Folding one more converted operand in with Combine extends the conjunction (disjunction) by it. */
  lemma FoldNext(acc: Expr, t: Expr, ts: seq<Expr>, i: nat, c: Terminal)
    requires c == And || c == Or
    requires i < |ts| && forall v :: Eval(t, v) == Eval(ts[i], v)
    requires FoldsTo(acc, ts[..i], c)
    ensures FoldsTo(Combine(acc, t, c), ts[..i + 1], c)
  {
    forall v ensures Eval(Combine(acc, t, c), v) == Folded(ts[..i + 1], c, v) {
      FoldStep(acc, t, ts, i, c, v);
    }
  }

  lemma FoldStep(acc: Expr, t: Expr, ts: seq<Expr>, i: nat, c: Terminal, v: string -> bool)
    requires c == And || c == Or
    requires i < |ts| && Eval(t, v) == Eval(ts[i], v)
    requires Eval(acc, v) == Folded(ts[..i], c, v)
    ensures Eval(Combine(acc, t, c), v) == Folded(ts[..i + 1], c, v)
  {
    CombineValue(acc, t, c, v);
    assert ts[..i + 1] == ts[..i] + [ts[i]];
    SingleValue(ts[i], v);
    if c == And {
      AllHoldConcat(ts[..i], [ts[i]], v);
    } else {
      SomeHoldsConcat(ts[..i], [ts[i]], v);
    }
  }

  /** An un-negated disjunction whose terms are at least two openable disjuncts. */
  predicate OrFold(e: Expr)
  {
    Opens(e, Or) && |e.terms| >= 2 && Disjuncts(e.terms)
  }

  lemma OrFoldStep(acc: Expr, t: Expr)
    requires (IsConjunct(acc) && Nnf(acc)) || OrFold(acc)
    requires IsConjunct(t) && Nnf(t)
    ensures OrFold(Combine(acc, t, Or))
  {
    var r := Combine(acc, t, Or);
    if Opens(acc, Or) {
      assert forall k :: 0 <= k < |acc.terms| ==> r.terms[k] == acc.terms[k];
      if !OrFold(acc) {
        assert IsAndNode(acc.terms[0]) && Nnf(acc.terms[0]);
      }
    } else if acc.Atom? && Opens(t, Or) {
      assert r.terms == [acc, t.terms[0]];
    }
  }

  /** Every expression of the list is an un-negated atom. */
  predicate AtomsOnly(ts: seq<Expr>)
  {
    forall k :: 0 <= k < |ts| ==> ts[k].Atom? && ts[k].negs == 0
  }

  /** A conjunction of un-negated atoms written with an odd number (three or more) of negations in front. */
  predicate OddlyNegatedAtomConjunction(e: Expr)
  {
    e.Construction? && e.terminal == And && e.negs >= 3 && e.negs % 2 == 1 && AtomsOnly(e.terms)
  }

  /** An un-negated disjunction whose first disjunct is an atom with at most one negation. */
  predicate AtomLedDisjunction(e: Expr)
  {
    e.Construction? && e.terminal == Or && e.negs == 0 && |e.terms| >= 1 && e.terms[0].Atom? && e.terms[0].negs < 2
  }

  /**
   * The distribution loop of the conversion: the first two disjuncts are
   * replaced by their pairwise disjunctions until one conjunction is left.
   */
  method Distribute(ds: seq<Expr>, corrected: bool) returns (r: Result<seq<Expr>>)
    requires |ds| >= 2 && Disjuncts(ds)
    ensures corrected ==> r.Ok?
    ensures r.Err? ==> r.fault == NullPointer
    ensures r.Ok? ==> |r.value| == 1 && IsAndNode(r.value[0]) && Nnf(r.value[0])
    ensures corrected ==> forall v :: SomeHolds(r.value, v) == SomeHolds(ds, v)
    ensures !corrected && ds[0].Atom? ==> r.Err?
  {
    var cur := ds;
    while |cur| > 1
      invariant |cur| >= 1 && Disjuncts(cur)
      invariant |cur| >= 2 || IsAndNode(cur[0])
      invariant corrected ==> forall v :: SomeHolds(cur, v) == SomeHolds(ds, v)
      invariant !corrected && ds[0].Atom? ==> cur == ds
      decreases |cur|
    {
      DistributeStepShape(cur);
      if corrected {
        forall v ensures SomeHolds(DistributeStepCorrected(cur), v) == SomeHolds(cur, v) {
          DistributeStepValue(cur, v);
        }
        cur := DistributeStepCorrected(cur);
      } else {
        var step := DistributeStep(cur);
        if step.Err? {
          return Err(step.fault);
        }
        cur := step.value;
      }
    }
    return Ok(cur);
  }

  /**
   * The fold of the conversion: every term converted, then joined left to
   * right under the node's connective with Combine, the first taken as is.
   */
  method TransformTerms(x: Expr, corrected: bool) returns (r: Result<Expr>)
    requires WellFormed(x) && x.Construction? && (x.terminal == And || x.terminal == Or)
    ensures corrected ==> r.Ok?
    ensures r.Err? ==> r.fault == NullPointer
    ensures r.Ok? && x.terminal == And ==> IsAndNode(r.value) && Nnf(r.value)
    ensures r.Ok? && x.terminal == Or ==> OrFold(r.value)
    ensures corrected && x.terminal == And ==> forall v :: Eval(r.value, v) == AllHold(x.terms, v)
    ensures corrected && x.terminal == Or ==> forall v :: Eval(r.value, v) == SomeHolds(x.terms, v)
    ensures !corrected && x.terminal == And && AtomsOnly(x.terms) ==> r == Ok(Construction(x.terms, And, 0))
    ensures !corrected && x.terminal == Or && x.terms[0].Atom? && x.terms[0].negs < 2 && r.Ok? ==> r.value.terms[0] == x.terms[0]
    decreases Weight(x), 0, 0
  {
    var ts := x.terms;
    var c := x.terminal;
    var special := !corrected && c == And && AtomsOnly(ts);
    var atomLed := !corrected && c == Or && ts[0].Atom? && ts[0].negs < 2;
    var acc: Option<Expr> := None;
    var i := 0;
    while i < |ts|
      invariant 0 <= i <= |ts|
      invariant acc.None? <==> i == 0
      invariant i == 1 ==> IsConjunct(acc.value) && Nnf(acc.value)
      invariant i >= 2 && c == And ==> IsAndNode(acc.value) && Nnf(acc.value)
      invariant i >= 2 && c == Or ==> OrFold(acc.value)
      invariant corrected && i > 0 ==> FoldsTo(acc.value, ts[..i], c)
      invariant (special || atomLed) && i == 1 ==> acc.value == ts[0]
      invariant special && i >= 2 ==> acc.value == Construction(ts[..i], And, 0)
      invariant atomLed && i >= 2 ==> acc.value.terms[0] == ts[0]
    {
      TermLighter(x, i);
      var t := TransformWith(ts[i], corrected);
      if t.Err? {
        return t;
      }
      if acc.None? {
        if corrected {
          FoldFirst(t.value, ts, c);
        }
        acc := Some(t.value);
      } else {
        var next := Combine(acc.value, t.value, c);
        if corrected {
          FoldNext(acc.value, t.value, ts, i, c);
        }
        if c == And {
          CombineNnf(acc.value, t.value, c);
        } else {
          OrFoldStep(acc.value, t.value);
        }
        if special {
          assert ts[..i + 1] == ts[..i] + [ts[i]];
        }
        acc := Some(next);
      }
      ghost var done := ts[..i + 1];
      assert corrected ==> FoldsTo(acc.value, done, c);
      i := i + 1;
      assert done == ts[..i];
    }
    assert ts[..i] == ts;
    r := Ok(acc.value);
    assert corrected ==> FoldsTo(r.value, ts, c);
  }

  /**
   * Conversion to conjunctive normal form. With `corrected` unset this is the
   * source's algorithm; with it set, an odd negation count is reduced to one
   * and a literal disjunct counts as a one-term conjunction.
   */
  method TransformWith(e: Expr, corrected: bool) returns (r: Result<Expr>)
    requires WellFormed(e)
    ensures corrected ==> r.Ok?
    ensures r.Err? ==> r.fault == NullPointer
    ensures r.Ok? ==> IsConjunct(r.value) && Nnf(r.value)
    ensures corrected && r.Ok? ==> forall v :: Eval(r.value, v) == Eval(e, v)
    ensures !corrected && e.Atom? && e.negs < 2 ==> r == Ok(e)
    ensures !corrected && OddlyNegatedAtomConjunction(e) ==> r == Ok(Construction(e.terms, And, 0))
    ensures !corrected && AtomLedDisjunction(e) ==> r.Err?
    decreases Weight(e), 1, e.negs
  {
    var x := e;
    if corrected {
      x := DropDoubleNegations(e);
      forall v ensures Eval(x, v) == Eval(e, v) {
        DropDoubleNegationsValue(e, v);
      }
    } else if e.negs % 2 == 0 && e.negs > 1 {
      x := Dne(e);
    }
    NegationStepKeepsShape(e);
    assert WellFormed(x) && Weight(x) == Weight(e);

    if x.Atom? {
      return Ok(x);
    }
    if x.terminal == Implication {
      RewritesWellFormed(x);
      RewriteImplicationLighter(x);
      r := TransformWith(RewriteImplication(x), corrected);
      if corrected {
        forall v ensures Eval(r.value, v) == Eval(e, v) {
          ImplicationValue(x, v);
        }
      }
      return;
    }
    if x.terminal == Equivalence {
      RewritesWellFormed(x);
      RewriteEquivalenceLighter(x);
      r := TransformWith(RewriteEquivalence(x), corrected);
      if corrected {
        forall v ensures Eval(r.value, v) == Eval(e, v) {
          EquivalenceValue(x, v);
        }
      }
      return;
    }
    if x.negs == 1 {
      RewritesWellFormed(x);
      DeMorgansWeight(x);
      r := TransformWith(DeMorgans(x), corrected);
      if corrected {
        forall v ensures Eval(r.value, v) == Eval(e, v) {
          DeMorgansValue(x, v);
        }
      }
      return;
    }
    var folded := TransformTerms(x, corrected);
    if folded.Err? {
      return folded;
    }
    if x.terminal == And {
      if corrected {
        forall v ensures Eval(folded.value, v) == Eval(e, v) {
          OpenValue(x, v);
        }
      }
      return folded;
    }
    var res := folded.value;
    var ds := Distribute(res.terms, corrected);
    if ds.Err? {
      return Err(ds.fault);
    }
    r := Ok(Construction(ds.value, Or, res.negs));
    if corrected {
      forall v ensures Eval(r.value, v) == Eval(e, v) {
        OpenValue(r.value, v);
        OpenValue(res, v);
        OpenValue(x, v);
      }
    }
  }

  /**
   * The source's conversion to conjunctive normal form as written. A
   * conjunction of atoms under three (five, ...) negations comes back without
   * its negations, and a disjunction led by a literal raises a
   * NullPointerException in the distribution loop.
   */
  method TransformAsWritten(e: Expr) returns (r: Result<Expr>)
    requires WellFormed(e)
    ensures r.Err? ==> r.fault == NullPointer
    ensures r.Ok? ==> IsConjunct(r.value) && Nnf(r.value)
    ensures OddlyNegatedAtomConjunction(e) ==> r == Ok(Construction(e.terms, And, 0))
    ensures AtomLedDisjunction(e) ==> r.Err?
  {
    r := TransformWith(e, false);
  }

  /**
   * Conversion towards conjunctive normal form: the result has the input's
   * value under every assignment, is in negation normal form, and is an atom,
   * an un-negated conjunction or a one-term disjunction around one. It need
   * not be flat: a conjunction can stay nested inside a disjunct (see
   * NestedConjunctionKept).
   */
  method Transform(e: Expr) returns (r: Expr)
    requires WellFormed(e)
    ensures IsConjunct(r) && Nnf(r)
    ensures forall v :: Eval(r, v) == Eval(e, v)
  {
    var res := TransformWith(e, true);
    r := res.value;
  }

  /** What the source's conversion returns for an oddly negated conjunction of atoms has the opposite value. */
  lemma DroppedNegationsFlipValue(e: Expr, v: string -> bool)
    requires OddlyNegatedAtomConjunction(e)
    ensures Eval(Construction(e.terms, And, 0), v) == !Eval(e, v)
  {
  }

  /** Inputs that show the two defects: ---(A & B) and A | B. */
  lemma TransformCounterexamples()
    ensures WellFormed(Construction([Atom("A", 0), Atom("B", 0)], And, 3))
    ensures OddlyNegatedAtomConjunction(Construction([Atom("A", 0), Atom("B", 0)], And, 3))
    ensures WellFormed(Construction([Atom("A", 0), Atom("B", 0)], Or, 0))
    ensures AtomLedDisjunction(Construction([Atom("A", 0), Atom("B", 0)], Or, 0))
  {
    var ab := [Atom("A", 0), Atom("B", 0)];
    assert ab[0].Atom? && ab[1].Atom?;
  }

  /**
   * Why the conversion's result need not be flat, on
   * ((X | (Y & Z)) & (P | (Q & R))) | E: the AND fold appends the second
   * converted conjunction whole to the first, and distributing E over the
   * result puts that conjunction inside a disjunct.
   */
  lemma NestedConjunctionKept()
    ensures var first := Construction([Combine(Atom("X", 0), Atom("Y", 0), Or), Combine(Atom("X", 0), Atom("Z", 0), Or)], And, 0);
            var second := Construction([Combine(Atom("P", 0), Atom("Q", 0), Or), Combine(Atom("P", 0), Atom("R", 0), Or)], And, 0);
            var folded := Combine(first, second, And);
            var step := DistributeStepCorrected([folded, Atom("E", 0)]);
            folded.terms == first.terms + [second] && IsAndNode(second) &&
            |step[0].terms| == 3 && step[0].terms[2] == Construction([second, Atom("E", 0)], Or, 0)
  {
    var x, y, z := Atom("X", 0), Atom("Y", 0), Atom("Z", 0);
    var p, q, r, e := Atom("P", 0), Atom("Q", 0), Atom("R", 0), Atom("E", 0);
    var first := Construction([Combine(x, y, Or), Combine(x, z, Or)], And, 0);
    var second := Construction([Combine(p, q, Or), Combine(p, r, Or)], And, 0);
    var folded := Combine(first, second, And);
    assert Opens(first, And);
    assert folded.terms == first.terms + [second];
    assert |folded.terms| == 3 && folded.terms[2] == second;
    var step := DistributeStepCorrected([folded, e]);
    assert Conjuncts(e) == [e];
    assert step[0].terms == Cross(folded.terms, [e]);
    CrossLength(folded.terms, [e]);
    RowStartIsProduct(2, 1);
    CrossRowMajor(folded.terms, [e], 2, 0);
    assert !Opens(second, Or);
    assert Combine(second, e, Or) == Construction([second, e], Or, 0);
  }
}
