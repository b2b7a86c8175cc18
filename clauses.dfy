/**
 * Clauses as both packages store them: a clause is a set of literals (atoms
 * with a negation count), a clause normal form is a set of clauses, and a
 * clause normal form holds when every clause has a literal that holds.
 */
module Clauses {
  import opened LogicExpression
  import LogicMethods

  datatype Literal = Literal(name: string, negs: nat)
  type Clause = set<Literal>
  type Cnf = set<Clause>

  /** The atom expression a literal stands for. */
  function ToExpr(l: Literal): (e: Expr)
    ensures e.Atom? && e.name == l.name && e.negs == l.negs
  {
    Atom(l.name, l.negs)
  }

  /** Same name, negation counts one apart: the source's isNegated on two atoms. */
  predicate Complements(a: Literal, b: Literal)
  {
    a.name == b.name && (a.negs == b.negs + 1 || b.negs == a.negs + 1)
  }

  lemma ComplementsIsNegated(a: Literal, b: Literal)
    ensures Complements(a, b) <==> LogicMethods.IsNegated(ToExpr(a), ToExpr(b))
  {
    LogicMethods.IsNegatedAtoms(a.name, a.negs, b.name, b.negs);
  }

  /** Value of a literal when each name `n` has the value `v(n)`. */
  function LitValue(l: Literal, v: string -> bool): bool
  {
    Polar(v(l.name), l.negs)
  }

  predicate ClauseHolds(c: Clause, v: string -> bool)
  {
    exists l :: l in c && LitValue(l, v)
  }

  predicate CnfHolds(f: Cnf, v: string -> bool)
  {
    forall c :: c in f ==> ClauseHolds(c, v)
  }

  ghost predicate Satisfiable(f: Cnf)
  {
    exists v :: CnfHolds(f, v)
  }

  /** Every literal carries at most one negation, as the scanners produce them. */
  predicate AtMostOneNegation(f: Cnf)
  {
    forall c, l :: c in f && l in c ==> l.negs <= 1
  }

  lemma ComplementsValue(a: Literal, b: Literal, v: string -> bool)
    requires Complements(a, b)
    ensures LitValue(a, v) == !LitValue(b, v)
  {
  }

  /** Some literal of `c1` complements some literal of `c2`. */
  predicate ComplementaryClauses(c1: Clause, c2: Clause)
  {
    exists a, b :: a in c1 && b in c2 && Complements(a, b)
  }

  /** Every literal occurring in `f`. */
  function Literals(f: Cnf): (r: set<Literal>)
    ensures forall c, l :: c in f && l in c ==> l in r
    ensures forall l :: l in r ==> exists c :: c in f && l in c
  {
    set c, l | c in f && l in c :: l
  }

  // ---------------------------------------------------------------------
  // Resolution

  /** The resolvent of `c1` and `c2` on the literal pair `a`, `b`. */
  function Resolvent(c1: Clause, a: Literal, c2: Clause, b: Literal): (c: Clause)
    ensures forall l :: l in c <==> (l in c1 && l != a) || (l in c2 && l != b)
  {
    (c1 - {a}) + (c2 - {b})
  }

  /** A resolvent holds under every assignment that satisfies both antecedents. */
  lemma ResolventSound(c1: Clause, a: Literal, c2: Clause, b: Literal, v: string -> bool)
    requires a in c1 && b in c2 && Complements(a, b)
    requires ClauseHolds(c1, v) && ClauseHolds(c2, v)
    ensures ClauseHolds(Resolvent(c1, a, c2, b), v)
  {
    ComplementsValue(a, b, v);
    if LitValue(a, v) {
      var l :| l in c2 && LitValue(l, v);
      assert l != b;
    } else {
      var l :| l in c1 && LitValue(l, v);
      assert l != a;
    }
  }

  /** Every set of literals drawn from `u`. */
  ghost function PowerSet(u: set<Literal>): (p: set<Clause>)
    ensures forall c :: c <= u ==> c in p
    ensures forall c :: c in p ==> c <= u
    decreases u
  {
    if u == {} then
      assert forall c: Clause :: c <= u ==> c == {};
      {{}}
    else
      var x :| x in u;
      var q := PowerSet(u - {x});
      assert forall c :: c <= u ==> c - {x} in q;
      assert forall c :: c <= u && x in c ==> c == (c - {x}) + {x};
      q + set c | c in q :: c + {x}
  }

  // ---------------------------------------------------------------------
  // Unit reduction

  /** The clause with every complement of `unit` deleted. */
  function Shrink(c: Clause, unit: Literal): (r: Clause)
    ensures forall l :: l in r <==> l in c && !Complements(l, unit)
  {
    set l | l in c && !Complements(l, unit)
  }

  /**
   * Reduction by a unit: clauses containing `unit` are dropped and the
   * complements of `unit` are deleted from the others.
   */
  function Reduced(unit: Literal, f: Cnf): (r: Cnf)
    ensures forall c :: c in r <==> exists d :: d in f && unit !in d && c == Shrink(d, unit)
  {
    set d | d in f && unit !in d :: Shrink(d, unit)
  }

  /** When the unit holds, reduction keeps exactly the satisfying assignments. */
  lemma ReducedValue(unit: Literal, f: Cnf, v: string -> bool)
    requires LitValue(unit, v)
    ensures CnfHolds(Reduced(unit, f), v) <==> CnfHolds(f, v)
  {
    if CnfHolds(f, v) {
      forall c | c in Reduced(unit, f) ensures ClauseHolds(c, v) {
        var d :| d in f && unit !in d && c == Shrink(d, unit);
        var l :| l in d && LitValue(l, v);
        if Complements(l, unit) {
          ComplementsValue(l, unit, v);
        }
      }
    }
    if CnfHolds(Reduced(unit, f), v) {
      forall d | d in f ensures ClauseHolds(d, v) {
        if unit !in d {
          assert Shrink(d, unit) in Reduced(unit, f);
          var l :| l in Shrink(d, unit) && LitValue(l, v);
        }
      }
    }
  }

  /** No clause left after reduction holds the unit or a complement of it. */
  lemma ReducedDropsUnit(unit: Literal, f: Cnf)
    ensures forall c, l :: c in Reduced(unit, f) && l in c ==> l != unit && !Complements(l, unit)
  {
  }

  /** Reduction keeps the empty clause. */
  lemma ReducedKeepsEmpty(unit: Literal, f: Cnf)
    ensures {} in f ==> {} in Reduced(unit, f)
  {
    if {} in f {
      assert Shrink({}, unit) == {};
    }
  }

  /** Under at most one negation, the unit's name is gone after reduction. */
  lemma ReducedDropsName(unit: Literal, f: Cnf)
    requires AtMostOneNegation(f) && unit.negs <= 1
    ensures forall c, l :: c in Reduced(unit, f) && l in c ==> l.name != unit.name
  {
    ReducedDropsUnit(unit, f);
  }

  lemma {:induction false} ImageNoLarger(s: Cnf, unit: Literal)
    ensures |set d | d in s && unit !in d :: Shrink(d, unit)| <= |s|
    decreases |s|
  {
    if s != {} {
      var x :| x in s;
      var s' := s - {x};
      ImageNoLarger(s', unit);
      var img := set d | d in s && unit !in d :: Shrink(d, unit);
      var img' := set d | d in s' && unit !in d :: Shrink(d, unit);
      assert img <= img' + {Shrink(x, unit)};
      assert |img' + {Shrink(x, unit)}| <= |img'| + 1;
      SubsetNoLarger(img, img' + {Shrink(x, unit)});
      assert |s'| == |s| - 1;
    }
  }

  lemma SubsetNoLarger<T>(a: set<T>, b: set<T>)
    requires a <= b
    ensures |a| <= |b|
  {
    assert b == a + (b - a);
  }

  /** Reduction never adds clauses, and removes at least one when the unit is a clause. */
  lemma ReducedSize(unit: Literal, f: Cnf)
    ensures |Reduced(unit, f)| <= |f|
    ensures {unit} in f ==> |Reduced(unit, f)| < |f|
  {
    ImageNoLarger(f, unit);
    if {unit} in f {
      var rest := f - {{unit}};
      ImageNoLarger(rest, unit);
      assert Reduced(unit, f) == set d | d in rest && unit !in d :: Shrink(d, unit);
    }
  }
}
