/**
 * Unit reduction and the Davis-Putnam procedure of the binary package
 * (reasoning2 LogicMethods.reduceCNF and davisPutnam). reduceCNF tests for
 * a complement with the rendering-based isNegated, which never holds between
 * two atoms, and davisPutnam only propagates the unit clauses of its input.
 */
module BinaryDavisPutnam {
  import opened Wrappers
  import opened Text
  import opened Clauses
  import opened BinaryExpression
  import opened BinaryLogicMethods
  import opened BinaryLogicModel
  import LogicExpression

  /** The atom a literal of a clause stands for. */
  function AtomOf(l: Literal): (e: Expr)
    ensures e.Atom? && e.name == l.name && e.negs == l.negs
  {
    Atom(l.name, l.negs)
  }

  /** A name the scanner reads: an atom name, or the empty name read at the end of a rendering. */
  predicate ScannedName(n: string)
  {
    IsAtomName(n) || n == ""
  }

  /** Every literal of `f` carries a scanned name. */
  predicate ScannedNames(f: Cnf)
  {
    forall c, l :: c in f && l in c ==> ScannedName(l.name)
  }

  // ---------------------------------------------------------------------
  // reduceCNF

  /** The clause with every literal the source's isNegated pairs with `unit` deleted. */
  function Trimmed(c: Clause, unit: Literal): (r: Clause)
    ensures forall l :: l in r <==> l in c && !IsNegated(AtomOf(l), AtomOf(unit))
  {
    set l | l in c && !IsNegated(AtomOf(l), AtomOf(unit))
  }

  /** What the source's reduceCNF returns: clauses holding `unit` dropped, the others trimmed. */
  function ReducedAsWritten(unit: Literal, f: Cnf): (r: Cnf)
    ensures forall c :: c in r <==> exists d :: d in f && unit !in d && c == Trimmed(d, unit)
  {
    set d | d in f && unit !in d :: Trimmed(d, unit)
  }

  /** Reduces a fresh copy of the clause set by `unit`; the input is not touched. */
  method ReduceCnf(unit: Literal, cnf: Cnf) returns (r: Cnf)
    ensures r == ReducedAsWritten(unit, cnf)
  {
    var newcnf: Cnf := {};
    var clauses := Elements(cnf);
    for i := 0 to |clauses|
      invariant forall c :: c in newcnf <==> exists k :: 0 <= k < i && unit !in clauses[k] && c == Trimmed(clauses[k], unit)
    {
      if unit !in clauses[i] {
        var atoms := Elements(clauses[i]);
        var newclause: Clause := {};
        for j := 0 to |atoms|
          invariant forall l :: l in newclause <==> l in atoms[..j] && !IsNegated(AtomOf(l), AtomOf(unit))
        {
          if !IsNegated(AtomOf(atoms[j]), AtomOf(unit)) {
            newclause := newclause + {atoms[j]};
          }
        }
        assert atoms[..|atoms|] == atoms;
        assert newclause == Trimmed(clauses[i], unit);
        newcnf := newcnf + {newclause};
      }
    }
    TrimmedListed(unit, clauses, cnf, newcnf);
    return newcnf;
  }

  /** A set built from an iteration order of the clauses is the reduced set. */
  lemma TrimmedListed(unit: Literal, clauses: seq<Clause>, cnf: Cnf, r: Cnf)
    requires Enumerates(clauses, cnf)
    requires forall c :: c in r <==> exists k :: 0 <= k < |clauses| && unit !in clauses[k] && c == Trimmed(clauses[k], unit)
    ensures r == ReducedAsWritten(unit, cnf)
  {
    forall c | c in ReducedAsWritten(unit, cnf) ensures c in r {
      var d :| d in cnf && unit !in d && c == Trimmed(d, unit);
      var k :| 0 <= k < |clauses| && clauses[k] == d;
    }
  }

  /** An atom with a scanned name is rendered as nothing, or starting with something other than '¬'. */
  lemma AtomOpens(l: Literal)
    requires ScannedName(l.name)
    ensures var s := BinaryExpression.ToString(AtomOf(l)); s == [] || s[0] != '¬'
  {
    if l.negs > 0 {
      ShowSucc(Atom(l.name, l.negs - 1), AtomMark);
    }
  }

  /** The source's isNegated never pairs two literals with scanned names. */
  lemma LiteralsNeverNegated(a: Literal, b: Literal)
    requires ScannedName(a.name) && ScannedName(b.name)
    ensures !IsNegated(AtomOf(a), AtomOf(b))
  {
    AtomOpens(a);
    AtomOpens(b);
    assert ("¬" + BinaryExpression.ToString(AtomOf(b)))[0] == '¬';
    assert ("¬" + BinaryExpression.ToString(AtomOf(a)))[0] == '¬';
  }

  /**
   * As written, reduction by a unit only drops the clauses holding it: no
   * complement of the unit is ever deleted.
   */
  lemma ReducedAsWrittenOnlyDrops(unit: Literal, f: Cnf)
    requires ScannedNames(f) && ScannedName(unit.name)
    ensures ReducedAsWritten(unit, f) == set d | d in f && unit !in d
  {
    forall d | d in f && unit !in d ensures Trimmed(d, unit) == d {
      forall l | l in d ensures !IsNegated(AtomOf(l), AtomOf(unit)) {
        LiteralsNeverNegated(l, unit);
      }
    }
  }

  /** Under the intended rendering the test is the complement relation the n-ary package uses. */
  lemma CorrectedTestComplements(a: Literal, b: Literal)
    requires IsAtomName(a.name) && IsAtomName(b.name)
    ensures IsNegatedCorrected(AtomOf(a), AtomOf(b)) <==> Complements(a, b)
  {
    AtomsNegatedCorrected(a.name, a.negs, b.name, b.negs);
  }

  /**
   * Reducing {¬A} by A keeps it as written; the intended reduction, which
   * deletes complements, leaves the empty clause.
   */
  lemma UnitComplementKept()
    ensures var a, na := Literal("A", 0), Literal("A", 1);
      ReducedAsWritten(a, {{na}}) == {{na}} && Reduced(a, {{na}}) == {{}}
  {
    var a, na := Literal("A", 0), Literal("A", 1);
    assert IsAtomName("A") by {
      assert RunEnd("A", 0, IsUpper) == 1;
    }
    ReducedAsWrittenOnlyDrops(a, {{na}});
    KeptSingle(a, na);
    ShrunkSingle(a, na);
  }

  lemma KeptSingle(a: Literal, na: Literal)
    requires a != na
    ensures (set d | d in {{na}} && a !in d) == {{na}}
  {
  }

  lemma ShrunkSingle(a: Literal, na: Literal)
    requires Complements(na, a)
    ensures Reduced(a, {{na}}) == {{}}
  {
    assert a !in {na};
    assert Shrink({na}, a) == {};
    assert {} in Reduced(a, {{na}});
  }

  // ---------------------------------------------------------------------
  // davisPutnam

  /** Each literal of a one-literal clause, mapped to true iff it is not negated once. */
  function UnitModel(f: Cnf): (m: map<Literal, bool>)
    ensures forall l :: l in m <==> {l} in f
    ensures forall l :: l in m ==> m[l] == (l.negs != 1)
  {
    map l | l in Literals(f) && {l} in f :: l.negs != 1
  }

  /**
   * The source's davisPutnam: for each one-literal clause of the input, in
   * iteration order, the literal is mapped to its polarity and the working
   * set is reduced by it. The working set is never consulted again and the
   * result is never null.
   */
  method DavisPutnam(cnf: Cnf) returns (model: LogicModel)
    ensures fresh(model)
    ensures model.model == UnitModel(cnf)
  {
    model := new LogicModel();
    var cnf1 := cnf;
    var clauses := Elements(cnf);
    for i := 0 to |clauses|
      invariant forall l :: l in model.model <==> {l} in clauses[..i]
      invariant forall l :: l in model.model ==> model.model[l] == (l.negs != 1)
    {
      assert clauses[..i + 1] == clauses[..i] + [clauses[i]];
      if |clauses[i]| == 1 {
        var atoms := Elements(clauses[i]);
        EnumeratesSize(atoms, clauses[i]);
        for j := 0 to |atoms|
          invariant forall l :: l in model.model <==> {l} in clauses[..i] || l in atoms[..j]
          invariant forall l :: l in model.model ==> model.model[l] == (l.negs != 1)
        {
          var exp := atoms[j];
          var trueAtom := true;
          if exp.negs == 1 {
            trueAtom := false;
          }
          model.AddAtom(exp, trueAtom);
          cnf1 := ReduceCnf(exp, cnf1);
          assert atoms[..j + 1] == atoms[..j] + [exp];
        }
        assert atoms[..|atoms|] == atoms;
        forall l ensures l in atoms <==> clauses[i] == {l} {
          if l in atoms {
            Singleton(clauses[i], l);
          }
        }
      }
    }
    assert clauses[..|clauses|] == clauses;
    assert forall l :: {l} in cnf <==> {l} in clauses;
  }

  lemma Singleton(c: Clause, x: Literal)
    requires |c| == 1 && x in c
    ensures c == {x}
  {
    var rest := c - {x};
    assert |rest| == 0;
  }

  /**
   * The entries are forced: every assignment satisfying the input gives each
   * entry's name the value the entry records, when literals carry at most
   * one negation.
   */
  lemma UnitModelForced(f: Cnf, v: string -> bool)
    requires CnfHolds(f, v) && AtMostOneNegation(f)
    ensures forall l :: l in UnitModel(f) ==> v(l.name) == UnitModel(f)[l]
  {
    UnitsForced(f, v);
    EntriesForced(f, v);
  }

  lemma EntriesForced(f: Cnf, v: string -> bool)
    requires forall l :: {l} in f ==> v(l.name) == (l.negs != 1)
    ensures forall l :: l in UnitModel(f) ==> v(l.name) == UnitModel(f)[l]
  {
  }

  lemma UnitsForced(f: Cnf, v: string -> bool)
    requires CnfHolds(f, v) && AtMostOneNegation(f)
    ensures forall l :: {l} in f ==> v(l.name) == (l.negs != 1)
  {
    forall l | {l} in f ensures v(l.name) == (l.negs != 1) {
      UnitForced(f, v, l);
    }
  }

  lemma UnitForced(f: Cnf, v: string -> bool, l: Literal)
    requires CnfHolds(f, v) && AtMostOneNegation(f) && {l} in f
    ensures v(l.name) == (l.negs != 1)
  {
    assert ClauseHolds({l}, v);
    assert l.negs <= 1;
    assert LitValue(l, v);
  }

  /**
   * No null for a contradiction: {A} and {¬A} cannot both hold, yet the
   * model records A as true and ¬A as false.
   */
  lemma ContradictionStillModelled()
    ensures var a, na := Literal("A", 0), Literal("A", 1);
      !Satisfiable({{a}, {na}}) &&
      UnitModel({{a}, {na}}) == map[a := true, na := false]
  {
    var a, na := Literal("A", 0), Literal("A", 1);
    var f := {{a}, {na}};
    forall v | CnfHolds(f, v) ensures false {
      assert ClauseHolds({a}, v) && ClauseHolds({na}, v);
    }
    assert {a} != {na};
    var m := UnitModel(f);
    assert m.Keys == {a, na};
  }
}
