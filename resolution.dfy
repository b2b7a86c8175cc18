/** The resolution procedure of the n-ary package (LogicMethods.resolutionProof). */
module Resolution {
  import opened Wrappers
  import opened Text
  import opened Clauses
  import opened ComplementingPair
  import opened ClauseNormalForm
  import Proofs = ResolutionProof

  /** The clauses the lines derive, in line order. */
  function Mains(lines: seq<Proofs.ProofLine>): (r: seq<Clause>)
    ensures |r| == |lines| && forall k :: 0 <= k < |lines| ==> r[k] == lines[k].main
  {
    seq(|lines|, k requires 0 <= k < |lines| => lines[k].main)
  }

  /**
   * The complementary literals the nested loops settle on: for each literal
   * of `c1` the first complement in `c2`, and of those the last one met.
   */
  method ChooseLiterals(c1: Clause, c2: Clause) returns (a: Literal, b: Literal)
    requires ComplementaryClauses(c1, c2)
    ensures a in c1 && b in c2 && Complements(a, b)
  {
    var xs := Elements(c1);
    var ys := Elements(c2);
    var pick: Option<(Literal, Literal)> := None;
    for i := 0 to |xs|
      invariant pick.Some? ==> pick.value.0 in c1 && pick.value.1 in c2 && Complements(pick.value.0, pick.value.1)
      invariant pick.None? ==> forall k, y :: 0 <= k < i && y in c2 ==> !Complements(xs[k], y)
    {
      ghost var before := pick;
      for j := 0 to |ys|
        invariant pick.Some? ==> pick.value.0 in c1 && pick.value.1 in c2 && Complements(pick.value.0, pick.value.1)
        invariant pick.None? ==> before.None? && forall k :: 0 <= k < j ==> !Complements(xs[i], ys[k])
      {
        if Complements(xs[i], ys[j]) {
          pick := Some((xs[i], ys[j]));
          break;
        }
      }
    }
    assert pick.Some? by {
      var x, y :| x in c1 && y in c2 && Complements(x, y);
      var k :| 0 <= k < |xs| && xs[k] == x;
    }
    a, b := pick.value.0, pick.value.1;
  }

  /** Every assignment satisfying `original` satisfies `f`. */
  ghost predicate Entails(original: Cnf, f: Cnf)
  {
    forall v :: CnfHolds(original, v) ==> CnfHolds(f, v)
  }

  lemma EntailsItself(f: Cnf)
    ensures Entails(f, f)
  {
  }

  /** Every clause of `f` is drawn from the literals `u`. */
  ghost predicate Within(f: Cnf, u: set<Literal>)
  {
    forall c :: c in f ==> c <= u
  }

  /** Adding a resolvent of two clauses keeps every consequence, and keeps the clauses within the same literals. */
  lemma AddResolvent(original: Cnf, f: Cnf, u: set<Literal>, c1: Clause, a: Literal, c2: Clause, b: Literal)
    requires Entails(original, f) && Within(f, u)
    requires c1 in f && c2 in f && a in c1 && b in c2 && Complements(a, b)
    ensures Entails(original, f + {Resolvent(c1, a, c2, b)})
    ensures Within(f + {Resolvent(c1, a, c2, b)}, u)
  {
    forall v | CnfHolds(original, v)
      ensures CnfHolds(f + {Resolvent(c1, a, c2, b)}, v)
    {
      ResolventSound(c1, a, c2, b, v);
    }
  }

  /** How many clauses can be drawn from the literals `u`. */
  ghost function ClauseBound(u: set<Literal>): nat
  {
    |PowerSet(u)|
  }

  /** Clauses marked among those drawn from `u` are no more than the subsets of `u`. */
  lemma MarkedBound(marked: set<Clause>, f: Cnf, u: set<Literal>)
    requires marked <= f && Within(f, u)
    ensures |marked| <= ClauseBound(u)
  {
    SubsetNoLarger(marked, PowerSet(u));
  }

  /** Marking a clause not yet marked adds at least one. */
  lemma MarkGrows(marked: set<Clause>, first: Clause, second: Clause)
    requires first !in marked
    ensures |marked + {first, second}| > |marked|
  {
    assert marked + {first} <= marked + {first, second};
    SubsetNoLarger(marked + {first}, marked + {first, second});
  }

  /** Marked clauses stay within the store as it grows. */
  lemma MarkedWithin(marked: set<Clause>, f: Cnf, first: Clause, second: Clause, c: Clause)
    requires marked <= f && first in f && second in f
    ensures marked + {first, second} <= f + {c}
  {
  }

  /** A store that holds the empty clause and follows from `original` leaves `original` unsatisfiable. */
  lemma EmptyClauseRefutes(original: Cnf, f: Cnf)
    requires Entails(original, f) && {} in f
    ensures !Satisfiable(original)
  {
  }

  /** The provenance of a resolvent: "Res i, j", citing the line numbers of its two parents. */
  function Citation(line1: int, line2: int): string
  {
    "Res " + IntToString(line1) + ", " + IntToString(line2)
  }

  /** `n` is the 1-based number of the first line deriving `c`, the number GetLine reports. */
  ghost predicate FirstLineOf(lines: seq<Proofs.ProofLine>, c: Clause, n: int)
  {
    1 <= n <= |lines| && lines[n - 1].main == c && forall k :: 0 <= k < n - 1 ==> lines[k].main != c
  }

  /**
   * Line `k` derives the resolvent of the clauses of lines `i` and `j` on
   * the complementary literals `a` and `b`, and cites those lines by number.
   */
  ghost predicate ResolvesLines(lines: seq<Proofs.ProofLine>, k: nat, i: nat, j: nat, a: Literal, b: Literal)
  {
    i < k < |lines| && j < k && a in lines[i].main && b in lines[j].main && Complements(a, b) &&
    lines[k] == Proofs.ProofLine(Resolvent(lines[i].main, a, lines[j].main, b), Citation(i + 1, j + 1))
  }

  /** Line `k` is a resolvent of two earlier lines, citing them. */
  ghost predicate Derived(lines: seq<Proofs.ProofLine>, k: nat)
  {
    exists i: nat, j: nat, a: Literal, b: Literal :: ResolvesLines(lines, k, i, j, a, b)
  }

  /**
   * A clause of the store has a line: GetLine finds the first one, so the
   * number it reports is never -1.
   */
  method LineOf(proof: Proofs.ResolutionProof, c: Clause, ghost f: Cnf) returns (n: int)
    requires c in f && Enumerates(Mains(proof.lines), f)
    ensures FirstLineOf(proof.lines, c, n)
  {
    var k :| 0 <= k < |proof.lines| && Mains(proof.lines)[k] == c;
    assert proof.lines[k].main == c;
    n := proof.GetLine(c);
  }

  /**
   * One round on a complementary pair: resolves it and, when the resolvent
   * is new, logs it as "Res i, j" with the line numbers of its parents and
   * adds it to the store.
   */
  method ResolvePair(cnf: ClauseNormalForm, proof: Proofs.ResolutionProof, first: Clause, second: Clause)
      returns (c: Clause, ghost a: Literal, ghost b: Literal, line1: int, line2: int)
    requires ComplementaryClauses(first, second)
    requires first in cnf.cnf && second in cnf.cnf && Enumerates(Mains(proof.lines), cnf.cnf)
    modifies cnf, proof
    ensures a in first && b in second && Complements(a, b) && c == Resolvent(first, a, second, b)
    ensures FirstLineOf(old(proof.lines), first, line1) && FirstLineOf(old(proof.lines), second, line2)
    ensures cnf.cnf == old(cnf.cnf) + {c}
    ensures proof.result == old(proof.result)
    ensures c in old(cnf.cnf) ==> proof.lines == old(proof.lines)
    ensures c !in old(cnf.cnf) ==> proof.lines == old(proof.lines) + [Proofs.ProofLine(c, Citation(line1, line2))]
  {
    var x, y := ChooseLiterals(first, second);
    a, b := x, y;
    line1 := LineOf(proof, first, cnf.cnf);
    line2 := LineOf(proof, second, cnf.cnf);
    var resolvents := "Res " + IntToString(line1) + ", " + IntToString(line2);
    c := Resolvent(first, x, second, y);
    if c !in cnf.cnf {
      proof.AddLine(Proofs.ProofLine(c, resolvents));
      var _ := cnf.Add(c);
    } else {
      assert cnf.cnf + {c} == cnf.cnf;
    }
  }

  /**
   * After a round every line from `start` on is still a resolvent of two
   * earlier lines citing them: old lines keep their witnesses, and a new
   * line cites its parents' first lines.
   */
  lemma LinesDerived(lines: seq<Proofs.ProofLine>, lines': seq<Proofs.ProofLine>, start: nat,
                     first: Clause, a: Literal, second: Clause, b: Literal, c: Clause, line1: int, line2: int)
    requires forall k: nat :: start <= k < |lines| ==> Derived(lines, k)
    requires FirstLineOf(lines, first, line1) && FirstLineOf(lines, second, line2)
    requires a in first && b in second && Complements(a, b) && c == Resolvent(first, a, second, b)
    requires lines' == lines || lines' == lines + [Proofs.ProofLine(c, Citation(line1, line2))]
    ensures forall k: nat :: start <= k < |lines'| ==> Derived(lines', k)
  {
    forall k: nat | start <= k < |lines'| ensures Derived(lines', k) {
      if k < |lines| {
        assert Derived(lines, k);
        var i: nat, j: nat, x, y :| ResolvesLines(lines, k, i, j, x, y);
        assert lines'[k] == lines[k] && lines'[i] == lines[i] && lines'[j] == lines[j];
        assert ResolvesLines(lines', k, i, j, x, y);
      } else {
        var i: nat, j: nat := line1 - 1, line2 - 1;
        assert lines'[i] == lines[i] && lines'[j] == lines[j];
        assert ResolvesLines(lines', k, i, j, a, b);
      }
    }
  }

  /** Each clause as a line with no provenance. */
  function InputLines(clauses: seq<Clause>): (r: seq<Proofs.ProofLine>)
    ensures |r| == |clauses|
    ensures forall k :: 0 <= k < |clauses| ==> r[k] == Proofs.ProofLine(clauses[k], "")
  {
    seq(|clauses|, k requires 0 <= k < |clauses| => Proofs.ProofLine(clauses[k], ""))
  }

  /** Logs the input clauses, in iteration order, on an empty proof: one line per clause, none with a provenance. */
  method LogInputs(proof: Proofs.ResolutionProof, clauses: seq<Clause>, ghost f: Cnf)
    requires Enumerates(clauses, f)
    requires proof.lines == [] && proof.result == None
    modifies proof
    ensures proof.result == None
    ensures Enumerates(Mains(proof.lines), f) && |proof.lines| == |f|
    ensures forall k :: 0 <= k < |proof.lines| ==> proof.lines[k].provenance == ""
  {
    for i := 0 to |clauses|
      invariant proof.lines == InputLines(clauses[..i])
      invariant proof.result == None
    {
      assert InputLines(clauses[..i + 1]) == InputLines(clauses[..i]) + [Proofs.ProofLine(clauses[i], "")];
      proof.AddLine(Proofs.ProofLine(clauses[i], ""));
    }
    assert clauses[..|clauses|] == clauses;
    InputsListStore(clauses, proof.lines, f);
  }

  /** The logged input lines list the store, one line per clause, none with a provenance. */
  lemma InputsListStore(inputs: seq<Clause>, lines: seq<Proofs.ProofLine>, f: Cnf)
    requires Enumerates(inputs, f) && lines == InputLines(inputs)
    ensures Enumerates(Mains(lines), f) && |lines| == |f|
    ensures forall k :: 0 <= k < |lines| ==> lines[k].provenance == ""
  {
    assert Mains(lines) == inputs;
    EnumeratesSize(inputs, f);
  }

  /** The lines still list the store after a round. */
  lemma LinesFollowStore(lines: seq<Proofs.ProofLine>, lines': seq<Proofs.ProofLine>, f: Cnf, c: Clause)
    requires Enumerates(Mains(lines), f)
    requires c in f ==> lines' == lines
    requires c !in f ==> exists p :: lines' == lines + [Proofs.ProofLine(c, p)]
    ensures Enumerates(Mains(lines'), f + {c})
    ensures lines <= lines'
  {
    if c in f {
      assert f + {c} == f;
    } else {
      var p :| lines' == lines + [Proofs.ProofLine(c, p)];
      assert Mains(lines') == Mains(lines) + [c];
      EnumeratesStep(Mains(lines), f, c);
    }
  }

  /**
   * Runs resolution on the store, logging each input clause as a line with
   * no provenance and each new resolvent as a line "Res i, j" citing its
   * parents' line numbers. Each round resolves one unresolved complementary
   * pair and marks both clauses resolved; the proof ends UNSATISFIABLE when
   * the resolvent is empty and SATISFIABLE when no unresolved pair is left.
   * The empty clause is only looked for among new resolvents, so an input
   * that already holds it but has no complementary pair ends SATISFIABLE.
   */
  method ResolutionProof(cnf: ClauseNormalForm) returns (proof: Proofs.ResolutionProof, ghost resolved: set<Clause>)
    modifies cnf
    ensures fresh(proof)
    ensures proof.result.Some?
    ensures old(cnf.cnf) <= cnf.cnf && Literals(cnf.cnf) <= Literals(old(cnf.cnf))
    ensures Entails(old(cnf.cnf), cnf.cnf)
    ensures proof.result == Some(Proofs.Unsatisfiable) ==> {} in cnf.cnf && !Satisfiable(old(cnf.cnf))
    ensures proof.result == Some(Proofs.Satisfiable) ==> Saturated(cnf.cnf, resolved)
    ensures Saturated(old(cnf.cnf), {}) ==> proof.result == Some(Proofs.Satisfiable) && cnf.cnf == old(cnf.cnf)
    ensures Enumerates(Mains(proof.lines), cnf.cnf)
    ensures |proof.lines| >= |old(cnf.cnf)|
    ensures forall k :: 0 <= k < |old(cnf.cnf)| ==> proof.lines[k].provenance == ""
    ensures forall k: nat :: |old(cnf.cnf)| <= k < |proof.lines| ==> Derived(proof.lines, k)
  {
    proof := new Proofs.ResolutionProof();
    ghost var original := cnf.cnf;
    ghost var universe := Literals(original);

    var inputs := Elements(cnf.cnf);
    LogInputs(proof, inputs, original);
    EntailsItself(original);
    ghost var logged := proof.lines;

    resolved := ResolveRounds(cnf, proof, original, universe, |original|);
    LiteralsWithin(cnf.cnf, universe);
    if proof.result == Some(Proofs.Unsatisfiable) {
      EmptyClauseRefutes(original, cnf.cnf);
    }
    assert forall k :: 0 <= k < |original| ==> proof.lines[k] == logged[k];
  }

  /**
   * The main loop of resolutionProof: a round on an unresolved pair, marking
   * both clauses resolved, until a round leaves the empty clause or no
   * unresolved pair is left. Lines from `start` on are the rounds' resolvents.
   */
  method ResolveRounds(cnf: ClauseNormalForm, proof: Proofs.ResolutionProof, ghost original: Cnf, ghost universe: set<Literal>, ghost start: nat)
      returns (ghost resolved: set<Clause>)
    requires Within(cnf.cnf, universe) && Entails(original, cnf.cnf)
    requires Enumerates(Mains(proof.lines), cnf.cnf) && proof.result == None && start <= |proof.lines|
    requires forall k: nat :: start <= k < |proof.lines| ==> Derived(proof.lines, k)
    modifies cnf, proof
    ensures old(cnf.cnf) <= cnf.cnf && Within(cnf.cnf, universe) && Entails(original, cnf.cnf)
    ensures Enumerates(Mains(proof.lines), cnf.cnf) && old(proof.lines) <= proof.lines
    ensures forall k: nat :: start <= k < |proof.lines| ==> Derived(proof.lines, k)
    ensures proof.result.Some?
    ensures proof.result == Some(Proofs.Unsatisfiable) ==> {} in cnf.cnf
    ensures proof.result == Some(Proofs.Satisfiable) ==> Saturated(cnf.cnf, resolved)
    ensures Saturated(old(cnf.cnf), {}) ==> proof.result == Some(Proofs.Satisfiable) && cnf.cnf == old(cnf.cnf)
  {
    var box := false;
    var marked: set<Clause> := {};
    ghost var initial := cnf.cnf;
    ghost var store := initial;
    while !box
      invariant cnf.cnf == store
      invariant initial <= store && Within(store, universe) && Entails(original, store)
      invariant marked <= store
      invariant Enumerates(Mains(proof.lines), store)
      invariant old(proof.lines) <= proof.lines
      invariant forall k: nat :: start <= k < |proof.lines| ==> Derived(proof.lines, k)
      invariant Saturated(initial, {}) ==> store == initial && marked == {} && !box
      invariant !box ==> proof.result == None
      invariant box ==> proof.result == Some(Proofs.Unsatisfiable) && {} in store
      decreases ClauseBound(universe) - |marked|, if box then 0 else 1
    {
      MarkedBound(marked, store, universe);
      var pair := cnf.FindUnresolvedPair(marked);
      if pair.Some? {
        var first, second := pair.value.first, pair.value.second;
        assert first in store && second in store;
        assert !Saturated(initial, {});
        MarkGrows(marked, first, second);
        ghost var marked0 := marked;
        marked := marked + {first, second};
        var c := ResolveLogged(cnf, proof, first, second, original, universe, start);
        MarkedWithin(marked0, store, first, second, c);
        store := store + {c};
        if c == {} {
          box := true;
          proof.SetResult(Proofs.Unsatisfiable);
        }
        MarkedBound(marked, store, universe);
      } else {
        proof.SetResult(Proofs.Satisfiable);
        break;
      }
    }
    resolved := marked;
  }

  /**
   * A round of the main loop on a complementary pair of stored clauses: the
   * store gains the resolvent, still follows from the original clauses and
   * stays within the same literals, and the lines still list the store with
   * every line from `start` on a resolvent citing its parents.
   */
  method ResolveLogged(cnf: ClauseNormalForm, proof: Proofs.ResolutionProof, first: Clause, second: Clause,
                       ghost original: Cnf, ghost universe: set<Literal>, ghost start: nat)
      returns (c: Clause)
    requires ComplementaryClauses(first, second) && first in cnf.cnf && second in cnf.cnf
    requires Within(cnf.cnf, universe) && Entails(original, cnf.cnf)
    requires Enumerates(Mains(proof.lines), cnf.cnf) && start <= |proof.lines|
    requires forall k: nat :: start <= k < |proof.lines| ==> Derived(proof.lines, k)
    modifies cnf, proof
    ensures cnf.cnf == old(cnf.cnf) + {c}
    ensures Within(cnf.cnf, universe) && Entails(original, cnf.cnf)
    ensures Enumerates(Mains(proof.lines), cnf.cnf) && old(proof.lines) <= proof.lines
    ensures forall k: nat :: start <= k < |proof.lines| ==> Derived(proof.lines, k)
    ensures proof.result == old(proof.result)
  {
    ghost var store, lines := cnf.cnf, proof.lines;
    ghost var a, b;
    var line1, line2;
    c, a, b, line1, line2 := ResolvePair(cnf, proof, first, second);
    LinesDerived(lines, proof.lines, start, first, a, second, b, c, line1, line2);
    AddResolvent(original, store, universe, first, a, second, b);
    LinesFollowStore(lines, proof.lines, store, c);
  }

  /** Clauses drawn from `u` have their literals in `u`. */
  lemma LiteralsWithin(f: Cnf, u: set<Literal>)
    requires Within(f, u)
    ensures Literals(f) <= u
  {
  }
}
