/**
 * The resolution procedure of the binary package (reasoning2
 * LogicMethods.resolutionProof). It runs over the same clause store and
 * proof record as the n-ary package, but picks the literals to cancel with
 * the rendering-based isNegated; when no pair passes that test nothing is
 * removed and the "resolvent" is the union of the two clauses. Two literals
 * of the same name never pass it, so the empty clause is never derived.
 */
module BinaryResolution {
  import opened Wrappers
  import opened Text
  import opened Clauses
  import opened ComplementingPair
  import opened ClauseNormalForm
  import opened BinaryLogicMethods
  import opened BinaryDavisPutnam
  import opened Resolution
  import Proofs = ResolutionProof

  /** The source's test between two literals of a clause. */
  predicate Cancels(x: Literal, y: Literal)
  {
    IsNegated(AtomOf(x), AtomOf(y))
  }

  /**
   * The pair the nested loops settle on: for each literal of `c1` the first
   * literal of `c2` it cancels, and of those the last one met; None when no
   * pair passes the test.
   */
  method ChooseNegated(c1: Clause, c2: Clause) returns (pick: Option<(Literal, Literal)>)
    ensures pick.Some? ==> pick.value.0 in c1 && pick.value.1 in c2 && Cancels(pick.value.0, pick.value.1)
    ensures pick.None? ==> forall x, y :: x in c1 && y in c2 ==> !Cancels(x, y)
  {
    var xs := Elements(c1);
    var ys := Elements(c2);
    pick := None;
    for i := 0 to |xs|
      invariant pick.Some? ==> pick.value.0 in c1 && pick.value.1 in c2 && Cancels(pick.value.0, pick.value.1)
      invariant pick.None? ==> forall k, y :: 0 <= k < i && y in c2 ==> !Cancels(xs[k], y)
    {
      ghost var before := pick;
      for j := 0 to |ys|
        invariant pick.Some? ==> pick.value.0 in c1 && pick.value.1 in c2 && Cancels(pick.value.0, pick.value.1)
        invariant pick.None? ==> before.None? && forall k :: 0 <= k < j ==> !Cancels(xs[i], ys[k])
      {
        if Cancels(xs[i], ys[j]) {
          pick := Some((xs[i], ys[j]));
          break;
        }
      }
    }
    if pick.None? {
      forall x, y | x in c1 && y in c2 ensures !Cancels(x, y) {
        var k :| 0 <= k < |xs| && xs[k] == x;
      }
    }
  }

  /** What is left of the two clauses: the picked literals removed, or nothing removed (remove(null)). */
  function Merged(c1: Clause, c2: Clause, pick: Option<(Literal, Literal)>): (c: Clause)
    ensures c <= c1 + c2
    ensures pick.None? ==> c == c1 + c2
    ensures pick.Some? ==> c == Resolvent(c1, pick.value.0, c2, pick.value.1)
  {
    match pick
    case None => c1 + c2
    case Some((a, b)) => (c1 - {a}) + (c2 - {b})
  }

  /** An atom with k negations is rendered with 2k + |name| characters. */
  lemma AtomLength(l: Literal)
    ensures |BinaryExpression.ToString(AtomOf(l))| == 2 * l.negs + |l.name|
  {
  }

  /**
   * Two literals with the same name never pass the source's test, whatever
   * their negation counts: the renderings' lengths differ by an even number,
   * never by the one character of "¬".
   */
  lemma SameNameNeverCancels(a: Literal, b: Literal)
    requires a.name == b.name
    ensures !Cancels(a, b)
  {
    AtomLength(a);
    AtomLength(b);
  }

  /**
   * What is left of a complementary pair is never empty: removing one
   * literal from each leaves nothing only when both clauses are singletons,
   * and then the two literals complement each other, share a name and so
   * fail the test.
   */
  lemma MergedNonEmpty(first: Clause, second: Clause, pick: Option<(Literal, Literal)>)
    requires ComplementaryClauses(first, second)
    requires pick.Some? ==> pick.value.0 in first && pick.value.1 in second && Cancels(pick.value.0, pick.value.1)
    ensures Merged(first, second, pick) != {}
  {
    var x, y :| x in first && y in second && Complements(x, y);
    if pick.Some? {
      var a, b := pick.value.0, pick.value.1;
      if x != a {
        assert x in Merged(first, second, pick);
      } else if y != b {
        assert y in Merged(first, second, pick);
      } else {
        SameNameNeverCancels(a, b);
      }
    } else {
      assert x in Merged(first, second, pick);
    }
  }

  /** Clauses made of literals of two clauses drawn from `u` are drawn from `u`. */
  lemma MergedStays(f: Cnf, u: set<Literal>, first: Clause, second: Clause, c: Clause)
    requires Within(f, u) && first in f && second in f && c <= first + second
    ensures Within(f + {c}, u)
  {
  }

  /**
   * One round on a pair: removes the picked literals and, when what is left
   * is new, logs it as "Res i, j" with the line numbers of its parents (or
   * with no provenance when nothing was picked) and adds it to the store.
   */
  method ResolvePairAsWritten(cnf: ClauseNormalForm, proof: Proofs.ResolutionProof, first: Clause, second: Clause, ghost u: set<Literal>)
      returns (c: Clause, ghost pick: Option<(Literal, Literal)>, line1: int, line2: int)
    requires first in cnf.cnf && second in cnf.cnf && ComplementaryClauses(first, second)
    requires Within(cnf.cnf, u) && Enumerates(Mains(proof.lines), cnf.cnf)
    modifies cnf, proof
    ensures Within(cnf.cnf, u) && Enumerates(Mains(proof.lines), cnf.cnf) && old(proof.lines) <= proof.lines
    ensures c != {}
    ensures pick.Some? ==> pick.value.0 in first && pick.value.1 in second && Cancels(pick.value.0, pick.value.1)
    ensures pick.None? ==> forall x, y :: x in first && y in second ==> !Cancels(x, y)
    ensures c == Merged(first, second, pick)
    ensures cnf.cnf == old(cnf.cnf) + {c}
    ensures proof.result == old(proof.result)
    ensures c in old(cnf.cnf) ==> proof.lines == old(proof.lines)
    ensures c !in old(cnf.cnf) ==> exists p :: proof.lines == old(proof.lines) + [Proofs.ProofLine(c, p)]
    ensures c !in old(cnf.cnf) && pick.None? ==> proof.lines == old(proof.lines) + [Proofs.ProofLine(c, "")]
    ensures pick.Some? ==> FirstLineOf(old(proof.lines), first, line1) && FirstLineOf(old(proof.lines), second, line2)
    ensures c !in old(cnf.cnf) && pick.Some? ==> proof.lines == old(proof.lines) + [Proofs.ProofLine(c, Citation(line1, line2))]
  {
    var p := ChooseNegated(first, second);
    pick := p;
    var resolvents := "";
    line1, line2 := -1, -1;
    if p.Some? {
      line1 := LineOf(proof, first, cnf.cnf);
      line2 := LineOf(proof, second, cnf.cnf);
      resolvents := "Res " + IntToString(line1) + ", " + IntToString(line2);
    }
    c := Merged(first, second, p);
    ghost var f := cnf.cnf;
    ghost var lines := proof.lines;
    if c !in cnf.cnf {
      proof.AddLine(Proofs.ProofLine(c, resolvents));
      var _ := cnf.Add(c);
    } else {
      assert cnf.cnf + {c} == cnf.cnf;
    }
    MergedStays(f, u, first, second, c);
    LinesFollowStore(lines, proof.lines, f, c);
    MergedNonEmpty(first, second, pick);
  }

  /** The verdict check after a round: an empty resolvent makes the proof UNSATISFIABLE. */
  method RecordVerdict(proof: Proofs.ResolutionProof, c: Clause) returns (box: bool)
    modifies proof
    ensures box <==> c == {}
    ensures box ==> proof.result == Some(Proofs.Unsatisfiable) && proof.lines == old(proof.lines)
    ensures !box ==> proof.result == old(proof.result) && proof.lines == old(proof.lines)
  {
    box := false;
    if c == {} {
      box := true;
      proof.SetResult(Proofs.Unsatisfiable);
    }
  }

  /**
   * Runs the binary package's resolution on the store, logging each input
   * clause as a line with no provenance and each new clause a round leaves
   * as a line of its own. No round ever leaves the empty clause, so the
   * proof never ends UNSATISFIABLE: it ends SATISFIABLE once no unresolved
   * complementary pair is left, whatever the input.
   */
  method ResolutionProof(cnf: ClauseNormalForm) returns (proof: Proofs.ResolutionProof, ghost resolved: set<Clause>)
    modifies cnf
    ensures fresh(proof)
    ensures proof.result == Some(Proofs.Satisfiable) && Saturated(cnf.cnf, resolved)
    ensures old(cnf.cnf) <= cnf.cnf && Literals(cnf.cnf) <= Literals(old(cnf.cnf))
    ensures {} in cnf.cnf ==> {} in old(cnf.cnf)
    ensures Enumerates(Mains(proof.lines), cnf.cnf)
    ensures |proof.lines| >= |old(cnf.cnf)|
    ensures forall k :: 0 <= k < |old(cnf.cnf)| ==> proof.lines[k].provenance == ""
  {
    proof := new Proofs.ResolutionProof();
    ghost var original := cnf.cnf;
    ghost var universe := Literals(original);
    var inputs := Elements(cnf.cnf);
    LogInputs(proof, inputs, original);
    ghost var logged := proof.lines;
    resolved := ResolveUntilDone(cnf, proof, universe);
    LiteralsWithin(cnf.cnf, universe);
    InputsKept(logged, proof.lines);
  }

  /**
   * The main loop of resolutionProof: a round on an unresolved pair, marking
   * both clauses resolved, then the verdict check, until the empty clause
   * appears or no unresolved pair is left.
   */
  method ResolveUntilDone(cnf: ClauseNormalForm, proof: Proofs.ResolutionProof, ghost universe: set<Literal>)
      returns (ghost resolved: set<Clause>)
    requires Within(cnf.cnf, universe) && Enumerates(Mains(proof.lines), cnf.cnf) && proof.result == None
    modifies cnf, proof
    ensures old(cnf.cnf) <= cnf.cnf && Within(cnf.cnf, universe)
    ensures {} in cnf.cnf ==> {} in old(cnf.cnf)
    ensures Enumerates(Mains(proof.lines), cnf.cnf) && old(proof.lines) <= proof.lines
    ensures proof.result == Some(Proofs.Satisfiable) && Saturated(cnf.cnf, resolved)
  {
    var box := false;
    var marked: set<Clause> := {};
    ghost var original := cnf.cnf;
    ghost var store := original;
    while !box
      invariant cnf.cnf == store
      invariant original <= store && Within(store, universe)
      invariant {} in store ==> {} in original
      invariant marked <= store
      invariant Enumerates(Mains(proof.lines), store)
      invariant old(proof.lines) <= proof.lines
      invariant !box && proof.result == None
      decreases ClauseBound(universe) - |marked|
    {
      MarkedBound(marked, store, universe);
      var pair := cnf.FindUnresolvedPair(marked);
      if pair.Some? {
        var first, second := pair.value.first, pair.value.second;
        assert first in store && second in store;
        MarkGrows(marked, first, second);
        ghost var marked0 := marked;
        marked := marked + {first, second};
        var c, pick, _, _ := ResolvePairAsWritten(cnf, proof, first, second, universe);
        MarkedWithin(marked0, store, first, second, c);
        store := store + {c};
        box := RecordVerdict(proof, c);
        MarkedBound(marked, store, universe);
      } else {
        proof.SetResult(Proofs.Satisfiable);
        break;
      }
    }
    resolved := marked;
  }

  /** Lines logged before the rounds keep their place and provenance. */
  lemma InputsKept(logged: seq<Proofs.ProofLine>, lines: seq<Proofs.ProofLine>)
    requires logged <= lines
    requires forall k :: 0 <= k < |logged| ==> logged[k].provenance == ""
    ensures forall k :: 0 <= k < |logged| ==> lines[k].provenance == ""
  {
    forall k | 0 <= k < |logged| ensures lines[k].provenance == "" {
      assert lines[k] == logged[k];
    }
  }

  /**
   * {A} and {¬A} carry scanned names and cannot both hold: the binary
   * resolution above reports this unsatisfiable store SATISFIABLE, while the
   * intended step cancels A against ¬A and leaves the empty clause.
   */
  lemma UnitsReportedSatisfiable()
    ensures var a, na := Literal("A", 0), Literal("A", 1);
      !Satisfiable({{a}, {na}}) &&
      Complements(a, na) && Resolvent({a}, a, {na}, na) == {}
  {
    ContradictionStillModelled();
  }
}
