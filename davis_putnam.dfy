/**
 * The Davis-Putnam procedure of the n-ary package (LogicMethods.davisPutnam)
 * and the helpers it calls: reduction of a clause set by a unit, the size of
 * its smallest clause, and the search for a complement in a list of literals.
 *
 * The procedure propagates unit clauses, then assigns pure literals, then
 * either has emptied the clause set (a model, completed with true for every
 * atom left unassigned), holds the empty clause (no model), or would go on
 * to split on an atom, which this model does not follow.
 */
module DavisPutnam {
  import opened Wrappers
  import opened Text
  import opened Clauses
  import opened ClauseNormalForm
  import opened LogicModel

  predicate Distinct<T(==)>(xs: seq<T>)
  {
    forall i, j :: 0 <= i < j < |xs| ==> xs[i] != xs[j]
  }

  /** `l` occurs in some clause of `f`. */
  ghost predicate Occurs(l: Literal, f: Cnf)
  {
    exists c :: c in f && l in c
  }

  /** Some literal of `f` is named `n`, in any polarity. */
  ghost predicate Named(n: string, f: Cnf)
  {
    exists c, l :: c in f && l in c && l.name == n
  }

  /** No clause of `f` holds a complement of `p`. */
  ghost predicate NoComplement(p: Literal, f: Cnf)
  {
    forall c, l :: c in f && l in c ==> !Complements(p, l)
  }

  /** Every literal of `g` occurs in `f`. */
  ghost predicate Drawn(g: Cnf, f: Cnf)
  {
    forall c, l :: c in g && l in c ==> Occurs(l, f)
  }

  // ---------------------------------------------------------------------
  // Helpers

  /** The store reduced by `unit`: clauses holding it are dropped, its complements deleted from the rest. */
  method ReduceCnf(unit: Literal, cnf: Cnf) returns (r: Cnf)
    ensures r == Reduced(unit, cnf)
  {
    r := {};
    var clauses := Elements(cnf);
    for i := 0 to |clauses|
      invariant forall c :: c in r <==> exists k :: 0 <= k < i && unit !in clauses[k] && c == Shrink(clauses[k], unit)
    {
      if unit !in clauses[i] {
        var lits := Elements(clauses[i]);
        var newclause: Clause := {};
        for j := 0 to |lits|
          invariant forall l :: l in newclause <==> l in lits[..j] && !Complements(l, unit)
        {
          if !Complements(lits[j], unit) {
            newclause := newclause + {lits[j]};
          }
        }
        assert lits[..|lits|] == lits;
        assert newclause == Shrink(clauses[i], unit);
        r := r + {newclause};
      }
    }
    ReducedListed(unit, clauses, cnf, r);
  }

  /** A set built from an iteration order of the store is the reduced store. */
  lemma ReducedListed(unit: Literal, clauses: seq<Clause>, cnf: Cnf, r: Cnf)
    requires Enumerates(clauses, cnf)
    requires forall c :: c in r <==> exists k :: 0 <= k < |clauses| && unit !in clauses[k] && c == Shrink(clauses[k], unit)
    ensures r == Reduced(unit, cnf)
  {
    forall c | c in Reduced(unit, cnf) ensures c in r {
      var d :| d in cnf && unit !in d && c == Shrink(d, unit);
      var k :| 0 <= k < |clauses| && clauses[k] == d;
    }
  }

  /** The size of the smallest clause, or -1 for an empty store. */
  method FindSmallestClause(cnf: Cnf) returns (n: int)
    ensures n == -1 <==> cnf == {}
    ensures n != -1 ==> (exists c :: c in cnf && |c| == n) && forall c :: c in cnf ==> n <= |c|
  {
    n := -1;
    var clauses := Elements(cnf);
    for i := 0 to |clauses|
      invariant n == -1 <==> i == 0
      invariant n != -1 ==> (exists k :: 0 <= k < i && |clauses[k]| == n) && forall k :: 0 <= k < i ==> n <= |clauses[k]|
    {
      var size := |clauses[i]|;
      if n == -1 || size < n {
        n := size;
      }
    }
    if cnf != {} {
      var c :| c in cnf;
      assert c in clauses;
    }
    if n != -1 {
      forall c | c in cnf ensures n <= |c| {
        var k :| 0 <= k < |clauses| && clauses[k] == c;
      }
    }
  }

  /** Whether some literal of `list` complements `exp`. */
  method ContainsNegation(exp: Literal, list: seq<Literal>) returns (b: bool)
    ensures b <==> exists k :: 0 <= k < |list| && Complements(exp, list[k])
  {
    for i := 0 to |list|
      invariant forall k :: 0 <= k < i ==> !Complements(exp, list[k])
    {
      if Complements(exp, list[i]) {
        return true;
      }
    }
    return false;
  }

  /** The first literal of `list` complementing `exp`; the source's null is None. */
  method GetNegation(exp: Literal, list: seq<Literal>) returns (r: Option<Literal>)
    ensures r.None? <==> forall k :: 0 <= k < |list| ==> !Complements(exp, list[k])
    ensures r.Some? ==> exists k :: 0 <= k < |list| && list[k] == r.value && Complements(exp, r.value) &&
                                     forall j :: 0 <= j < k ==> !Complements(exp, list[j])
  {
    for i := 0 to |list|
      invariant forall k :: 0 <= k < i ==> !Complements(exp, list[k])
    {
      if Complements(exp, list[i]) {
        return Some(list[i]);
      }
    }
    return None;
  }

  /** The list without the first occurrence of `x`, as ArrayList.remove(Object) leaves it. */
  function RemoveFirst<T(==)>(xs: seq<T>, x: T): (r: seq<T>)
    ensures x !in xs ==> r == xs
    ensures multiset(r) == multiset(xs) - multiset{x}
  {
    if |xs| == 0 then xs
    else if xs[0] == x then
      assert xs == [x] + xs[1..];
      xs[1..]
    else
      assert xs == [xs[0]] + xs[1..];
      [xs[0]] + RemoveFirst(xs[1..], x)
  }

  /** Removing from a list without repeats leaves the other elements, still without repeats. */
  lemma {:induction false} RemoveFirstDistinct(xs: seq<Literal>, x: Literal)
    requires Distinct(xs)
    ensures Distinct(RemoveFirst(xs, x))
    ensures forall y :: y in RemoveFirst(xs, x) <==> y in xs && y != x
    decreases |xs|
  {
    if |xs| > 0 {
      var tail := xs[1..];
      assert xs == [xs[0]] + tail;
      assert Distinct(tail) by {
        forall i, j | 0 <= i < j < |tail| ensures tail[i] != tail[j] {
          assert tail[i] == xs[i + 1] && tail[j] == xs[j + 1];
        }
      }
      assert xs[0] !in tail by {
        forall j | 0 <= j < |tail| ensures tail[j] != xs[0] {
          assert tail[j] == xs[j + 1];
        }
      }
      if xs[0] != x {
        RemoveFirstDistinct(tail, x);
        var rest := RemoveFirst(tail, x);
        assert RemoveFirst(xs, x) == [xs[0]] + rest;
        assert xs[0] !in rest;
        DistinctCons(xs[0], rest);
      } else {
        assert RemoveFirst(xs, x) == tail;
      }
    }
  }

  /** Putting an element in front of a list without repeats that lacks it keeps it without repeats. */
  lemma DistinctCons(x: Literal, xs: seq<Literal>)
    requires Distinct(xs) && x !in xs
    ensures Distinct([x] + xs)
  {
    var ys := [x] + xs;
    forall i, j | 0 <= i < j < |ys| ensures ys[i] != ys[j] {
      assert ys[j] == xs[j - 1];
      if i > 0 {
        assert ys[i] == xs[i - 1];
      }
    }
  }

  // ---------------------------------------------------------------------
  // Pure literals

  /** `l` occurs in `f` and no complement of it does. */
  ghost predicate Pure(l: Literal, f: Cnf)
  {
    Occurs(l, f) && NoComplement(l, f)
  }

  /** Two literals with at most one negation each have at most one complement. */
  lemma ComplementUnique(a: Literal, b: Literal, c: Literal)
    requires a.negs <= 1 && b.negs <= 1 && c.negs <= 1
    requires Complements(a, b) && Complements(a, c)
    ensures b == c
  {
  }

  /** Two different literals with at most one negation each and no complement between them have different names. */
  lemma NamesApart(a: Literal, b: Literal)
    requires a.negs <= 1 && b.negs <= 1 && a != b && !Complements(a, b)
    ensures a.name != b.name
  {
  }

  /**
   * What the scan keeps after visiting the literals `seen`: `one` holds,
   * without repeats, the literals seen whose complement was not seen, and,
   * when every literal seen carries at most one negation, `two` holds the
   * literals seen together with a complement.
   */
  ghost predicate Tally(one: seq<Literal>, two: seq<Literal>, seen: set<Literal>)
  {
    Distinct(one) && (forall l :: l in one ==> l in seen) && (forall l :: l in two ==> l in seen) &&
    ((forall m :: m in seen ==> m.negs <= 1) ==>
       (forall l :: l in one <==> l in seen && forall m :: m in seen ==> !Complements(l, m)) &&
       (forall l :: l in two <==> l in seen && exists m :: m in seen && Complements(l, m)))
  }

  /** One step of the polarity scan on the literal `exp`. */
  method Visit(exp: Literal, one: seq<Literal>, two: seq<Literal>, ghost seen: set<Literal>)
      returns (one': seq<Literal>, two': seq<Literal>)
    requires Tally(one, two, seen)
    ensures Tally(one', two', seen + {exp})
  {
    one', two' := one, two;
    var has := ContainsNegation(exp, one);
    if has {
      var neg := GetNegation(exp, one);
      assert neg.Some?;
      var n := neg.value;
      two' := two + [exp, n];
      one' := RemoveFirst(one, n);
      RemoveFirstDistinct(one, n);
      if forall m :: m in seen + {exp} ==> m.negs <= 1 {
        forall l | l in seen + {exp} && l != n && Complements(l, exp) ensures false {
          ComplementUnique(exp, l, n);
        }
      }
    } else if exp !in one && exp !in two {
      one' := one + [exp];
      if forall m :: m in seen + {exp} ==> m.negs <= 1 {
        assert exp !in seen;
        forall m | m in seen ensures !Complements(exp, m) {
          if Complements(exp, m) {
            assert m !in one;
            var w :| w in seen && Complements(m, w);
            ComplementUnique(m, w, exp);
          }
        }
      }
    } else {
      assert exp in seen;
      assert seen + {exp} == seen;
    }
  }

  /** The polarity scan over the literals of one clause, in iteration order. */
  method VisitClause(c: Clause, one: seq<Literal>, two: seq<Literal>, ghost seen: set<Literal>)
      returns (one': seq<Literal>, two': seq<Literal>)
    requires Tally(one, two, seen)
    ensures Tally(one', two', seen + c)
  {
    one', two' := one, two;
    var lits := Elements(c);
    ghost var now := seen;
    for j := 0 to |lits|
      invariant Tally(one', two', now)
      invariant now == seen + set l | l in lits[..j]
    {
      one', two' := Visit(lits[j], one', two', now);
      assert lits[..j + 1] == lits[..j] + [lits[j]];
      now := now + {lits[j]};
    }
    assert lits[..|lits|] == lits;
    assert now == seen + c;
  }

  /**
   * The literals that occur in only one polarity in `cnf`, found by a scan
   * that moves a literal from the one-polarity list to the two-polarity list
   * when its complement turns up.
   */
  method PureLiterals(cnf: Cnf) returns (one: seq<Literal>)
    ensures Distinct(one) && forall l :: l in one ==> Occurs(l, cnf)
    ensures AtMostOneNegation(cnf) ==> forall l :: l in one <==> Pure(l, cnf)
  {
    one := [];
    var two: seq<Literal> := [];
    ghost var seen: set<Literal> := {};
    var clauses := Elements(cnf);
    for i := 0 to |clauses|
      invariant Tally(one, two, seen)
      invariant forall l :: l in seen <==> exists k :: 0 <= k < i && l in clauses[k]
    {
      one, two := VisitClause(clauses[i], one, two, seen);
      seen := seen + clauses[i];
    }
    SeenAll(clauses, cnf, seen);
  }

  /** The literals met in an iteration order of the store are the literals occurring in it. */
  lemma SeenAll(clauses: seq<Clause>, cnf: Cnf, seen: set<Literal>)
    requires Enumerates(clauses, cnf)
    requires forall l :: l in seen <==> exists k :: 0 <= k < |clauses| && l in clauses[k]
    ensures forall l :: l in seen <==> Occurs(l, cnf)
    ensures AtMostOneNegation(cnf) ==> forall m :: m in seen ==> m.negs <= 1
    ensures forall l :: (forall m :: m in seen ==> !Complements(l, m)) <==> NoComplement(l, cnf)
  {
    forall l | Occurs(l, cnf) ensures l in seen {
      var c :| c in cnf && l in c;
      var k :| 0 <= k < |clauses| && clauses[k] == c;
    }
  }

  // ---------------------------------------------------------------------
  // What the procedure keeps true while it assigns atoms

  /** Every key of `m` names an atom of `f`. */
  ghost predicate KeysFrom(m: map<Literal, bool>, f: Cnf)
  {
    forall k :: k in m ==> Named(k.name, f)
  }

  /**
   * The remaining clauses `g` and the partial model `m` account for `f`:
   * either `g` holds the empty clause, or every assignment agreeing with `m`
   * that satisfies `g` satisfies `f`, and no atom of `m` occurs in `g`.
   */
  ghost predicate Sound(f: Cnf, g: Cnf, m: map<Literal, bool>)
  {
    {} in g ||
    ((forall v :: Agrees(v, m) && CnfHolds(g, v) ==> CnfHolds(f, v)) &&
     (forall k, c, l :: k in m && c in g && l in c ==> l.name != k.name))
  }

  /** The state of the procedure: `m` assigns atoms of `f`, and with one negation at most `g` is sound and keeps satisfiability. */
  ghost predicate Invariant(f: Cnf, g: Cnf, m: map<Literal, bool>)
  {
    KeysAreAtoms(m) && KeysFrom(m, f) && Drawn(g, f) &&
    (AtMostOneNegation(f) ==> Sound(f, g, m) && (Satisfiable(f) ==> Satisfiable(g)))
  }

  /** The procedure starts from the whole store and an empty model. */
  lemma InvariantStart(f: Cnf)
    ensures Invariant(f, f, map[])
  {
  }

  /** Literals drawn from a store with at most one negation carry at most one negation. */
  lemma DrawnAtMostOne(f: Cnf, g: Cnf)
    requires AtMostOneNegation(f) && Drawn(g, f)
    ensures AtMostOneNegation(g)
  {
    forall c, l | c in g && l in c ensures l.negs <= 1 {
      assert Occurs(l, f);
    }
  }

  /** Reduction only keeps literals that were there. */
  lemma ReducedDrawn(u: Literal, g: Cnf, f: Cnf)
    requires Drawn(g, f)
    ensures Drawn(Reduced(u, g), f)
  {
    forall c, l | c in Reduced(u, g) && l in c ensures Occurs(l, f) {
      var d :| d in g && u !in d && c == Shrink(d, u);
      assert l in d;
    }
  }

  /** Giving `u` the value that makes it true and reducing by it keeps the remaining clauses sound. */
  lemma AssignSound(f: Cnf, g: Cnf, m: map<Literal, bool>, u: Literal)
    requires AtMostOneNegation(f) && Drawn(g, f) && Sound(f, g, m) && KeysAreAtoms(m)
    requires u.negs <= 1
    requires {} in g || Key(u.name) !in m
    ensures Sound(f, Reduced(u, g), m[Key(u.name) := u.negs != 1])
  {
    var m' := m[Key(u.name) := u.negs != 1];
    var g' := Reduced(u, g);
    ReducedKeepsEmpty(u, g);
    if {} !in g' {
      DrawnAtMostOne(f, g);
      ReducedDropsName(u, g);
      forall v | Agrees(v, m') && CnfHolds(g', v) ensures CnfHolds(f, v) {
        assert Agrees(v, m) by {
          forall k | k in m ensures v(k.name) == m[k] {
            assert k != Key(u.name);
            assert m'[k] == m[k];
          }
        }
        assert v(u.name) == (u.negs != 1);
        assert LitValue(u, v);
        ReducedValue(u, g, v);
      }
      forall k, c, l | k in m' && c in g' && l in c ensures l.name != k.name {
        var d :| d in g && u !in d && c == Shrink(d, u);
        assert l in d;
      }
    }
  }

  /** Reducing by a unit clause's literal keeps a satisfiable store satisfiable. */
  lemma UnitKept(f: Cnf, g: Cnf, u: Literal)
    requires Satisfiable(f) ==> Satisfiable(g)
    requires {u} in g || {} in g
    ensures Satisfiable(f) ==> Satisfiable(Reduced(u, g))
  {
    if Satisfiable(f) {
      var v :| CnfHolds(g, v);
      assert {} !in g;
      assert ClauseHolds({u}, v);
      ReducedValue(u, g, v);
    }
  }

  /** The assignment `v` with the name `n` given the value `b`. */
  function Update(v: string -> bool, n: string, b: bool): (w: string -> bool)
    ensures w(n) == b && forall x :: x != n ==> w(x) == v(x)
  {
    x => if x == n then b else v(x)
  }

  /** A literal's value depends only on its own name's value. */
  lemma SameValue(l: Literal, v: string -> bool, w: string -> bool)
    requires v(l.name) == w(l.name)
    ensures LitValue(l, v) == LitValue(l, w)
  {
  }

  /** Making `p` true keeps a clause satisfied when the clause holds no complement of `p`. */
  lemma PureFlipClause(c: Clause, v: string -> bool, p: Literal)
    requires ClauseHolds(c, v) && p.negs <= 1
    requires forall l :: l in c ==> l.negs <= 1 && !Complements(p, l)
    ensures ClauseHolds(c, Update(v, p.name, p.negs != 1))
  {
    var w := Update(v, p.name, p.negs != 1);
    if p in c {
      assert LitValue(p, w);
    } else {
      var l :| l in c && LitValue(l, v);
      NamesApart(p, l);
      SameValue(l, v, w);
    }
  }

  /** Making a literal true whose complement occurs nowhere keeps every clause satisfied. */
  lemma PureFlip(g: Cnf, v: string -> bool, p: Literal)
    requires CnfHolds(g, v)
    requires AtMostOneNegation(g) && p.negs <= 1
    requires NoComplement(p, g)
    ensures CnfHolds(g, Update(v, p.name, p.negs != 1))
  {
    forall c | c in g ensures ClauseHolds(c, Update(v, p.name, p.negs != 1)) {
      PureFlipClause(c, v, p);
    }
  }

  /** Reducing by a pure literal keeps a satisfiable store satisfiable: making it true breaks no clause. */
  lemma PureKept(f: Cnf, g: Cnf, p: Literal)
    requires Satisfiable(f) ==> Satisfiable(g)
    requires AtMostOneNegation(g) && p.negs <= 1
    requires NoComplement(p, g)
    ensures Satisfiable(f) ==> Satisfiable(Reduced(p, g))
  {
    if Satisfiable(f) {
      var v :| CnfHolds(g, v);
      PureFlip(g, v, p);
      var w := Update(v, p.name, p.negs != 1);
      assert LitValue(p, w);
      ReducedValue(p, g, w);
    }
  }

  /** One unit propagation step keeps the procedure's state. */
  lemma UnitStep(f: Cnf, g: Cnf, m: map<Literal, bool>, u: Literal)
    requires Invariant(f, g, m)
    requires {u} in g || {} in g
    requires Occurs(u, f)
    ensures Invariant(f, Reduced(u, g), m[Key(u.name) := u.negs != 1])
  {
    ReducedKeepsEmpty(u, g);
    ReducedDrawn(u, g, f);
    var c :| c in f && u in c;
    assert Named(u.name, f);
    if AtMostOneNegation(f) {
      assert u.negs <= 1;
      if {} !in g {
        assert Key(u.name) !in m by {
          assert u in {u};
        }
      }
      AssignSound(f, g, m, u);
      UnitKept(f, g, u);
    }
  }

  /** One pure literal step keeps the procedure's state. */
  lemma PureStep(f: Cnf, g: Cnf, m: map<Literal, bool>, p: Literal)
    requires Invariant(f, g, m)
    requires Occurs(p, f)
    requires AtMostOneNegation(f) ==> NoComplement(p, g) && ({} in g || Key(p.name) !in m)
    ensures Invariant(f, Reduced(p, g), m[Key(p.name) := p.negs != 1])
  {
    ReducedKeepsEmpty(p, g);
    ReducedDrawn(p, g, f);
    var c :| c in f && p in c;
    assert Named(p.name, f);
    if AtMostOneNegation(f) {
      assert p.negs <= 1;
      DrawnAtMostOne(f, g);
      AssignSound(f, g, m, p);
      PureKept(f, g, p);
    }
  }

  /** Reducing by a literal whose complement does not occur only drops clauses. */
  lemma PureReducedSubset(p: Literal, g: Cnf)
    requires NoComplement(p, g)
    ensures Reduced(p, g) <= g
  {
    forall c | c in Reduced(p, g) ensures c in g {
      var d :| d in g && p !in d && c == Shrink(d, p);
      assert Shrink(d, p) == d;
    }
  }

  /** Unit clauses of the pass still to come stay (or the empty clause appears) after reducing by another unit. */
  lemma UnitsSurvive(g: Cnf, u: Literal, snapshot: seq<Clause>, i: nat)
    requires Distinct(snapshot) && i < |snapshot| && snapshot[i] == {u}
    requires forall k :: i <= k < |snapshot| && |snapshot[k]| == 1 ==> snapshot[k] in g || {} in g
    ensures forall k :: i < k < |snapshot| && |snapshot[k]| == 1 ==> snapshot[k] in Reduced(u, g) || {} in Reduced(u, g)
  {
    ReducedKeepsEmpty(u, g);
    forall k | i < k < |snapshot| && |snapshot[k]| == 1 && snapshot[k] in g
      ensures snapshot[k] in Reduced(u, g) || {} in Reduced(u, g)
    {
      var w :| w in snapshot[k];
      Singleton(snapshot[k], w);
      assert u != w;
      assert Shrink({w}, u) in Reduced(u, g);
      if Complements(w, u) {
        assert Shrink({w}, u) == {};
      } else {
        assert Shrink({w}, u) == {w};
      }
    }
  }

  /** A clause of size one is the set of its element. */
  lemma Singleton(c: Clause, x: Literal)
    requires |c| == 1 && x in c
    ensures c == {x}
  {
    var rest := c - {x};
    assert |rest| == 0;
  }

  // ---------------------------------------------------------------------
  // The procedure

  /**
   * Unit propagation: while the smallest clause has one literal, one pass
   * over the clauses as they stood at its start gives each unit's atom the
   * value that makes the unit true and reduces the store by it.
   */
  method PropagateUnits(model: LogicModel, g0: Cnf, ghost f: Cnf) returns (g: Cnf)
    requires Invariant(f, g0, model.model)
    modifies model
    ensures Invariant(f, g, model.model)
    ensures {} in g || forall c :: c in g ==> |c| != 1
  {
    g := g0;
    var smallest := FindSmallestClause(g);
    while smallest == 1
      invariant Invariant(f, g, model.model)
      invariant smallest == -1 <==> g == {}
      invariant smallest != -1 ==> (exists c :: c in g && |c| == smallest) && forall c :: c in g ==> smallest <= |c|
      decreases |g|
    {
      ghost var start := g;
      assert Drawn(start, f);
      var snapshot := Elements(g);
      for i := 0 to |snapshot|
        invariant Invariant(f, g, model.model)
        invariant forall k :: i <= k < |snapshot| && |snapshot[k]| == 1 ==> snapshot[k] in g || {} in g
        invariant |g| <= |start|
        invariant (forall k :: 0 <= k < i ==> |snapshot[k]| != 1) ==> g == start
        invariant (exists k :: 0 <= k < i && |snapshot[k]| == 1) ==> |g| < |start|
      {
        var clause := snapshot[i];
        if |clause| == 1 {
          var exp :| exp in clause;
          Singleton(clause, exp);
          assert Occurs(exp, f) by {
            assert clause in start;
          }
          UnitStep(f, g, model.model, exp);
          UnitsSurvive(g, exp, snapshot, i);
          ReducedSize(exp, g);
          model.AddAtom(exp, exp.negs != 1);
          g := ReduceCnf(exp, g);
        }
      }
      assert exists k :: 0 <= k < |snapshot| && |snapshot[k]| == 1 by {
        var c :| c in start && |c| == 1;
        var k :| 0 <= k < |snapshot| && snapshot[k] == c;
      }
      smallest := FindSmallestClause(g);
    }
    if smallest == 0 {
      var c :| c in g && |c| == 0;
      assert c == {};
    }
  }

  /**
   * The pure literal step: each literal occurring in one polarity only gets
   * the value that makes it true, and the store is reduced by it.
   */
  method AssignPure(model: LogicModel, g0: Cnf, ghost f: Cnf) returns (g: Cnf)
    requires Invariant(f, g0, model.model)
    modifies model
    ensures Invariant(f, g, model.model)
    ensures {} in g0 ==> {} in g
    ensures AtMostOneNegation(f) ==> g <= g0
  {
    var one := PureLiterals(g0);
    g := g0;
    assert Drawn(g0, f);
    if AtMostOneNegation(f) {
      DrawnAtMostOne(f, g0);
      if {} !in g0 {
        forall k | 0 <= k < |one| ensures Key(one[k].name) !in model.model {
          assert one[k] in one;
          var c :| c in g0 && one[k] in c;
        }
      }
    }
    for i := 0 to |one|
      invariant Invariant(f, g, model.model)
      invariant {} in g0 ==> {} in g
      invariant AtMostOneNegation(f) ==> g <= g0
      invariant AtMostOneNegation(f) ==> {} in g || forall k :: i <= k < |one| ==> Key(one[k].name) !in model.model
    {
      var atom := one[i];
      assert Occurs(atom, f) by {
        assert atom in one;
        var c :| c in g0 && atom in c;
      }
      if AtMostOneNegation(f) {
        assert Pure(atom, g0);
        assert NoComplement(atom, g);
        PureReducedSubset(atom, g);
        forall k | i < k < |one| ensures one[k].name != atom.name {
          assert Pure(one[k], g0);
          var c :| c in g0 && one[k] in c;
          var d :| d in g0 && atom in d;
          NamesApart(atom, one[k]);
        }
      }
      PureStep(f, g, model.model, atom);
      ReducedKeepsEmpty(atom, g);
      model.AddAtom(atom, atom.negs != 1);
      g := ReduceCnf(atom, g);
    }
  }

  /** What the procedure returns; the source returns a model or null, and splitting is not followed. */
  datatype Outcome =
    | Found(model: LogicModel)
    | NoModel
    | NeedsSplit(model: LogicModel, rest: Cnf)

  /**
   * A split would be entered on `rest` with the partial model `m`: every
   * remaining clause has two literals or more, `rest` is satisfiable when
   * `f` is, any assignment agreeing with `m` that satisfies `rest` satisfies
   * `f`, and no atom of `m` occurs in `rest`.
   */
  ghost predicate Undecided(f: Cnf, rest: Cnf, m: map<Literal, bool>)
  {
    (forall c :: c in rest ==> |c| >= 2) &&
    (Satisfiable(f) ==> Satisfiable(rest)) &&
    (forall v :: Agrees(v, m) && CnfHolds(rest, v) ==> CnfHolds(f, v)) &&
    (forall k, c, l :: k in m && c in rest && l in c ==> l.name != k.name)
  }

  /** A store holding the empty clause has no model. */
  lemma EmptyClauseUnsatisfiable(g: Cnf)
    requires {} in g
    ensures !Satisfiable(g)
  {
    forall v ensures !CnfHolds(g, v) {
      assert !ClauseHolds({}, v);
    }
  }

  /** A model that extends one accounting for the whole store satisfies the store. */
  lemma FoundModel(f: Cnf, m: map<Literal, bool>, m': map<Literal, bool>)
    requires Sound(f, {}, m) && KeysAreAtoms(m')
    requires forall k :: k in m ==> k in m' && m'[k] == m[k]
    ensures CnfHolds(f, Valuation(m'))
  {
    var v := Valuation(m');
    assert Agrees(v, m);
    assert CnfHolds({}, v);
  }

  /** A subset at least as large as its superset is the superset. */
  lemma SubsetFull<T>(a: set<T>, b: set<T>)
    requires a <= b && |a| >= |b|
    ensures a == b
  {
    assert b == a + (b - a);
    assert |b - a| == 0;
  }

  /**
   * Completion: when the model has fewer atoms than the store, every atom it
   * lacks is set to true; the atoms it has keep their values.
   */
  method CompleteModel(model: LogicModel, atoms: set<Literal>)
    requires forall a :: a in atoms ==> a.negs == 0
    requires model.model.Keys <= atoms
    modifies model
    ensures model.model.Keys == atoms
    ensures forall k :: k in old(model.model) ==> model.model[k] == old(model.model)[k]
    ensures forall k :: k in model.model && k !in old(model.model) ==> model.model[k]
  {
    if model.GetSize() < |atoms| {
      var order := Elements(atoms);
      for i := 0 to |order|
        invariant model.model.Keys <= atoms
        invariant forall k :: 0 <= k < i ==> order[k] in model.model
        invariant forall k :: k in old(model.model) ==> k in model.model && model.model[k] == old(model.model)[k]
        invariant forall k :: k in model.model && k !in old(model.model) ==> model.model[k]
      {
        var atom := order[i];
        if !model.Contains(atom) {
          assert Key(atom.name) == atom;
          model.AddAtom(atom, true);
        }
      }
    } else {
      SubsetFull(model.model.Keys, atoms);
    }
  }

  /**
   * Davis-Putnam on the store: unit propagation, then pure literals; an
   * emptied store gives the model, completed with true for every atom not
   * assigned; a store holding the empty clause gives no model.
   */
  method DavisPutnam(cnf: ClauseNormalForm) returns (r: Outcome)
    ensures r.Found? ==> forall k :: k in r.model.model <==> k.negs == 0 && Named(k.name, cnf.cnf)
    ensures r.Found? && AtMostOneNegation(cnf.cnf) ==> CnfHolds(cnf.cnf, Valuation(r.model.model))
    ensures r.NoModel? && AtMostOneNegation(cnf.cnf) ==> !Satisfiable(cnf.cnf)
    ensures r.NeedsSplit? ==> r.rest != {} && {} !in r.rest && Drawn(r.rest, cnf.cnf)
    ensures r.NeedsSplit? ==> forall k :: k in r.model.model ==> k.negs == 0 && Named(k.name, cnf.cnf)
    ensures r.NeedsSplit? && AtMostOneNegation(cnf.cnf) ==> Undecided(cnf.cnf, r.rest, r.model.model)
  {
    var atoms := cnf.GetAtoms();
    var model := new LogicModel();
    var cnf1 := cnf.GetCnf();
    ghost var f := cnf1;
    InvariantStart(f);
    if cnf1 != {} {
      var units := PropagateUnits(model, cnf1, f);
      cnf1 := AssignPure(model, units, f);
      if cnf1 != {} {
        if {} in cnf1 {
          if AtMostOneNegation(f) {
            EmptyClauseUnsatisfiable(cnf1);
          }
          return NoModel;
        }
        return NeedsSplit(model, cnf1);
      }
    }
    ghost var m0 := model.model;
    assert forall k :: k in model.model ==> k in atoms;
    CompleteModel(model, atoms);
    if AtMostOneNegation(f) {
      FoundModel(f, m0, model.model);
    }
    return Found(model);
  }
}
