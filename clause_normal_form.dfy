/** The clause store of the n-ary package: a mutable set of clauses. */
module ClauseNormalForm {
  import opened Wrappers
  import opened Text
  import opened Clauses
  import opened ComplementingPair

  /** `c1` and `c2` are distinct clauses of `f`, `c1` not yet resolved, with a complementary pair between them. */
  predicate UnresolvedPair(f: Cnf, resolved: set<Clause>, c1: Clause, c2: Clause)
  {
    c1 in f && c2 in f && c1 !in resolved && c1 != c2 && ComplementaryClauses(c1, c2)
  }

  /** No clause outside `resolved` has a complementary partner in `f`. */
  ghost predicate Saturated(f: Cnf, resolved: set<Clause>)
  {
    forall c1, c2 :: !UnresolvedPair(f, resolved, c1, c2)
  }

  /** The negation count hasComplement looks for: 0 against a once-negated literal, else 1. */
  function ComplementCount(at: Literal): nat
  {
    if at.negs == 1 then 0 else 1
  }

  /** Some literal of `c` complements `exp`. */
  method ComplementIn(exp: Literal, c: Clause) returns (b: bool)
    ensures b <==> exists l :: l in c && Complements(exp, l)
  {
    var todo := c;
    while todo != {}
      invariant todo <= c
      invariant forall l :: l in c - todo ==> !Complements(exp, l)
      decreases |todo|
    {
      var l :| l in todo;
      if Complements(exp, l) {
        return true;
      }
      todo := todo - {l};
    }
    return false;
  }

  class ClauseNormalForm {
    var cnf: Cnf

    /** The store holds the given clauses. */
    constructor(cnf: Cnf)
      ensures this.cnf == cnf
    {
      this.cnf := cnf;
    }

    function GetCnf(): (r: Cnf)
      reads this
      ensures r == cnf
    {
      cnf
    }

    /** Another clause of the store with a literal complementing `exp`, if any. */
    method PartnerFor(exp: Literal, clause: Clause) returns (r: Option<Clause>)
      ensures r.Some? ==> r.value in cnf && r.value != clause
      ensures r.Some? ==> exists l :: l in r.value && Complements(exp, l)
      ensures r.None? ==> forall c1, l :: c1 in cnf && c1 != clause && l in c1 ==> !Complements(exp, l)
    {
      var todo := cnf;
      while todo != {}
        invariant todo <= cnf
        invariant forall c1, l :: c1 in cnf - todo && c1 != clause && l in c1 ==> !Complements(exp, l)
        decreases |todo|
      {
        var c1 :| c1 in todo;
        if c1 != clause {
          var found := ComplementIn(exp, c1);
          if found {
            return Some(c1);
          }
        }
        todo := todo - {c1};
      }
      return None;
    }

    /** Another clause of the store complementary to `clause`, if any. */
    method PartnerOf(clause: Clause) returns (r: Option<Clause>)
      ensures r.Some? ==> r.value in cnf && r.value != clause && ComplementaryClauses(clause, r.value)
      ensures r.None? ==> forall c1 :: c1 in cnf && c1 != clause ==> !ComplementaryClauses(clause, c1)
    {
      var todo := clause;
      while todo != {}
        invariant todo <= clause
        invariant forall exp, c1, l :: exp in clause - todo && c1 in cnf && c1 != clause && l in c1 ==> !Complements(exp, l)
        decreases |todo|
      {
        var exp :| exp in todo;
        var p := PartnerFor(exp, clause);
        if p.Some? {
          return p;
        }
        todo := todo - {exp};
      }
      return None;
    }

    /**
     * A pair of distinct clauses with a complementary pair of literals, the
     * first not in `resolved` (the second may be); None exactly when there is
     * no such pair.
     */
    method FindUnresolvedPair(resolved: set<Clause>) returns (r: Option<ComplementingPair>)
      ensures r.Some? ==> UnresolvedPair(cnf, resolved, r.value.first, r.value.second)
      ensures r.None? <==> Saturated(cnf, resolved)
    {
      var todo := cnf;
      while todo != {}
        invariant todo <= cnf
        invariant forall c1, c2 :: c1 in cnf - todo ==> !UnresolvedPair(cnf, resolved, c1, c2)
        decreases |todo|
      {
        var clause :| clause in todo;
        if clause !in resolved {
          var p := PartnerOf(clause);
          if p.Some? {
            assert UnresolvedPair(cnf, resolved, clause, p.value);
            return Some(ComplementingPair(clause, p.value));
          }
        }
        todo := todo - {clause};
      }
      return None;
    }

    /**
     * Some clause holds a literal named like `at` with the complementary
     * count: 0 when `at` is negated once, 1 otherwise.
     */
    method HasComplement(at: Literal) returns (b: bool)
      ensures b <==> exists c, l :: c in cnf && l in c && l.name == at.name && l.negs == ComplementCount(at)
    {
      var complement := 1;
      if at.negs == 1 {
        complement := 0;
      }
      var todo := cnf;
      while todo != {}
        invariant todo <= cnf
        invariant forall c, l :: c in cnf - todo && l in c ==> !(l.name == at.name && l.negs == complement)
        decreases |todo|
      {
        var c: Clause :| c in todo;
        var lits := c;
        while lits != {}
          invariant lits <= c
          invariant forall l: Literal :: l in c - lits ==> !(l.name == at.name && l.negs == complement)
          decreases |lits|
        {
          var l :| l in lits;
          if l.name == at.name && l.negs == complement {
            return true;
          }
          lits := lits - {l};
        }
        todo := todo - {c};
      }
      return false;
    }

    /** Inserts a clause and returns this same store; inserting a present clause changes nothing. */
    method Add(c: Clause) returns (r: ClauseNormalForm)
      modifies this
      ensures cnf == old(cnf) + {c}
      ensures r == this
    {
      cnf := cnf + {c};
      r := this;
    }

    /** Two stores are equal iff they hold the same clauses. */
    function Equals(other: ClauseNormalForm): (b: bool)
      reads this, other
      ensures b <==> cnf == other.cnf
    {
      other == this || other.cnf == cnf
    }

    /** One un-negated literal for every name occurring in any clause, in any polarity. */
    method GetAtoms() returns (atoms: set<Literal>)
      ensures forall a :: a in atoms <==> a.negs == 0 && exists c, l :: c in cnf && l in c && l.name == a.name
    {
      atoms := {};
      var todo := cnf;
      while todo != {}
        invariant todo <= cnf
        invariant forall a :: a in atoms <==> a.negs == 0 && exists c, l :: c in cnf - todo && l in c && l.name == a.name
        decreases |todo|
      {
        var c: Clause :| c in todo;
        var lits := c;
        ghost var before := atoms;
        while lits != {}
          invariant lits <= c
          invariant forall a :: a in atoms <==> a in before || (a.negs == 0 && exists l: Literal :: l in c - lits && l.name == a.name)
          decreases |lits|
        {
          var l :| l in lits;
          if !(exists a :: a in atoms && Complements(l, a)) {
            atoms := atoms + {Literal(l.name, 0)};
          }
          lits := lits - {l};
        }
        todo := todo - {c};
      }
    }

    /**
     * Renders the store as "{" + the clauses joined by ", " + "}", each clause
     * "{" + its literals joined by ", " + "}", in hash-set iteration order.
     * The source trims two characters off "{" for an empty store or an empty
     * clause and throws; that outcome is None.
     */
    method ToString(render: Literal -> string) returns (r: Option<string>, ghost order: seq<Clause>, ghost texts: seq<string>)
      ensures r.None? <==> cnf == {} || {} in cnf
      ensures r.Some? ==> Enumerates(order, cnf) && |texts| == |order|
      ensures r.Some? ==> forall k :: 0 <= k < |order| ==> IsClauseText(texts[k], order[k], render)
      ensures r.Some? ==> r.value == "{" + JoinComma(texts) + "}"
    {
      var clauses := Elements(cnf);
      order := clauses;
      texts := [];
      var s := "{";
      for i := 0 to |clauses|
        invariant {} !in clauses[..i]
        invariant |texts| == i
        invariant forall k :: 0 <= k < i ==> IsClauseText(texts[k], clauses[k], render)
        invariant s == "{" + Trailing(texts)
      {
        var text, lits := ClauseToString(clauses[i], render);
        if text.None? {
          return None, order, texts;
        }
        ghost var prefix := Trailing(texts);
        s := s + text.value + ", ";
        TrailingSnoc(texts, text.value);
        assert s == "{" + (prefix + text.value + ", ");
        texts := texts + [text.value];
      }
      if |clauses| == 0 {
        return None, order, texts;
      }
      assert clauses[0] in cnf;
      assert clauses[..|clauses|] == clauses;
      TrimBraced(texts);
      r := Some(s[..|s| - 2] + "}");
    }
  }

  /** `t` renders the clause `c` in some iteration order of its literals. */
  ghost predicate IsClauseText(t: string, c: Clause, render: Literal -> string)
  {
    exists lo :: Enumerates(lo, c) && t == "{" + JoinComma(MapRender(lo, render)) + "}"
  }

  /** "{" + the literals joined by ", " + "}"; the source throws for an empty clause. */
  method ClauseToString(c: Clause, render: Literal -> string) returns (r: Option<string>, ghost order: seq<Literal>)
    ensures r.None? <==> c == {}
    ensures Enumerates(order, c)
    ensures r.Some? ==> r.value == "{" + JoinComma(MapRender(order, render)) + "}"
    ensures r.Some? ==> IsClauseText(r.value, c, render)
  {
    var lits := Elements(c);
    order := lits;
    var s := "{";
    for i := 0 to |lits|
      invariant s == "{" + Trailing(MapRender(lits[..i], render))
    {
      ghost var prefix := Trailing(MapRender(lits[..i], render));
      s := s + render(lits[i]) + ", ";
      assert lits[..i + 1] == lits[..i] + [lits[i]];
      MapRenderSnoc(lits[..i], lits[i], render);
      TrailingSnoc(MapRender(lits[..i], render), render(lits[i]));
      assert s == "{" + (prefix + render(lits[i]) + ", ");
    }
    if |lits| == 0 {
      return None, order;
    }
    assert lits[0] in c;
    assert lits[..|lits|] == lits;
    TrimBraced(MapRender(lits, render));
    r := Some(s[..|s| - 2] + "}");
  }
}
