/**
 * Reading a rendered conjunctive normal form back into clauses
 * (LogicMethods.findClauses of the n-ary package). The scanner looks, from
 * the current position, for the leftmost atom name "[A-Z]+[0-9]*" and the
 * leftmost connective "&|\||->|<->", and acts on whichever starts first.
 */
module FindClauses {
  import opened Wrappers
  import opened Text
  import opened Clauses

  /** What the scanner acts on at each step. */
  datatype Token = Lit(lit: Literal) | Amp | Bar | Arrow

  /** `l` is an atom name found in `s`, negated once exactly when a '-' stands right before it. */
  ghost predicate LiteralAt(s: string, l: Literal)
  {
    exists a, e :: 0 <= a < e <= |s| && s[a..e] == l.name && IsAtomName(l.name) &&
      l.negs == (if a > 0 && s[a - 1] == '-' then 1 else 0)
  }

  /** One step of the scanner: the token it acts on and the position it moves to, or the end of the input's matches. */
  datatype Move = Emit(tok: Token, next: nat) | Stop

  /**
   * The step from position `i`: a literal when the next atom name comes
   * before the next connective, else that connective; the position moves
   * past what was acted on, except at an arrow, where it stays on the arrow.
   */
  function Next(s: string, i: nat): (m: Move)
    requires i < |s|
    ensures m.Emit? ==> m.next <= |s|
    ensures m.Emit? && m.tok != Arrow ==> i < m.next
    ensures m.Emit? && m.tok.Lit? ==> LiteralAt(s, m.tok.lit)
    ensures (forall j :: i <= j < |s| ==> !IsUpper(s[j])) ==> !(m.Emit? && m.tok.Lit?)
  {
    var ls, ts := LiteralStart(s, i), TerminalStart(s, i);
    if ls < ts then
      var e := FindLiteral(s, i).value.1;
      var l := Literal(s[ls..e], if ls > 0 && s[ls - 1] == '-' then 1 else 0);
      FoundLiteralAt(s, ls, e, l);
      Emit(Lit(l), e)
    else if ls > ts then
      if s[ts] == '|' then Emit(Bar, ts + 1)
      else if s[ts] == '&' then Emit(Amp, ts + 1)
      else Emit(Arrow, ts)
    else Stop
  }

  lemma FoundLiteralAt(s: string, a: nat, e: nat, l: Literal)
    requires a < e <= |s| && s[a..e] == l.name && IsAtomName(l.name)
    requires l.negs == (if a > 0 && s[a - 1] == '-' then 1 else 0)
    ensures LiteralAt(s, l)
  {
  }

  /** The tokens the scanner acts on from position `i`; an arrow is the last, since the scanner never moves past it. */
  function Tokens(s: string, i: nat): seq<Token>
    requires i <= |s|
    decreases |s| - i
  {
    if i == |s| then []
    else
      match Next(s, i)
      case Stop => []
      case Emit(t, n) => if t == Arrow then [Arrow] else [t] + Tokens(s, n)
  }

  /** Every literal token is an atom name of the input, negated iff a '-' precedes it. */
  lemma {:induction false} TokensLiterals(s: string, i: nat)
    requires i <= |s|
    ensures forall t :: t in Tokens(s, i) && t.Lit? ==> LiteralAt(s, t.lit)
    decreases |s| - i
  {
    if i < |s| && Next(s, i).Emit? && Next(s, i).tok != Arrow {
      TokensLiterals(s, Next(s, i).next);
    }
  }

  /** Input from `i` on without a capital letter gives no literal token. */
  lemma {:induction false} TokensNoUpper(s: string, i: nat)
    requires i <= |s| && forall j :: i <= j < |s| ==> !IsUpper(s[j])
    ensures forall t :: t in Tokens(s, i) ==> !t.Lit?
    decreases |s| - i
  {
    if i < |s| && Next(s, i).Emit? && Next(s, i).tok != Arrow {
      TokensNoUpper(s, Next(s, i).next);
    }
  }

  /**
   * The clauses the tokens describe, in order: the literals between two
   * consecutive '&' form one clause; '|' separates nothing.
   */
  function Segments(ts: seq<Token>): (r: seq<Clause>)
    ensures |r| >= 1
    decreases |ts|
  {
    if ts == [] then [{}]
    else
      var init := Segments(ts[..|ts| - 1]);
      match ts[|ts| - 1]
      case Lit(l) => init[..|init| - 1] + [init[|init| - 1] + {l}]
      case Amp => init + [{}]
      case _ => init
  }

  /** The clause set the tokens make, or divergence when an arrow is met. */
  function Group(ts: seq<Token>): Run<Cnf>
  {
    if Arrow in ts then Diverges
    else Halts(set k | 0 <= k < |Segments(ts)| :: Segments(ts)[k])
  }

  /** The clauses closed so far: every segment but the last. */
  function Closed(ts: seq<Token>): Cnf
  {
    var segs := Segments(ts);
    set k | 0 <= k < |segs| - 1 :: segs[k]
  }

  /** The clause being filled: the last segment. */
  function Current(ts: seq<Token>): Clause
  {
    Segments(ts)[|Segments(ts)| - 1]
  }

  lemma SegmentsSnoc(ts: seq<Token>, t: Token)
    ensures Segments(ts + [t]) == match t
      case Lit(l) => Segments(ts)[..|Segments(ts)| - 1] + [Current(ts) + {l}]
      case Amp => Segments(ts) + [{}]
      case _ => Segments(ts)
  {
    assert (ts + [t])[..|ts|] == ts;
  }

  /** A literal extends the current clause and leaves the closed ones. */
  lemma LiteralStep(ts: seq<Token>, l: Literal)
    ensures Closed(ts + [Lit(l)]) == Closed(ts)
    ensures Current(ts + [Lit(l)]) == Current(ts) + {l}
  {
    SegmentsSnoc(ts, Lit(l));
    var segs, segs' := Segments(ts), Segments(ts + [Lit(l)]);
    assert forall k :: 0 <= k < |segs| - 1 ==> segs'[k] == segs[k];
  }

  /** A '|' changes nothing. */
  lemma BarStep(ts: seq<Token>)
    ensures Closed(ts + [Bar]) == Closed(ts) && Current(ts + [Bar]) == Current(ts)
  {
    SegmentsSnoc(ts, Bar);
  }

  /** Acting on one token moves it from the input still to scan to the tokens consumed. */
  lemma Advance(s: string, i: nat, consumed: seq<Token>)
    requires i < |s| && Next(s, i).Emit? && Next(s, i).tok != Arrow
    requires Tokens(s, 0) == consumed + Tokens(s, i)
    ensures Tokens(s, 0) == (consumed + [Next(s, i).tok]) + Tokens(s, Next(s, i).next)
  {
    var m := Next(s, i);
    assert Tokens(s, i) == [m.tok] + Tokens(s, m.next);
  }

  /** An '&' closes the current clause and opens an empty one. */
  lemma AmpStep(ts: seq<Token>)
    ensures Closed(ts + [Amp]) == Closed(ts) + {Current(ts)}
    ensures Current(ts + [Amp]) == {}
  {
    SegmentsSnoc(ts, Amp);
    var segs, segs' := Segments(ts), Segments(ts + [Amp]);
    assert forall k :: 0 <= k < |segs| ==> segs'[k] == segs[k];
    forall c | c in Closed(ts + [Amp]) ensures c in Closed(ts) + {Current(ts)} {
      var k :| 0 <= k < |segs'| - 1 && segs'[k] == c;
      if k < |segs| - 1 {
        assert c in Closed(ts);
      }
    }
  }

  /** The closed clauses together with the current one are all the segments. */
  lemma ClosedAndCurrent(ts: seq<Token>)
    ensures Closed(ts) + {Current(ts)} == set k | 0 <= k < |Segments(ts)| :: Segments(ts)[k]
  {
  }

  /**
   * Scans a rendered clause normal form: every atom name becomes a literal,
   * negated when a '-' stands right before it, and is added to the current
   * clause; '&' adds the current clause to the set and starts a new one, '|'
   * is skipped; the last clause is added at the end. An arrow token before
   * the next atom name leaves the position unchanged, so the scan never ends.
   */
  method FindClauses(expression: string) returns (r: Run<Cnf>)
    ensures r == Group(Tokens(expression, 0))
  {
    var s := expression;
    var cnf: Cnf := {};
    var currentClause: Clause := {};
    ghost var consumed: seq<Token> := [];
    var i := 0;
    while i < |s|
      invariant i <= |s|
      invariant Tokens(s, 0) == consumed + Tokens(s, i)
      invariant Arrow !in consumed
      invariant cnf == Closed(consumed) && currentClause == Current(consumed)
      decreases |s| - i
    {
      var step := Next(s, i);
      match step
      case Emit(Lit(newTerm), literalEnd) =>
        Advance(s, i, consumed);
        LiteralStep(consumed, newTerm);
        currentClause := currentClause + {newTerm};
        consumed := consumed + [Lit(newTerm)];
        i := literalEnd;
      case Emit(Bar, next) =>
        Advance(s, i, consumed);
        BarStep(consumed);
        consumed := consumed + [Bar];
        i := next;
      case Emit(Amp, next) =>
        Advance(s, i, consumed);
        AmpStep(consumed);
        cnf := cnf + {currentClause};
        currentClause := {};
        consumed := consumed + [Amp];
        i := next;
      case Emit(Arrow, _) =>
        assert Arrow in Tokens(s, 0) by {
          assert Tokens(s, 0)[|consumed|] == Arrow;
        }
        return Diverges;
      case Stop =>
        StopStays(s, i);
        i := i + 1;
    }
    assert Tokens(s, i) == [];
    assert Tokens(s, 0) == consumed;
    ClosedAndCurrent(consumed);
    cnf := cnf + {currentClause};
    return Halts(cnf);
  }

  /** With no match from `i` on there is none from `i + 1` on either. */
  lemma StopStays(s: string, i: nat)
    requires i < |s| && Next(s, i) == Stop
    ensures Tokens(s, i) == [] && Tokens(s, i + 1) == []
  {
  }

  /**
   * At an arrow the position moves to the arrow itself, and from there the
   * scanner meets the same arrow again: the loop repeats forever.
   */
  lemma ArrowStalls(s: string, i: nat)
    requires i < |s| && Next(s, i).Emit? && Next(s, i).tok == Arrow
    ensures var t := Next(s, i).next; t < |s| && Next(s, t) == Emit(Arrow, t)
  {
  }

  /** A literal is in some clause exactly when the scanner met it. */
  lemma {:induction false} SegmentsLiterals(ts: seq<Token>, l: Literal)
    ensures (exists k :: 0 <= k < |Segments(ts)| && l in Segments(ts)[k]) <==> Lit(l) in ts
    decreases |ts|
  {
    if ts != [] {
      var init := ts[..|ts| - 1];
      var t := ts[|ts| - 1];
      assert ts == init + [t];
      SegmentsSnoc(init, t);
      SegmentsLiterals(init, l);
      var segs, segs' := Segments(init), Segments(ts);
      assert Lit(l) in ts <==> Lit(l) in init || t == Lit(l);
      if t.Lit? {
        assert forall k :: 0 <= k < |segs| - 1 ==> segs'[k] == segs[k];
        assert segs'[|segs| - 1] == segs[|segs| - 1] + {t.lit};
        if Lit(l) in ts {
          if t == Lit(l) {
            assert l in segs'[|segs| - 1];
          } else {
            var k :| 0 <= k < |segs| && l in segs[k];
            assert l in segs'[k];
          }
        }
        if k :| 0 <= k < |segs'| && l in segs'[k] {
          if k < |segs| - 1 {
            assert l in segs[k];
          } else if l != t.lit {
            assert l in segs[|segs| - 1];
          }
        }
      } else if t == Amp {
        assert forall k :: 0 <= k < |segs| ==> segs'[k] == segs[k];
      }
    }
  }

  /** There is one clause more than there are '&' tokens. */
  function AmpCount(ts: seq<Token>): nat
  {
    if ts == [] then 0 else AmpCount(ts[..|ts| - 1]) + if ts[|ts| - 1] == Amp then 1 else 0
  }

  lemma {:induction false} SegmentsCount(ts: seq<Token>)
    ensures |Segments(ts)| == AmpCount(ts) + 1
    decreases |ts|
  {
    if ts != [] {
      SegmentsCount(ts[..|ts| - 1]);
    }
  }

  /** With no literal token every clause is empty. */
  lemma {:induction false} SegmentsEmpty(ts: seq<Token>)
    requires forall t :: t in ts ==> !t.Lit?
    ensures forall k :: 0 <= k < |Segments(ts)| ==> Segments(ts)[k] == {}
    decreases |ts|
  {
    if ts != [] {
      SegmentsEmpty(ts[..|ts| - 1]);
    }
  }

  /** Every literal in the clauses read is an atom name of the input, negated iff a '-' precedes it. */
  lemma ClauseLiteralsFromInput(s: string, c: Clause, l: Literal)
    requires Group(Tokens(s, 0)).Halts?
    requires c in Group(Tokens(s, 0)).value && l in c
    ensures LiteralAt(s, l)
  {
    var ts := Tokens(s, 0);
    var k :| 0 <= k < |Segments(ts)| && Segments(ts)[k] == c;
    assert l in Segments(ts)[k];
    assert exists j :: 0 <= j < |Segments(ts)| && l in Segments(ts)[j];
    SegmentsLiterals(ts, l);
    assert Lit(l) in ts;
    TokensLiterals(s, 0);
    assert Lit(l).Lit? && Lit(l).lit == l;
  }

  /** Input without any capital letter reads as the one empty clause, unless it stalls at an arrow. */
  lemma NoLiteralOneEmptyClause(s: string)
    requires forall j :: 0 <= j < |s| ==> !IsUpper(s[j])
    ensures Group(Tokens(s, 0)) == Diverges || Group(Tokens(s, 0)) == Halts({{}})
  {
    var ts := Tokens(s, 0);
    TokensNoUpper(s, 0);
    SegmentsEmpty(ts);
    OnlyEmpty(Segments(ts));
  }

  lemma OnlyEmpty(segs: seq<Clause>)
    requires |segs| >= 1 && forall k :: 0 <= k < |segs| ==> segs[k] == {}
    ensures (set k | 0 <= k < |segs| :: segs[k]) == {{}}
  {
    var all := set k | 0 <= k < |segs| :: segs[k];
    assert segs[0] in all;
    assert forall c :: c in all ==> c == {};
  }
}
