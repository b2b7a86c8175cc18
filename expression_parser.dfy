/**
 * The infix parser of the n-ary package (ExpressionParser.parseExpression)
 * and its reader for one-digit DIMACS clauses (convertDIMACS).
 *
 * The parser walks the string left to right. It skips spaces and any '-'
 * not followed by '>', parses a bracketed part recursively, and otherwise
 * looks for the leftmost atom name "[A-Z]+[0-9]*" and the leftmost
 * connective "&|\||->|<->" and acts on whichever starts first. Operands are
 * folded left to right with the last connective read, through combine; the
 * negations in front of an operand are the '-' characters right before it.
 */
module ExpressionParser {
  import opened Wrappers
  import opened Terminal
  import opened LogicExpression
  import opened Text
  import opened Clauses
  import LogicMethods

  // ---------------------------------------------------------------------
  // Reference definition of the parse

  /** `e` after `k` calls of negate. */
  function NegateTimes(e: Expr, k: nat): (r: Expr)
    ensures r.negs == e.negs + k
    ensures GetName(r) == GetName(e) && GetTerms(r) == GetTerms(e) && GetTerminal(r) == GetTerminal(e)
  {
    if k == 0 then e else LogicMethods.Negate(NegateTimes(e, k - 1))
  }

  /** What `k` calls of negate make of a possibly null operand: negate on null throws. */
  function Negated(e: Option<Expr>, k: nat): Result<Option<Expr>>
  {
    if k == 0 then Ok(e)
    else if e.None? then Err(NullPointer)
    else Ok(Some(NegateTimes(e.value, k)))
  }

  /**
   * One past the ')' that brings the nesting count `net` to zero, scanning
   * from `j`; None when the input ends first (charAt then throws).
   */
  function CloseAfter(s: string, j: nat, net: nat): (r: Option<nat>)
    requires j <= |s| && net >= 1
    ensures r.Some? ==> j < r.value <= |s| && s[r.value - 1] == ')'
    decreases |s| - j
  {
    if j == |s| then None
    else
      var n := if s[j] == '(' then net + 1 else if s[j] == ')' then net - 1 else net;
      if n == 0 then Some(j + 1) else CloseAfter(s, j + 1, n)
  }

  /**
   * The running expression after a bracketed operand: combined under the last
   * connective when the running expression, the operand and the connective are
   * all there; otherwise the operand, even a null one, replaces it.
   */
  function JoinGroup(last: Option<Expr>, t: Option<Terminal>, sub: Option<Expr>): Option<Expr>
  {
    if last.Some? && sub.Some? && t.Some? then Some(LogicMethods.Combine(last.value, sub.value, t.value)) else sub
  }

  /**
   * The running expression after an atom: taken as is when no connective was
   * read yet, else combined under it. Combining under AND or OR with no
   * running expression dereferences null; under an arrow the source instead
   * builds a construction whose first term is null, which this model, having
   * no null terms, reports as the same NullPointer.
   */
  function JoinAtom(last: Option<Expr>, t: Option<Terminal>, a: Expr): (r: Result<Option<Expr>>)
    ensures t.None? ==> r == Ok(Some(a))
    ensures r.Err? <==> t.Some? && last.None?
    ensures r.Err? ==> r.fault == NullPointer
    ensures t.Some? && r.Ok? ==> r.value.Some? && r.value.value.Construction? && r.value.value.terminal == t.value
    ensures t.Some? && r.Ok? && a.Atom? ==> |r.value.value.terms| >= 1 && r.value.value.terms[|r.value.value.terms| - 1] == a
  {
    if t.None? then Ok(Some(a))
    else if last.None? then Err(NullPointer)
    else Ok(Some(LogicMethods.Combine(last.value, a, t.value)))
  }

  /** The expression `s` denotes; None (Java's null) when it has no operand. */
  function Parse(s: string): Result<Option<Expr>>
    decreases |s|, |s| + 2
  {
    ParseFrom(s, 0, None, None)
  }

  /**
   * The bracketed operand opening at `i`: the position after its ')' and the
   * inside parsed and negated once per '-' right before the '('.
   */
  function Group(s: string, i: nat): (r: Result<(nat, Option<Expr>)>)
    requires i < |s|
    ensures r.Ok? ==> i < r.value.0 <= |s|
    decreases |s|, 0
  {
    match CloseAfter(s, i + 1, 1)
    case None => Err(IndexOutOfBounds)
    case Some(j) =>
      match Parse(s[i + 1..j - 1])
      case Err(f) => Err(f)
      case Ok(sub) =>
        match Negated(sub, DashesBefore(s, i))
        case Err(f) => Err(f)
        case Ok(neg) => Ok((j, neg))
  }

  /**
   * The parse of `s` from position `i`, with `last` the expression built so
   * far and `t` the last connective read.
   */
  function ParseFrom(s: string, i: nat, last: Option<Expr>, t: Option<Terminal>): Result<Option<Expr>>
    requires i <= |s|
    decreases |s|, |s| - i + 1
  {
    if i == |s| then Ok(last)
    else if s[i] == ' ' then ParseFrom(s, i + 1, last, t)
    else if s[i] == '-' && i + 1 == |s| then Err(IndexOutOfBounds)
    else if s[i] == '-' && s[i + 1] != '>' then ParseFrom(s, i + 1, last, t)
    else if s[i] == '(' then
      match Group(s, i)
      case Err(f) => Err(f)
      case Ok(g) => ParseFrom(s, g.0, JoinGroup(last, t, g.1), t)
    else
      var ls, ts := LiteralStart(s, i), TerminalStart(s, i);
      if ls < ts then
        var a := NegateTimes(Atom(s[ls..LiteralEnd(s, i)], 0), DashesBefore(s, ls));
        match JoinAtom(last, t, a)
        case Err(f) => Err(f)
        case Ok(next) => ParseFrom(s, LiteralEnd(s, i), next, t)
      else
        ParseFrom(s, TerminalEnd(s, i), last, FromString(s[ts..TerminalEnd(s, i)]))
  }

  predicate IsSpace(c: char) { c == ' ' }

  /** First index at or after `i` holding ',' or '}'. */
  function Separator(s: string, i: nat): (r: Option<nat>)
    requires i <= |s|
    ensures r.Some? ==> i <= r.value < |s| && (s[r.value] == ',' || s[r.value] == '}')
    decreases |s| - i
  {
    if i == |s| then None
    else if s[i] == ',' || s[i] == '}' then Some(i)
    else Separator(s, i + 1)
  }

  /**
   * The conclusion starting at `k`, negated once when `negate` is set, and
   * conjoined to the premises `result` when there are any.
   */
  function Conclude(s: string, k: nat, result: Option<Expr>, negate: bool): Result<Option<Expr>>
    requires k <= |s|
  {
    match Parse(s[k..])
    case Err(f) => Err(f)
    case Ok(c) =>
      match Negated(c, if negate then 1 else 0)
      case Err(f) => Err(f)
      case Ok(conclusion) =>
        if result.None? then Ok(conclusion)
        else if conclusion.None? then Err(NullPointer)
        else Ok(Some(LogicMethods.Combine(result.value, conclusion.value, And)))
  }

  /** The premises read so far with one more premise conjoined at the back. */
  function AddPremise(result: Option<Expr>, one: Option<Expr>): Result<Option<Expr>>
  {
    if result.None? then Ok(one)
    else if one.None? then Err(NullPointer)
    else Ok(Some(LogicMethods.Combine(result.value, one.value, And)))
  }

  /**
   * The parse with premises: "{P1, P2, ...}: C" is the conjunction of the
   * premises and the conclusion, the conclusion negated once when `negate` is
   * set. `result` is the conjunction of the premises read so far. Input with
   * no ':' falls back to the plain parse of the whole string.
   */
  function ParseConc(s: string, i: nat, result: Option<Expr>, negate: bool): Result<Option<Expr>>
    requires i <= |s|
    decreases |s| - i
  {
    if i == |s| then Parse(s)
    else if s[i] == '}' || s[i] == '{' || s[i] == ' ' then ParseConc(s, i + 1, result, negate)
    else if s[i] == ':' then
      var k := RunEnd(s, i + 1, IsSpace);
      if k == |s| then Err(IndexOutOfBounds) else Conclude(s, k, result, negate)
    else
      match Premise(s, i, result)
      case Err(f) => Err(f)
      case Ok(p) => ParseConc(s, p.0, p.1, negate)
  }

  /**
   * The premise starting at `i`, up to the next ',' or '}', conjoined at the
   * back of `result`, and the position after the separator.
   */
  function Premise(s: string, i: nat, result: Option<Expr>): (r: Result<(nat, Option<Expr>)>)
    requires i <= |s|
    ensures r.Ok? ==> i < r.value.0 <= |s|
  {
    match Separator(s, i)
    case None => Err(IndexOutOfBounds)
    case Some(j) =>
      match Parse(s[i..j])
      case Err(f) => Err(f)
      case Ok(one) =>
        match AddPremise(result, one)
        case Err(f) => Err(f)
        case Ok(next) => Ok((j + 1, next))
  }

  // ---------------------------------------------------------------------
  // The parser

  /** The negation loop: one negate per consecutive '-' right before index `at`. */
  method NegateDashes(s: string, at: nat, e: Option<Expr>) returns (r: Result<Option<Expr>>)
    requires at <= |s|
    ensures r == Negated(e, DashesBefore(s, at))
  {
    var x := e;
    var k := 1;
    while k <= at && s[at - k] == '-'
      invariant 1 <= k <= at + 1
      invariant DashesBefore(s, at) == (k - 1) + DashesBefore(s, at - (k - 1))
      invariant k == 1 ==> x == e
      invariant k > 1 ==> e.Some? && x == Some(NegateTimes(e.value, k - 1))
      decreases at + 1 - k
    {
      if x.None? {
        return Err(NullPointer);
      }
      x := Some(LogicMethods.Negate(x.value));
      k := k + 1;
    }
    return Ok(x);
  }

  /**
   * A bracketed operand: the matching ')' found by a nesting counter, the
   * inside parsed, then negated once per '-' right before the '('.
   */
  method ParseGroup(s: string, i: nat) returns (r: Result<(nat, Option<Expr>)>)
    requires i < |s|
    ensures r == Group(s, i)
    decreases |s|, 0
  {
    var j := i + 1;
    var found := false;
    var net := 1;
    while !found
      invariant i < j <= |s|
      invariant found ==> CloseAfter(s, i + 1, 1) == Some(j)
      invariant !found ==> net >= 1 && CloseAfter(s, i + 1, 1) == CloseAfter(s, j, net)
      decreases |s| - j
    {
      if j == |s| {
        return Err(IndexOutOfBounds);
      }
      if s[j] == '(' {
        net := net + 1;
      } else if s[j] == ')' {
        net := net - 1;
      }
      if net == 0 {
        found := true;
      }
      j := j + 1;
    }
    var sub := ParsePlain(s[i + 1..j - 1]);
    if sub.Err? {
      return Err(sub.fault);
    }
    var neg := NegateDashes(s, i, sub.value);
    if neg.Err? {
      return Err(neg.fault);
    }
    return Ok((j, neg.value));
  }

  /** parseExpression with `conc` unset. */
  method ParsePlain(s: string) returns (r: Result<Option<Expr>>)
    ensures r == Parse(s)
    decreases |s|, 1
  {
    var last: Option<Expr> := None;
    var t: Option<Terminal> := None;
    var i := 0;
    while i < |s|
      invariant i <= |s|
      invariant ParseFrom(s, i, last, t) == Parse(s)
      decreases |s| - i
    {
      if s[i] == ' ' {
        SkipStep(s, i, last, t);
        i := i + 1;
      } else if s[i] == '-' && (i + 1 == |s| || s[i + 1] != '>') {
        if i + 1 == |s| {
          return Err(IndexOutOfBounds);
        }
        SkipStep(s, i, last, t);
        i := i + 1;
      } else if s[i] == '(' {
        var g := ParseGroup(s, i);
        if g.Err? {
          return Err(g.fault);
        }
        GroupStep(s, i, last, t);
        var (j, neg) := g.value;
        last := JoinGroup(last, t, neg);
        i := j;
      } else {
        var ls, le := LiteralStart(s, i), LiteralEnd(s, i);
        var ts, te := TerminalStart(s, i), TerminalEnd(s, i);
        if ls < ts {
          var a := NegateDashes(s, ls, Some(Atom(s[ls..le], 0)));
          var next := JoinAtom(last, t, a.value.value);
          if next.Err? {
            return Err(next.fault);
          }
          AtomStep(s, i, last, t, next.value);
          last := next.value;
          i := le;
        } else {
          ConnectiveStep(s, i, last, t);
          t := FromString(s[ts..te]);
          i := te;
        }
      }
    }
    return Ok(last);
  }

  /** The conclusion after ':', negated when asked, conjoined to the premises. */
  method ReadConclusion(s: string, k: nat, result: Option<Expr>, negate: bool) returns (r: Result<Option<Expr>>)
    requires k <= |s|
    ensures r == Conclude(s, k, result, negate)
  {
    var conclusion := ParsePlain(s[k..]);
    if conclusion.Err? {
      return conclusion;
    }
    var c := conclusion.value;
    if negate {
      if c.None? {
        return Err(NullPointer);
      }
      c := Some(LogicMethods.Negate(c.value));
    }
    if result.None? {
      return Ok(c);
    }
    if c.None? {
      return Err(NullPointer);
    }
    return Ok(Some(LogicMethods.Combine(result.value, c.value, And)));
  }

  /** One premise: the text up to the next ',' or '}' parsed and conjoined to the premises read so far. */
  method ReadPremise(s: string, i: nat, result: Option<Expr>) returns (r: Result<(nat, Option<Expr>)>)
    requires i <= |s|
    ensures r == Premise(s, i, result)
  {
    var j := i;
    while j == |s| || (s[j] != ',' && s[j] != '}')
      invariant i <= j <= |s|
      invariant Separator(s, i) == Separator(s, j)
      decreases |s| - j
    {
      if j == |s| {
        return Err(IndexOutOfBounds);
      }
      j := j + 1;
    }
    var one := ParsePlain(s[i..j]);
    if one.Err? {
      return Err(one.fault);
    }
    var next := AddPremise(result, one.value);
    if next.Err? {
      return Err(next.fault);
    }
    return Ok((j + 1, next.value));
  }

  /**
   * parseExpression with `conc` set: premises in braces separated by commas
   * and a conclusion after ':'; when no ':' comes, the plain parse of the
   * whole string.
   */
  method ParseWithPremises(s: string, negate: bool) returns (r: Result<Option<Expr>>)
    ensures r == ParseConc(s, 0, None, negate)
  {
    var i := 0;
    var result: Option<Expr> := None;
    while i < |s|
      invariant i <= |s|
      invariant ParseConc(s, i, result, negate) == ParseConc(s, 0, None, negate)
      decreases |s| - i
    {
      if s[i] == '}' || s[i] == '{' || s[i] == ' ' {
        i := i + 1;
      } else if s[i] == ':' {
        i := i + 1;
        ghost var from := i;
        while i == |s| || s[i] == ' '
          invariant from <= i <= |s|
          invariant RunEnd(s, from, IsSpace) == RunEnd(s, i, IsSpace)
          decreases |s| - i
        {
          if i == |s| {
            return Err(IndexOutOfBounds);
          }
          i := i + 1;
        }
        r := ReadConclusion(s, i, result, negate);
        return;
      } else {
        var p := ReadPremise(s, i, result);
        if p.Err? {
          return Err(p.fault);
        }
        i, result := p.value.0, p.value.1;
      }
    }
    r := ParsePlain(s);
  }

  /** parseExpression: the parse with premises when `conc` is set, else the plain parse. */
  method ParseExpression(s: string, conc: bool, negate: bool) returns (r: Result<Option<Expr>>)
    ensures r == if conc then ParseConc(s, 0, None, negate) else Parse(s)
  {
    if conc {
      r := ParseWithPremises(s, negate);
    } else {
      r := ParsePlain(s);
    }
  }

  // ---------------------------------------------------------------------
  // Properties of the parse

  /** Combining well-formed operands under a binary connective gives a well-formed expression. */
  lemma CombineWellFormed(e1: Expr, e2: Expr, t: Terminal)
    requires WellFormed(e1) && WellFormed(e2) && t != Not
    ensures WellFormed(LogicMethods.Combine(e1, e2, t))
  {
    var r := LogicMethods.Combine(e1, e2, t);
    if t != Implication && t != Equivalence && LogicMethods.Opens(e1, t) {
      assert forall k :: 0 <= k < |e1.terms| ==> r.terms[k] == e1.terms[k];
    } else if t != Implication && t != Equivalence && e1.Atom? && LogicMethods.Opens(e2, t) {
      assert forall k :: 1 <= k < |r.terms| ==> r.terms[k] == e2.terms[k - 1];
    }
  }

  /** Negations do not change whether an expression is well formed. */
  lemma NegateTimesWellFormed(e: Expr, k: nat)
    ensures WellFormed(NegateTimes(e, k)) == WellFormed(e)
  {
    var r := NegateTimes(e, k);
    if e.Construction? {
      assert r.terms == e.terms && r.terminal == e.terminal;
    }
  }

  /** A connective token read by the scanner is never NOT. */
  lemma ConnectiveRead(s: string, i: nat)
    requires i <= |s|
    ensures FromString(s[TerminalStart(s, i)..TerminalEnd(s, i)]) != Some(Not)
  {
    var ts, te := TerminalStart(s, i), TerminalEnd(s, i);
    if ts < |s| {
      assert s[ts..te][0] == s[ts];
    }
  }

  /** The running state of the parse holds only well-formed expressions and binary connectives. */
  ghost predicate Sound(last: Option<Expr>, t: Option<Terminal>)
  {
    (last.Some? ==> WellFormed(last.value)) && t != Some(Not)
  }

  /** Every expression the parser returns is well formed: the input the conversion to normal form expects. */
  lemma ParseWellFormed(s: string)
    ensures Parse(s).Ok? && Parse(s).value.Some? ==> WellFormed(Parse(s).value.value)
    decreases |s|, |s| + 2
  {
    ParseFromWellFormed(s, 0, None, None);
  }

  lemma GroupWellFormed(s: string, i: nat)
    requires i < |s|
    ensures Group(s, i).Ok? && Group(s, i).value.1.Some? ==> WellFormed(Group(s, i).value.1.value)
    decreases |s|, 0
  {
    match CloseAfter(s, i + 1, 1)
    case None =>
    case Some(j) =>
      ParseWellFormed(s[i + 1..j - 1]);
      var p := Parse(s[i + 1..j - 1]);
      if p.Ok? && p.value.Some? {
        NegateTimesWellFormed(p.value.value, DashesBefore(s, i));
      }
  }

  /** Folding in a bracketed operand keeps the running state sound. */
  lemma JoinGroupSound(last: Option<Expr>, t: Option<Terminal>, sub: Option<Expr>)
    requires Sound(last, t) && (sub.Some? ==> WellFormed(sub.value))
    ensures Sound(JoinGroup(last, t, sub), t)
  {
    if last.Some? && sub.Some? && t.Some? {
      CombineWellFormed(last.value, sub.value, t.value);
    }
  }

  /** Folding in an atom keeps the running state sound. */
  lemma JoinAtomSound(last: Option<Expr>, t: Option<Terminal>, a: Expr)
    requires Sound(last, t) && WellFormed(a)
    ensures JoinAtom(last, t, a).Ok? ==> Sound(JoinAtom(last, t, a).value, t)
  {
    if t.Some? && last.Some? {
      CombineWellFormed(last.value, a, t.value);
    }
  }

  lemma {:induction false} ParseFromWellFormed(s: string, i: nat, last: Option<Expr>, t: Option<Terminal>)
    requires i <= |s| && Sound(last, t)
    ensures ParseFrom(s, i, last, t).Ok? && ParseFrom(s, i, last, t).value.Some? ==>
      WellFormed(ParseFrom(s, i, last, t).value.value)
    decreases |s|, |s| - i + 1
  {
    if i == |s| {
    } else if s[i] == '-' && i + 1 == |s| {
    } else if s[i] == ' ' || (s[i] == '-' && s[i + 1] != '>') {
      ParseFromWellFormed(s, i + 1, last, t);
    } else if s[i] == '(' {
      GroupWellFormed(s, i);
      if Group(s, i).Ok? {
        var g := Group(s, i).value;
        JoinGroupSound(last, t, g.1);
        GroupStep(s, i, last, t);
        ParseFromWellFormed(s, g.0, JoinGroup(last, t, g.1), t);
      }
    } else if LiteralStart(s, i) < TerminalStart(s, i) {
      var atom := Atom(s[LiteralStart(s, i)..LiteralEnd(s, i)], 0);
      var a := NegateTimes(atom, DashesBefore(s, LiteralStart(s, i)));
      NegateTimesWellFormed(atom, DashesBefore(s, LiteralStart(s, i)));
      JoinAtomSound(last, t, a);
      if JoinAtom(last, t, a).Ok? {
        AtomStep(s, i, last, t, JoinAtom(last, t, a).value);
        ParseFromWellFormed(s, LiteralEnd(s, i), JoinAtom(last, t, a).value, t);
      }
    } else {
      ConnectiveRead(s, i);
      ConnectiveStep(s, i, last, t);
      ParseFromWellFormed(s, TerminalEnd(s, i), last, FromString(s[TerminalStart(s, i)..TerminalEnd(s, i)]));
    }
  }

  /** No capital letter in `s`. */
  predicate NoAtomName(s: string)
  {
    forall j :: 0 <= j < |s| ==> !IsUpper(s[j])
  }

  /** Input without an atom name yields null, when it yields anything. */
  lemma ParseNoAtom(s: string)
    requires NoAtomName(s)
    ensures Parse(s).Ok? ==> Parse(s).value.None?
    decreases |s|, |s| + 2
  {
    ParseFromNoAtom(s, 0, None);
  }

  lemma GroupNoAtom(s: string, i: nat)
    requires i < |s| && NoAtomName(s)
    ensures Group(s, i).Ok? ==> Group(s, i).value.1.None?
    decreases |s|, 0
  {
    match CloseAfter(s, i + 1, 1)
    case None =>
    case Some(j) =>
      var inner := s[i + 1..j - 1];
      assert forall k :: 0 <= k < |inner| ==> inner[k] == s[i + 1 + k];
      ParseNoAtom(inner);
  }

  lemma {:induction false} ParseFromNoAtom(s: string, i: nat, t: Option<Terminal>)
    requires i <= |s| && NoAtomName(s)
    ensures ParseFrom(s, i, None, t).Ok? ==> ParseFrom(s, i, None, t).value.None?
    decreases |s|, |s| - i + 1
  {
    if i == |s| {
    } else if s[i] == ' ' {
      ParseFromNoAtom(s, i + 1, t);
    } else if s[i] == '-' && i + 1 == |s| {
    } else if s[i] == '-' && s[i + 1] != '>' {
      ParseFromNoAtom(s, i + 1, t);
    } else if s[i] == '(' {
      GroupNoAtom(s, i);
      match Group(s, i)
      case Err(_) =>
      case Ok(g) => ParseFromNoAtom(s, g.0, t);
    } else {
      assert LiteralStart(s, i) == |s|;
      ParseFromNoAtom(s, TerminalEnd(s, i), FromString(s[TerminalStart(s, i)..TerminalEnd(s, i)]));
    }
  }

  /** At the end of the input the parse returns what it has built. */
  lemma ParseFromEnd(s: string, last: Option<Expr>, t: Option<Terminal>)
    ensures ParseFrom(s, |s|, last, t) == Ok(last)
  {
  }

  /** A bracketed operand is folded in and the parse resumes after its ')'. */
  lemma GroupStep(s: string, i: nat, last: Option<Expr>, t: Option<Terminal>)
    requires i < |s| && s[i] == '(' && Group(s, i).Ok?
    ensures ParseFrom(s, i, last, t) == ParseFrom(s, Group(s, i).value.0, JoinGroup(last, t, Group(s, i).value.1), t)
  {
  }

  /** At `i` the parser searches for the next atom name and connective: no space, no '(' and no lone '-'. */
  predicate Scanning(s: string, i: nat)
  {
    i < |s| && s[i] != ' ' && s[i] != '(' && (s[i] == '-' ==> i + 1 < |s| && s[i + 1] == '>')
  }

  /** A space, or a '-' that does not start an arrow, is skipped. */
  lemma SkipStep(s: string, i: nat, last: Option<Expr>, t: Option<Terminal>)
    requires i < |s| && (s[i] == ' ' || (s[i] == '-' && i + 1 < |s| && s[i + 1] != '>'))
    ensures ParseFrom(s, i, last, t) == ParseFrom(s, i + 1, last, t)
  {
  }

  /** An atom name found before any connective is negated and folded in; the parse resumes after it. */
  lemma AtomStep(s: string, i: nat, last: Option<Expr>, t: Option<Terminal>, next: Option<Expr>)
    requires Scanning(s, i)
    requires LiteralStart(s, i) < TerminalStart(s, i)
    requires JoinAtom(last, t, NegateTimes(Atom(s[LiteralStart(s, i)..LiteralEnd(s, i)], 0), DashesBefore(s, LiteralStart(s, i)))) == Ok(next)
    ensures ParseFrom(s, i, last, t) == ParseFrom(s, LiteralEnd(s, i), next, t)
  {
  }

  /** A connective found before any atom name becomes the last connective read. */
  lemma ConnectiveStep(s: string, i: nat, last: Option<Expr>, t: Option<Terminal>)
    requires Scanning(s, i)
    requires LiteralStart(s, i) >= TerminalStart(s, i)
    ensures ParseFrom(s, i, last, t) ==
      ParseFrom(s, TerminalEnd(s, i), last, FromString(s[TerminalStart(s, i)..TerminalEnd(s, i)]))
  {
  }

  lemma NegatedAtomName()
    ensures ParseFrom("--A1", 2, None, None) == Ok(Some(Atom("A1", 2)))
  {
    var s := "--A1";
    var a := Atom("A1", 2);
    assert FindLiteral(s, 2) == Some((2, 4)) && FindTerminal(s, 2) == None;
    assert s[2..4] == "A1" && DashesBefore(s, 2) == 2;
    assert NegateTimes(Atom("A1", 0), 2) == a;
    AtomStep(s, 2, None, None, Some(a));
    ParseFromEnd(s, Some(a), None);
  }

  /** An atom name is negated once per '-' written right before it. */
  lemma ParseNegatedAtom()
    ensures Parse("--A1") == Ok(Some(Atom("A1", 2)))
  {
    SkipStep("--A1", 0, None, None);
    SkipStep("--A1", 1, None, None);
    NegatedAtomName();
  }

  lemma LeftToRightFirst()
    ensures ParseFrom("A&B|C", 0, None, None) == ParseFrom("A&B|C", 1, Some(Atom("A", 0)), None)
  {
    var s := "A&B|C";
    assert FindLiteral(s, 0) == Some((0, 1)) && FindTerminal(s, 0) == Some((1, 2));
    assert s[0..1] == "A" && DashesBefore(s, 0) == 0;
    AtomStep(s, 0, None, None, Some(Atom("A", 0)));
  }

  lemma LeftToRightAmp()
    ensures ParseFrom("A&B|C", 1, Some(Atom("A", 0)), None) == ParseFrom("A&B|C", 2, Some(Atom("A", 0)), Some(And))
  {
    var s := "A&B|C";
    assert FindLiteral(s, 1) == Some((2, 3)) && FindTerminal(s, 1) == Some((1, 2));
    assert s[1..2] == "&";
    ConnectiveStep(s, 1, Some(Atom("A", 0)), None);
  }

  lemma LeftToRightSecond()
    ensures ParseFrom("A&B|C", 2, Some(Atom("A", 0)), Some(And)) ==
      ParseFrom("A&B|C", 3, Some(Construction([Atom("A", 0), Atom("B", 0)], And, 0)), Some(And))
  {
    var s := "A&B|C";
    assert FindLiteral(s, 2) == Some((2, 3)) && FindTerminal(s, 2) == Some((3, 4));
    assert s[2..3] == "B" && DashesBefore(s, 2) == 0;
    AtomStep(s, 2, Some(Atom("A", 0)), Some(And), Some(Construction([Atom("A", 0), Atom("B", 0)], And, 0)));
  }

  lemma LeftToRightBar()
    ensures ParseFrom("A&B|C", 3, Some(Construction([Atom("A", 0), Atom("B", 0)], And, 0)), Some(And)) ==
      ParseFrom("A&B|C", 4, Some(Construction([Atom("A", 0), Atom("B", 0)], And, 0)), Some(Or))
  {
    var s := "A&B|C";
    assert FindLiteral(s, 3) == Some((4, 5)) && FindTerminal(s, 3) == Some((3, 4));
    assert s[3..4] == "|";
    ConnectiveStep(s, 3, Some(Construction([Atom("A", 0), Atom("B", 0)], And, 0)), Some(And));
  }

  lemma LeftToRightLast()
    ensures ParseFrom("A&B|C", 4, Some(Construction([Atom("A", 0), Atom("B", 0)], And, 0)), Some(Or)) ==
      Ok(Some(Construction([Construction([Atom("A", 0), Atom("B", 0)], And, 0), Atom("C", 0)], Or, 0)))
  {
    var s := "A&B|C";
    var ab := Construction([Atom("A", 0), Atom("B", 0)], And, 0);
    var r := Construction([ab, Atom("C", 0)], Or, 0);
    assert FindLiteral(s, 4) == Some((4, 5)) && FindTerminal(s, 4) == None;
    assert s[4..5] == "C" && DashesBefore(s, 4) == 0;
    AtomStep(s, 4, Some(ab), Some(Or), Some(r));
    ParseFromEnd(s, Some(r), Some(Or));
  }

  /**
   * Operands fold left to right, without precedence: the conjunction read
   * first becomes the left disjunct; the second atom under '&' joins the
   * first in one two-term conjunction.
   */
  lemma ParseLeftToRight()
    ensures Parse("A&B|C") == Ok(Some(Construction([Construction([Atom("A", 0), Atom("B", 0)], And, 0), Atom("C", 0)], Or, 0)))
  {
    LeftToRightFirst();
    LeftToRightAmp();
    LeftToRightSecond();
    LeftToRightBar();
    LeftToRightLast();
  }

  lemma DisjunctionFirst()
    ensures ParseFrom("A|B", 0, None, None) == ParseFrom("A|B", 1, Some(Atom("A", 0)), None)
  {
    var s := "A|B";
    assert FindLiteral(s, 0) == Some((0, 1)) && FindTerminal(s, 0) == Some((1, 2));
    assert s[0..1] == "A" && DashesBefore(s, 0) == 0;
    AtomStep(s, 0, None, None, Some(Atom("A", 0)));
  }

  lemma DisjunctionBar()
    ensures ParseFrom("A|B", 1, Some(Atom("A", 0)), None) == ParseFrom("A|B", 2, Some(Atom("A", 0)), Some(Or))
  {
    var s := "A|B";
    assert FindLiteral(s, 1) == Some((2, 3)) && FindTerminal(s, 1) == Some((1, 2));
    assert s[1..2] == "|";
    ConnectiveStep(s, 1, Some(Atom("A", 0)), None);
  }

  lemma DisjunctionLast()
    ensures ParseFrom("A|B", 2, Some(Atom("A", 0)), Some(Or)) == Ok(Some(Construction([Atom("A", 0), Atom("B", 0)], Or, 0)))
  {
    var s := "A|B";
    var r := Construction([Atom("A", 0), Atom("B", 0)], Or, 0);
    assert FindLiteral(s, 2) == Some((2, 3)) && FindTerminal(s, 2) == None;
    assert s[2..3] == "B" && DashesBefore(s, 2) == 0;
    AtomStep(s, 2, Some(Atom("A", 0)), Some(Or), Some(r));
    ParseFromEnd(s, Some(r), Some(Or));
  }

  /** Two atoms under '|' make one two-term disjunction. */
  lemma ParseDisjunction()
    ensures Parse("A|B") == Ok(Some(Construction([Atom("A", 0), Atom("B", 0)], Or, 0)))
  {
    DisjunctionFirst();
    DisjunctionBar();
    DisjunctionLast();
  }

  lemma NegatedGroupBody()
    ensures Group("-(A|B)", 1) == Ok((6, Some(Construction([Atom("A", 0), Atom("B", 0)], Or, 1))))
  {
    var s := "-(A|B)";
    var ab := Construction([Atom("A", 0), Atom("B", 0)], Or, 0);
    assert CloseAfter(s, 2, 1) == Some(6);
    assert s[2..5] == "A|B";
    ParseDisjunction();
    assert DashesBefore(s, 1) == 1;
    assert NegateTimes(ab, 1) == Construction(ab.terms, Or, 1);
  }

  /** A bracketed part is parsed on its own and negated once per '-' before the '('. */
  lemma ParseNegatedGroup()
    ensures Parse("-(A|B)") == Ok(Some(Construction([Atom("A", 0), Atom("B", 0)], Or, 1)))
  {
    SkipStep("-(A|B)", 0, None, None);
    NegatedGroupStep();
  }

  lemma NegatedGroupStep()
    ensures ParseFrom("-(A|B)", 1, None, None) == Ok(Some(Construction([Atom("A", 0), Atom("B", 0)], Or, 1)))
  {
    var x := Construction([Atom("A", 0), Atom("B", 0)], Or, 1);
    NegatedGroupBody();
    GroupStep("-(A|B)", 1, None, None);
    assert JoinGroup(None, None, Some(x)) == Some(x);
    ParseFromEnd("-(A|B)", Some(x), None);
  }

  /** A trailing '-' reads past the end of the input; an unclosed bracket too. */
  lemma ParseOutOfBounds()
    ensures Parse("A-") == Err(IndexOutOfBounds)
    ensures Parse("(A") == Err(IndexOutOfBounds)
  {
    var s := "A-";
    assert FindLiteral(s, 0) == Some((0, 1)) && FindTerminal(s, 0) == None;
    assert s[0..1] == "A" && DashesBefore(s, 0) == 0;
    AtomStep(s, 0, None, None, Some(Atom("A", 0)));
    assert CloseAfter("(A", 1, 1) == None;
  }

  /** A leading '&' leaves nothing to combine with; so does negating an empty bracket. */
  lemma ParseNullOperand()
    ensures Parse("&A") == Err(NullPointer)
    ensures Parse("-()") == Err(NullPointer)
  {
    var s := "&A";
    assert FindLiteral(s, 0) == Some((1, 2)) && FindTerminal(s, 0) == Some((0, 1));
    assert s[0..1] == "&";
    ConnectiveStep(s, 0, None, None);
    assert FindLiteral(s, 1) == Some((1, 2)) && FindTerminal(s, 1) == None;
    var g := "-()";
    SkipStep(g, 0, None, None);
    assert CloseAfter(g, 2, 1) == Some(3);
    assert g[2..2] == "";
    assert DashesBefore(g, 1) == 1;
  }

  /** A one-letter input is that atom, un-negated. */
  lemma ParseOneLetter(s: string)
    requires |s| == 1 && IsUpper(s[0])
    ensures Parse(s) == Ok(Some(Atom(s, 0)))
  {
    assert FindLiteral(s, 0) == Some((0, 1)) && FindTerminal(s, 0) == None;
    assert s[0..1] == s && DashesBefore(s, 0) == 0;
    AtomStep(s, 0, None, None, Some(Atom(s, 0)));
    ParseFromEnd(s, Some(Atom(s, 0)), None);
  }

  lemma PremiseExample()
    ensures ParseConc("{A}:B", 0, None, true) == ParseConc("{A}:B", 3, Some(Atom("A", 0)), true)
  {
    var s := "{A}:B";
    assert Separator(s, 1) == Some(2);
    assert s[1..2] == "A";
    ParseOneLetter("A");
    assert Premise(s, 1, None) == Ok((3, Some(Atom("A", 0))));
    assert ParseConc(s, 0, None, true) == ParseConc(s, 1, None, true);
  }

  lemma ConclusionExample()
    ensures ParseConc("{A}:B", 3, Some(Atom("A", 0)), true) == Ok(Some(Construction([Atom("A", 0), Atom("B", 1)], And, 0)))
  {
    var s := "{A}:B";
    assert RunEnd(s, 4, IsSpace) == 4;
    assert s[4..] == "B";
    ParseOneLetter("B");
    assert NegateTimes(Atom("B", 0), 1) == Atom("B", 1);
  }

  /** With premises, "{A}:B" asked to negate its conclusion is the conjunction of A and the negated B. */
  lemma ParseConcExample()
    ensures ParseConc("{A}:B", 0, None, true) == Ok(Some(Construction([Atom("A", 0), Atom("B", 1)], And, 0)))
  {
    PremiseExample();
    ConclusionExample();
  }

  // ---------------------------------------------------------------------
  // One-digit DIMACS clauses

  /** The atom a DIMACS variable index stands for. */
  function VariableName(y: nat): string
  {
    "X" + NatToString(y)
  }

  /** A character the reader accepts: a space, a '-', or a decimal digit. */
  predicate DimacsChar(c: char)
  {
    c == ' ' || c == '-' || IsDigit(c)
  }

  /** The literal the digit at `i` denotes: its variable's atom, negated when a '-' precedes it. */
  function DimacsLiteral(s: string, i: nat): (l: Literal)
    requires i < |s| && IsDigit(s[i])
    ensures l.negs <= 1
  {
    Literal(VariableName(s[i] as int - '0' as int), if i > 0 && s[i - 1] == '-' then 1 else 0)
  }

  /**
   * The clauses read from position `i` on, with `cnf` the clauses closed so
   * far and `clause` the one being read: each '0' closes the current clause,
   * any other digit adds its literal; literals after the last '0' are dropped.
   * A character that is no digit, space or '-' makes Integer.parseInt throw.
   */
  function DimacsFrom(s: string, i: nat, cnf: Cnf, clause: Clause): Result<Cnf>
    requires i <= |s|
    decreases |s| - i
  {
    if i == |s| then Ok(cnf)
    else if s[i] == ' ' || s[i] == '-' then DimacsFrom(s, i + 1, cnf, clause)
    else if s[i] == '0' then DimacsFrom(s, i + 1, cnf + {clause}, {})
    else if !IsDigit(s[i]) then Err(NumberFormat)
    else DimacsFrom(s, i + 1, cnf, clause + {DimacsLiteral(s, i)})
  }

  /**
   * convertDIMACS: the clause set read from `s`, one character per variable
   * index. The source wraps this set in a new ClauseNormalForm.
   */
  method ConvertDimacs(s: string) returns (r: Result<Cnf>)
    ensures r == DimacsFrom(s, 0, {}, {})
  {
    var legend: map<nat, Literal> := map[];
    var cnf: Cnf := {};
    var clause: Clause := {};
    var i := 0;
    while i < |s|
      invariant i <= |s|
      invariant DimacsFrom(s, i, cnf, clause) == DimacsFrom(s, 0, {}, {})
      invariant forall y :: y in legend ==> legend[y] == Literal(VariableName(y), 0)
      decreases |s| - i
    {
      if s[i] == ' ' || s[i] == '-' {
        i := i + 1;
      } else if s[i] == '0' {
        cnf := cnf + {clause};
        clause := {};
        i := i + 1;
      } else {
        if !IsDigit(s[i]) {
          return Err(NumberFormat);
        }
        var y: nat := s[i] as int - '0' as int;
        var negated := i > 0 && s[i - 1] == '-';
        if y !in legend {
          legend := legend[y := Literal(VariableName(y), 0)];
        }
        if negated {
          clause := clause + {Literal(legend[y].name, legend[y].negs + 1)};
        } else {
          clause := clause + {legend[y]};
        }
        i := i + 1;
      }
    }
    return Ok(cnf);
  }

  /** The reader fails exactly when some character is not an ASCII digit, a space or a '-'. */
  lemma {:induction false} DimacsFails(s: string, i: nat, cnf: Cnf, clause: Clause)
    requires i <= |s|
    ensures DimacsFrom(s, i, cnf, clause).Err? <==> exists k :: i <= k < |s| && !DimacsChar(s[k])
    ensures DimacsFrom(s, i, cnf, clause).Err? ==> DimacsFrom(s, i, cnf, clause).fault == NumberFormat
    decreases |s| - i
  {
    if i < |s| {
      if DimacsChar(s[i]) {
        var c' := if s[i] == '0' then cnf + {clause} else cnf;
        var cl' := if s[i] == '0' then {} else if IsDigit(s[i]) && s[i] != '0' then clause + {DimacsLiteral(s, i)} else clause;
        DimacsFails(s, i + 1, c', cl');
        if exists k :: i <= k < |s| && !DimacsChar(s[k]) {
          var k :| i <= k < |s| && !DimacsChar(s[k]);
          assert k != i;
        }
      }
    }
  }

  /** Every literal read is the atom "X" + d for a digit d of the input, negated iff a '-' precedes that digit. */
  lemma {:induction false} DimacsLiterals(s: string, i: nat, cnf: Cnf, clause: Clause)
    requires i <= |s|
    requires forall c, l :: c in cnf && l in c ==> ReadAt(s, l)
    requires forall l :: l in clause ==> ReadAt(s, l)
    ensures DimacsFrom(s, i, cnf, clause).Ok? ==>
      forall c, l :: c in DimacsFrom(s, i, cnf, clause).value && l in c ==> ReadAt(s, l)
    decreases |s| - i
  {
    if i < |s| {
      if s[i] == ' ' || s[i] == '-' {
        DimacsLiterals(s, i + 1, cnf, clause);
      } else if s[i] == '0' {
        DimacsLiterals(s, i + 1, cnf + {clause}, {});
      } else if IsDigit(s[i]) {
        assert ReadAt(s, DimacsLiteral(s, i));
        DimacsLiterals(s, i + 1, cnf, clause + {DimacsLiteral(s, i)});
      }
    }
  }

  /** `l` is the literal of some nonzero digit of `s`. */
  ghost predicate ReadAt(s: string, l: Literal)
  {
    exists k :: 0 <= k < |s| && IsDigit(s[k]) && s[k] != '0' && l == DimacsLiteral(s, k)
  }

  /** Without a '0' no clause is ever closed, so the result is empty. */
  lemma {:induction false} DimacsNoZero(s: string, i: nat, clause: Clause)
    requires i <= |s| && forall k :: i <= k < |s| ==> s[k] != '0'
    ensures DimacsFrom(s, i, {}, clause).Ok? ==> DimacsFrom(s, i, {}, clause).value == {}
    decreases |s| - i
  {
    if i < |s| && DimacsChar(s[i]) {
      var cl' := if IsDigit(s[i]) then clause + {DimacsLiteral(s, i)} else clause;
      DimacsNoZero(s, i + 1, cl');
    }
  }

  /** An index of two digits is read as two variables, and its '0' closes a clause: "10 0" is {{X1}, {}}. */
  lemma DimacsTwoDigits()
    ensures DimacsFrom("10 0", 0, {}, {}) == Ok({{Literal("X1", 0)}, {}})
  {
    var s := "10 0";
    var x1 := Literal("X1", 0);
    assert NatToString(1) == "1";
    assert DimacsLiteral(s, 0) == x1;
    var none: Clause := {};
    var noClauses: Cnf := {};
    assert none + {x1} == {x1};
    assert noClauses + {{x1}} == {{x1}};
    assert {{x1}} + {none} == {{x1}, {}};
    assert DimacsFrom(s, 0, {}, {}) == DimacsFrom(s, 1, {}, {x1});
    assert DimacsFrom(s, 1, {}, {x1}) == DimacsFrom(s, 2, {{x1}}, {});
    assert DimacsFrom(s, 2, {{x1}}, {}) == DimacsFrom(s, 3, {{x1}}, {});
    assert DimacsFrom(s, 3, {{x1}}, {}) == DimacsFrom(s, 4, {{x1}, {}}, {});
  }

  /** A '-' before a digit negates its literal, and literals after the last '0' are dropped: "-1 0 2" is {{-X1}}. */
  lemma DimacsNegatedAndDropped()
    ensures DimacsFrom("-1 0 2", 0, {}, {}) == Ok({{Literal("X1", 1)}})
  {
    var s := "-1 0 2";
    var x1 := Literal("X1", 1);
    var x2 := Literal("X2", 0);
    assert NatToString(1) == "1" && NatToString(2) == "2";
    assert DimacsLiteral(s, 1) == x1 && DimacsLiteral(s, 5) == x2;
    var none: Clause := {};
    var noClauses: Cnf := {};
    assert none + {x1} == {x1} && none + {x2} == {x2};
    assert noClauses + {{x1}} == {{x1}};
    assert DimacsFrom(s, 0, {}, {}) == DimacsFrom(s, 2, {}, {x1});
    assert DimacsFrom(s, 2, {}, {x1}) == DimacsFrom(s, 4, {{x1}}, {});
    assert DimacsFrom(s, 4, {{x1}}, {}) == DimacsFrom(s, 6, {{x1}}, {x2});
  }
}
