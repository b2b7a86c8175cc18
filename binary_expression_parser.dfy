/**
 * The infix parser of the binary package (reasoning2
 * ExpressionParser.parseExpression). It scans the string as the n-ary
 * parser does: spaces and any '-' not followed by '>' are skipped, a
 * bracketed part is parsed recursively, and otherwise the leftmost atom name
 * "[A-Z]+[0-9]*" or connective "&|\||->|<->", whichever starts first, is
 * read. Operands are folded left to right into two-operand constructions
 * under the last connective read, so "A & B & C" is ((A & B) & C).
 */
module BinaryExpressionParser {
  import opened Wrappers
  import opened Terminal
  import opened Text
  import opened BinaryExpression
  import BinaryTerminal
  import BinaryLogicMethods
  import ExpressionParser

  // ---------------------------------------------------------------------
  // Reference definition of the parse

  /** `e` after `k` calls of negate. */
  function NegateTimes(e: Expr, k: nat): (r: Expr)
    ensures r.negs == e.negs + k
    ensures GetType(r) == GetType(e) && GetName(r) == GetName(e)
    ensures GetLeft(r) == GetLeft(e) && GetRight(r) == GetRight(e) && GetTerminal(r) == GetTerminal(e)
  {
    if k == 0 then e else BinaryLogicMethods.Negate(NegateTimes(e, k - 1))
  }

  /** What `k` calls of negate make of a possibly null operand: negate on null throws. */
  function Negated(e: Option<Expr>, k: nat): Result<Option<Expr>>
  {
    if k == 0 then Ok(e)
    else if e.None? then Err(NullPointer)
    else Ok(Some(NegateTimes(e.value, k)))
  }

  /**
   * The running expression after a bracketed operand: combined under the last
   * connective when the running expression, the operand and the connective
   * are all there; otherwise the operand, even a null one, replaces it.
   */
  function JoinGroup(last: Option<Expr>, t: Option<Terminal>, sub: Option<Expr>): Option<Expr>
  {
    if last.Some? && sub.Some? && t.Some? then BinaryLogicMethods.Combine(last.value, sub.value, t.value) else sub
  }

  /**
   * The running expression after an atom: taken as is when no connective was
   * read yet, else combined under it. With no running expression the source
   * builds a construction whose left operand is null; its first rendering
   * throws, and the model reports that exception here.
   */
  function JoinAtom(last: Option<Expr>, t: Option<Terminal>, a: Expr): (r: Result<Option<Expr>>)
    ensures t.None? ==> r == Ok(Some(a))
    ensures r.Err? <==> t.Some? && last.None?
    ensures r.Err? ==> r.fault == NullPointer
    ensures t == Some(Not) && last.Some? ==> r == Ok(None)
    ensures t.Some? && r.Ok? && r.value.Some? ==> r.value.value.Construction? && r.value.value.terminal == t.value && r.value.value.left == last.value && r.value.value.right == a
  {
    if t.None? then Ok(Some(a))
    else if last.None? then Err(NullPointer)
    else Ok(BinaryLogicMethods.Combine(last.value, a, t.value))
  }

  /** The expression `s` denotes; None (Java's null) when it has no operand. */
  function Parse(s: string): Result<Option<Expr>>
    decreases |s|, |s| + 2
  {
    ParseFrom(s, 0, None, None)
  }

  /**
   * The bracketed operand opening at `i`: the position after its ')' and the
   * inside parsed and negated once per '-' right before the '('.
   */
  function Group(s: string, i: nat): (r: Result<(nat, Option<Expr>)>)
    requires i < |s|
    ensures r.Ok? ==> i < r.value.0 <= |s|
    decreases |s|, 0
  {
    match ExpressionParser.CloseAfter(s, i + 1, 1)
    case None => Err(IndexOutOfBounds)
    case Some(j) =>
      match Parse(s[i + 1..j - 1])
      case Err(f) => Err(f)
      case Ok(sub) =>
        match Negated(sub, DashesBefore(s, i))
        case Err(f) => Err(f)
        case Ok(neg) => Ok((j, neg))
  }

  /** The atom read at the leftmost atom name from `i`, negated once per '-' right before it. */
  function AtomAt(s: string, i: nat): (a: Expr)
    requires i <= |s| && LiteralStart(s, i) < |s|
    ensures a.Atom? && IsAtomName(a.name) && a.negs == DashesBefore(s, LiteralStart(s, i))
  {
    NegateTimes(Atom(s[LiteralStart(s, i)..LiteralEnd(s, i)], 0), DashesBefore(s, LiteralStart(s, i)))
  }

  /** The connective read at the leftmost connective token from `i`. */
  function ConnectiveAt(s: string, i: nat): Option<Terminal>
    requires i <= |s|
  {
    BinaryTerminal.FromString(s[TerminalStart(s, i)..TerminalEnd(s, i)])
  }

  /**
   * The parse of `s` from position `i`, with `last` the expression built so
   * far and `t` the last connective read.
   */
  function ParseFrom(s: string, i: nat, last: Option<Expr>, t: Option<Terminal>): Result<Option<Expr>>
    requires i <= |s|
    decreases |s|, |s| - i + 1
  {
    if i == |s| then Ok(last)
    else if s[i] == ' ' then ParseFrom(s, i + 1, last, t)
    else if s[i] == '-' && i + 1 == |s| then Err(IndexOutOfBounds)
    else if s[i] == '-' && s[i + 1] != '>' then ParseFrom(s, i + 1, last, t)
    else if s[i] == '(' then
      match Group(s, i)
      case Err(f) => Err(f)
      case Ok(g) => ParseFrom(s, g.0, JoinGroup(last, t, g.1), t)
    else if LiteralStart(s, i) < TerminalStart(s, i) then
      match JoinAtom(last, t, AtomAt(s, i))
      case Err(f) => Err(f)
      case Ok(next) => ParseFrom(s, LiteralEnd(s, i), next, t)
    else
      ParseFrom(s, TerminalEnd(s, i), last, ConnectiveAt(s, i))
  }

  // ---------------------------------------------------------------------
  // The parser

  /** The negation loop: one negate per consecutive '-' right before index `at`. */
  method NegateDashes(s: string, at: nat, e: Option<Expr>) returns (r: Result<Option<Expr>>)
    requires at <= |s|
    ensures r == Negated(e, DashesBefore(s, at))
  {
    var x := e;
    var k := 1;
    while k <= at && s[at - k] == '-'
      invariant 1 <= k <= at + 1
      invariant DashesBefore(s, at) == (k - 1) + DashesBefore(s, at - (k - 1))
      invariant k == 1 ==> x == e
      invariant k > 1 ==> e.Some? && x == Some(NegateTimes(e.value, k - 1))
      decreases at + 1 - k
    {
      if x.None? {
        return Err(NullPointer);
      }
      x := Some(BinaryLogicMethods.Negate(x.value));
      k := k + 1;
    }
    return Ok(x);
  }

  /**
   * A bracketed operand: the matching ')' found by a nesting counter, the
   * inside parsed, then negated once per '-' right before the '('.
   */
  method ParseGroup(s: string, i: nat) returns (r: Result<(nat, Option<Expr>)>)
    requires i < |s|
    ensures r == Group(s, i)
    decreases |s|, 0
  {
    var j := i + 1;
    var found := false;
    var net := 1;
    while !found
      invariant i < j <= |s|
      invariant found ==> ExpressionParser.CloseAfter(s, i + 1, 1) == Some(j)
      invariant !found ==> net >= 1 && ExpressionParser.CloseAfter(s, i + 1, 1) == ExpressionParser.CloseAfter(s, j, net)
      decreases |s| - j
    {
      if j == |s| {
        return Err(IndexOutOfBounds);
      }
      if s[j] == '(' {
        net := net + 1;
      } else if s[j] == ')' {
        net := net - 1;
      }
      if net == 0 {
        found := true;
      }
      j := j + 1;
    }
    var sub := ParseExpression(s[i + 1..j - 1]);
    if sub.Err? {
      return Err(sub.fault);
    }
    var neg := NegateDashes(s, i, sub.value);
    if neg.Err? {
      return Err(neg.fault);
    }
    return Ok((j, neg.value));
  }

  /** parseExpression: the loop over the input, as Parse defines it. */
  method ParseExpression(s: string) returns (r: Result<Option<Expr>>)
    ensures r == Parse(s)
    decreases |s|, 1
  {
    var last: Option<Expr> := None;
    var t: Option<Terminal> := None;
    var i := 0;
    while i < |s|
      invariant i <= |s|
      invariant ParseFrom(s, i, last, t) == Parse(s)
      decreases |s| - i
    {
      if s[i] == ' ' {
        i := i + 1;
      } else if s[i] == '-' && (i + 1 == |s| || s[i + 1] != '>') {
        if i + 1 == |s| {
          return Err(IndexOutOfBounds);
        }
        i := i + 1;
      } else if s[i] == '(' {
        var g := ParseGroup(s, i);
        if g.Err? {
          return Err(g.fault);
        }
        var (j, neg) := g.value;
        last := JoinGroup(last, t, neg);
        i := j;
      } else {
        var ls, le := LiteralStart(s, i), LiteralEnd(s, i);
        var ts, te := TerminalStart(s, i), TerminalEnd(s, i);
        if ls < ts {
          var a := NegateDashes(s, ls, Some(Atom(s[ls..le], 0)));
          var next := JoinAtom(last, t, a.value.value);
          if next.Err? {
            return Err(next.fault);
          }
          last := next.value;
          i := le;
        } else {
          t := BinaryTerminal.FromString(s[ts..te]);
          i := te;
        }
      }
    }
    return Ok(last);
  }

  // ---------------------------------------------------------------------
  // What the parser returns

  /** A connective token read by the scanner is never NOT. */
  lemma ConnectiveRead(s: string, i: nat)
    requires i <= |s|
    ensures ConnectiveAt(s, i) != Some(Not)
  {
    var ts, te := TerminalStart(s, i), TerminalEnd(s, i);
    if ts < |s| {
      assert s[ts..te][0] == s[ts];
    }
  }

  /** What the rest of the model expects of a formula: no NOT construction, parser-made atom names. */
  predicate Parsed(e: Expr)
  {
    Proper(e) && WellNamed(e)
  }

  /** The running state of the parse holds only parsed-shape expressions and binary connectives. */
  predicate Sound(last: Option<Expr>, t: Option<Terminal>)
  {
    (last.Some? ==> Parsed(last.value)) && t != Some(Not)
  }

  /** Negations keep an expression's shape and names. */
  lemma NegateTimesParsed(e: Expr, k: nat)
    ensures Parsed(NegateTimes(e, k)) == Parsed(e)
  {
    var r := NegateTimes(e, k);
    if e.Construction? {
      assert r.left == e.left && r.right == e.right && r.terminal == e.terminal;
    }
  }

  /** Folding in a bracketed operand keeps the running state sound. */
  lemma JoinGroupSound(last: Option<Expr>, t: Option<Terminal>, sub: Option<Expr>)
    requires Sound(last, t) && (sub.Some? ==> Parsed(sub.value))
    ensures Sound(JoinGroup(last, t, sub), t)
  {
  }

  /** Folding in an atom keeps the running state sound. */
  lemma JoinAtomSound(last: Option<Expr>, t: Option<Terminal>, a: Expr)
    requires Sound(last, t) && a.Atom? && IsAtomName(a.name)
    ensures JoinAtom(last, t, a).Ok? ==> Sound(JoinAtom(last, t, a).value, t)
  {
  }

  /**
   * Every expression the parser returns has no NOT construction and only
   * atom names of the form [A-Z]+[0-9]*: the input the conversion to clause
   * form expects.
   */
  lemma ParseParsed(s: string)
    ensures Parse(s).Ok? && Parse(s).value.Some? ==> Parsed(Parse(s).value.value)
    decreases |s|, |s| + 2
  {
    ParseFromParsed(s, 0, None, None);
  }

  lemma GroupParsed(s: string, i: nat)
    requires i < |s|
    ensures Group(s, i).Ok? && Group(s, i).value.1.Some? ==> Parsed(Group(s, i).value.1.value)
    decreases |s|, 0
  {
    match ExpressionParser.CloseAfter(s, i + 1, 1)
    case None =>
    case Some(j) =>
      ParseParsed(s[i + 1..j - 1]);
      var p := Parse(s[i + 1..j - 1]);
      if p.Ok? && p.value.Some? {
        NegateTimesParsed(p.value.value, DashesBefore(s, i));
      }
  }

  lemma {:induction false} ParseFromParsed(s: string, i: nat, last: Option<Expr>, t: Option<Terminal>)
    requires i <= |s| && Sound(last, t)
    ensures ParseFrom(s, i, last, t).Ok? && ParseFrom(s, i, last, t).value.Some? ==>
      Parsed(ParseFrom(s, i, last, t).value.value)
    decreases |s|, |s| - i + 1
  {
    if i == |s| {
    } else if s[i] == '-' && i + 1 == |s| {
    } else if s[i] == ' ' || (s[i] == '-' && s[i + 1] != '>') {
      ParseFromParsed(s, i + 1, last, t);
    } else if s[i] == '(' {
      GroupParsed(s, i);
      if Group(s, i).Ok? {
        var g := Group(s, i).value;
        JoinGroupSound(last, t, g.1);
        ParseFromParsed(s, g.0, JoinGroup(last, t, g.1), t);
      }
    } else if LiteralStart(s, i) < TerminalStart(s, i) {
      var a := AtomAt(s, i);
      JoinAtomSound(last, t, a);
      if JoinAtom(last, t, a).Ok? {
        ParseFromParsed(s, LiteralEnd(s, i), JoinAtom(last, t, a).value, t);
      }
    } else {
      ConnectiveRead(s, i);
      ParseFromParsed(s, TerminalEnd(s, i), last, ConnectiveAt(s, i));
    }
  }

  /** No capital letter in `s`. */
  predicate NoAtomName(s: string)
  {
    forall j :: 0 <= j < |s| ==> !IsUpper(s[j])
  }

  /** Input without an atom name yields null, when it yields anything. */
  lemma ParseNoAtom(s: string)
    requires NoAtomName(s)
    ensures Parse(s).Ok? ==> Parse(s).value.None?
    decreases |s|, |s| + 2
  {
    ParseFromNoAtom(s, 0, None);
  }

  lemma GroupNoAtom(s: string, i: nat)
    requires i < |s| && NoAtomName(s)
    ensures Group(s, i).Ok? ==> Group(s, i).value.1.None?
    decreases |s|, 0
  {
    match ExpressionParser.CloseAfter(s, i + 1, 1)
    case None =>
    case Some(j) =>
      var inner := s[i + 1..j - 1];
      assert forall k :: 0 <= k < |inner| ==> inner[k] == s[i + 1 + k];
      ParseNoAtom(inner);
  }

  lemma {:induction false} ParseFromNoAtom(s: string, i: nat, t: Option<Terminal>)
    requires i <= |s| && NoAtomName(s)
    ensures ParseFrom(s, i, None, t).Ok? ==> ParseFrom(s, i, None, t).value.None?
    decreases |s|, |s| - i + 1
  {
    if i == |s| {
    } else if s[i] == ' ' {
      ParseFromNoAtom(s, i + 1, t);
    } else if s[i] == '-' && i + 1 == |s| {
    } else if s[i] == '-' && s[i + 1] != '>' {
      ParseFromNoAtom(s, i + 1, t);
    } else if s[i] == '(' {
      GroupNoAtom(s, i);
      match Group(s, i)
      case Err(_) =>
      case Ok(g) => ParseFromNoAtom(s, g.0, t);
    } else {
      assert LiteralStart(s, i) == |s|;
      ParseFromNoAtom(s, TerminalEnd(s, i), ConnectiveAt(s, i));
    }
  }

  // ---------------------------------------------------------------------
  // Examples

  /** An atom name found before any connective is folded in; the parse resumes after it. */
  lemma AtomStep(s: string, i: nat, last: Option<Expr>, t: Option<Terminal>, next: Option<Expr>)
    requires i < |s| && s[i] != ' ' && s[i] != '(' && s[i] != '-'
    requires LiteralStart(s, i) < TerminalStart(s, i)
    requires JoinAtom(last, t, AtomAt(s, i)) == Ok(next)
    ensures ParseFrom(s, i, last, t) == ParseFrom(s, LiteralEnd(s, i), next, t)
  {
  }

  /** A connective found before any atom name becomes the last connective read. */
  lemma ConnectiveStep(s: string, i: nat, last: Option<Expr>, t: Option<Terminal>)
    requires i < |s| && s[i] != ' ' && s[i] != '(' && s[i] != '-'
    requires LiteralStart(s, i) >= TerminalStart(s, i)
    ensures ParseFrom(s, i, last, t) == ParseFrom(s, TerminalEnd(s, i), last, ConnectiveAt(s, i))
  {
  }

  const A: Expr := Atom("A", 0)
  const B: Expr := Atom("B", 0)
  const C: Expr := Atom("C", 0)

  lemma ChainFirst()
    ensures ParseFrom("A&B&C", 0, None, None) == ParseFrom("A&B&C", 1, Some(A), None)
  {
    var s := "A&B&C";
    assert FindLiteral(s, 0) == Some((0, 1)) && FindTerminal(s, 0) == Some((1, 2));
    assert s[0..1] == "A" && DashesBefore(s, 0) == 0;
    AtomStep(s, 0, None, None, Some(A));
  }

  lemma ChainAmp(i: nat, last: Expr)
    requires i == 1 || i == 3
    ensures ParseFrom("A&B&C", i, Some(last), if i == 1 then None else Some(And)) == ParseFrom("A&B&C", i + 1, Some(last), Some(And))
  {
    var s := "A&B&C";
    assert FindLiteral(s, i) == Some((i + 1, i + 2)) && FindTerminal(s, i) == Some((i, i + 1));
    assert s[i..i + 1] == "&";
    ConnectiveStep(s, i, Some(last), if i == 1 then None else Some(And));
  }

  lemma ChainSecond()
    ensures ParseFrom("A&B&C", 2, Some(A), Some(And)) == ParseFrom("A&B&C", 3, Some(Construction(A, And, B, 0)), Some(And))
  {
    var s := "A&B&C";
    assert FindLiteral(s, 2) == Some((2, 3)) && FindTerminal(s, 2) == Some((3, 4));
    assert s[2..3] == "B" && DashesBefore(s, 2) == 0;
    AtomStep(s, 2, Some(A), Some(And), Some(Construction(A, And, B, 0)));
  }

  lemma ChainLast()
    ensures ParseFrom("A&B&C", 4, Some(Construction(A, And, B, 0)), Some(And)) ==
      Ok(Some(Construction(Construction(A, And, B, 0), And, C, 0)))
  {
    var s := "A&B&C";
    var ab := Construction(A, And, B, 0);
    var r := Construction(ab, And, C, 0);
    assert FindLiteral(s, 4) == Some((4, 5)) && FindTerminal(s, 4) == None;
    assert s[4..5] == "C" && DashesBefore(s, 4) == 0;
    AtomStep(s, 4, Some(ab), Some(And), Some(r));
  }

  /**
   * Operands fold to the left into two-operand constructions: a chain of the
   * same connective is nested, not flattened as the n-ary parser does.
   */
  lemma ParseLeftNested()
    ensures Parse("A&B&C") == Ok(Some(Construction(Construction(A, And, B, 0), And, C, 0)))
  {
    ChainFirst();
    ChainAmp(1, A);
    ChainSecond();
    ChainAmp(3, Construction(A, And, B, 0));
    ChainLast();
  }

  lemma OrFirst()
    ensures ParseFrom("A|B", 0, None, None) == ParseFrom("A|B", 2, Some(A), Some(Or))
  {
    var s := "A|B";
    OrScans();
    assert s[0..1] == "A" && DashesBefore(s, 0) == 0;
    AtomStep(s, 0, None, None, Some(A));
    assert s[1..2] == "|";
    ConnectiveStep(s, 1, Some(A), None);
  }

  /** Where the scans find the literals and the connective of "A|B". */
  lemma OrScans()
    ensures FindLiteral("A|B", 0) == Some((0, 1)) && FindTerminal("A|B", 0) == Some((1, 2))
    ensures FindLiteral("A|B", 1) == Some((2, 3)) && FindTerminal("A|B", 1) == Some((1, 2))
  {
    var s := "A|B";
    assert FindLiteral(s, 0) == Some((0, 1));
    assert FindTerminal(s, 0) == Some((1, 2));
    assert FindLiteral(s, 1) == Some((2, 3));
  }

  lemma OrLast()
    ensures ParseFrom("A|B", 2, Some(A), Some(Or)) == Ok(Some(Construction(A, Or, B, 0)))
  {
    var s := "A|B";
    assert FindLiteral(s, 2) == Some((2, 3)) && FindTerminal(s, 2) == None;
    assert s[2..3] == "B" && DashesBefore(s, 2) == 0;
    AtomStep(s, 2, Some(A), Some(Or), Some(Construction(A, Or, B, 0)));
  }

  lemma NegatedGroupBody()
    ensures Group("-(A|B)", 1) == Ok((6, Some(Construction(A, Or, B, 1))))
  {
    var s := "-(A|B)";
    assert ExpressionParser.CloseAfter(s, 2, 1) == Some(6);
    assert s[2..5] == "A|B";
    OrFirst();
    OrLast();
    assert DashesBefore(s, 1) == 1;
  }

  /** A bracketed part is parsed on its own and negated once per '-' before the '('. */
  lemma ParseNegatedGroup()
    ensures Parse("-(A|B)") == Ok(Some(Construction(A, Or, B, 1)))
  {
    var s := "-(A|B)";
    var x := Construction(A, Or, B, 1);
    assert ParseFrom(s, 0, None, None) == ParseFrom(s, 1, None, None);
    NegatedGroupBody();
    assert JoinGroup(None, None, Some(x)) == Some(x);
    assert ParseFrom(s, 1, None, None) == ParseFrom(s, 6, Some(x), None);
  }

  /** A connective before the first operand leaves nothing to combine with; so does negating an empty bracket. */
  lemma ParseNullOperand()
    ensures Parse("&A") == Err(NullPointer)
    ensures Parse("-()") == Err(NullPointer)
  {
    var s := "&A";
    assert FindLiteral(s, 0) == Some((1, 2)) && FindTerminal(s, 0) == Some((0, 1));
    assert s[0..1] == "&";
    ConnectiveStep(s, 0, None, None);
    assert FindLiteral(s, 1) == Some((1, 2)) && FindTerminal(s, 1) == None;
    var g := "-()";
    assert ExpressionParser.CloseAfter(g, 2, 1) == Some(3);
    assert g[2..2] == "";
    assert DashesBefore(g, 1) == 1;
  }
}
