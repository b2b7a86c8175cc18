/**
 * Reading a binary expression back from its rendering. The simplification
 * passes and the complement test of the binary package compare expressions
 * by their toString; these lemmas show that, for the names the parser
 * produces, equal renderings mean equal expressions, and a rendering that is
 * "¬" followed by another is the rendering of that expression negated once.
 */
module BinaryRendering {
  import opened Text
  import opened Terminal
  import BinaryTerminal
  import opened BinaryExpression
  import BinaryLogicMethods

  /** What may follow an operand's rendering: nothing, the space before a connective, or a closing bracket. */
  predicate Follows(x: string)
  {
    x == [] || x[0] == ' ' || x[0] == ')'
  }

  /** The two negation marks an atom may be rendered with: as written, and as intended. */
  predicate IsMark(mark: string)
  {
    mark == AtomMark || mark == "¬"
  }

  /** `e` with one negation fewer. */
  function Peeled(e: Expr): (r: Expr)
    requires e.negs > 0
    ensures r.negs == e.negs - 1 && Size(r) == Size(e) && r.Atom? == e.Atom?
    ensures WellNamed(r) == WellNamed(e)
  {
    match e
    case Atom(n, k) => Atom(n, k - 1)
    case Construction(l, t, r, k) => Construction(l, t, r, k - 1)
  }

  /** A negated expression is rendered as its mark, then the expression with one negation fewer. */
  lemma PeelShow(e: Expr, mark: string)
    requires e.negs > 0
    ensures Show(e, mark) == Mark(e, mark) + Show(Peeled(e), mark)
    ensures Mark(Peeled(e), mark) == Mark(e, mark)
  {
    var p := Peeled(e);
    assert p.(negs := p.negs + 1) == e;
    ShowSucc(p, mark);
  }

  /** An atom name is made of capitals and digits only. */
  lemma NameChars(n: string, j: nat)
    requires IsAtomName(n) && j < |n|
    ensures IsUpper(n[j]) || IsDigit(n[j])
  {
    var u := RunEnd(n, 0, IsUpper);
    if j >= u {
      assert RunEnd(n, u, IsDigit) == |n|;
    }
  }

  /** An atom name followed by a space or a bracket is read back whole. */
  lemma NameBoundary(n: string, x: string, m: string, y: string)
    requires IsAtomName(n) && IsAtomName(m) && Follows(x) && Follows(y)
    requires n + x == m + y
    ensures n == m && x == y
  {
    if |n| < |m| {
      assert (n + x)[|n|] == (m + y)[|n|];
      NameChars(m, |n|);
      assert false;
    } else if |m| < |n| {
      assert (n + x)[|m|] == (m + y)[|m|];
      NameChars(n, |m|);
      assert false;
    }
    assert n == (n + x)[..|n|] == (m + y)[..|m|] == m;
  }

  /**
   * The first character of a rendering: the mark's for a negated
   * expression, a capital for an atom, '(' for a construction.
   */
  lemma FirstChar(e: Expr, mark: string)
    requires IsMark(mark) && WellNamed(e)
    ensures |Show(e, mark)| > 0
    ensures e.negs > 0 ==> Show(e, mark)[0] == Mark(e, mark)[0]
    ensures e.negs == 0 && e.Atom? ==> IsUpper(Show(e, mark)[0])
    ensures e.negs == 0 && e.Construction? ==> Show(e, mark)[0] == '('
  {
    if e.negs > 0 {
      PeelShow(e, mark);
    } else {
      assert Show(e, mark) == Body(e, mark);
    }
  }

  /** The connectives' tokens start with five different characters. */
  lemma TokenFirst(t1: Terminal, t2: Terminal)
    requires BinaryTerminal.ToString(t1)[0] == BinaryTerminal.ToString(t2)[0]
    ensures t1 == t2
  {
  }

  /** Regrouping a construction's rendering followed by a tail. */
  lemma Regroup(sl: string, o: string, sr: string, x: string)
    ensures "(" + sl + " " + o + " " + sr + ")" + x == "(" + (sl + (" " + o + " " + (sr + (")" + x))))
  {
    var t := sr + (")" + x);
    assert sr + ")" + x == t;
    assert " " + o + " " + sr + ")" + x == " " + o + " " + t;
    assert sl + " " + o + " " + sr + ")" + x == sl + (" " + o + " " + t);
  }

  /** Equal strings with equal prefixes have equal remainders. */
  lemma StripPrefix(m: string, p: string, n: string, q: string)
    requires m + p == n + q && m == n
    ensures p == q
  {
    assert p == (m + p)[|m|..];
    assert q == (n + q)[|n|..];
  }

  /** The connective part between two operands: its token's first character, then what follows it. */
  lemma SplitConnective(o1: string, r1: string, o2: string, r2: string)
    requires |o1| > 0 && |o2| > 0
    requires " " + o1 + " " + r1 == " " + o2 + " " + r2
    ensures o1[0] == o2[0]
    ensures o1 == o2 ==> r1 == r2
  {
    assert (" " + o1 + " " + r1)[1] == o1[0];
    assert (" " + o2 + " " + r2)[1] == o2[0];
    if o1 == o2 {
      StripPrefix(" " + o1 + " ", r1, " " + o2 + " ", r2);
    }
  }

  /** A construction's rendering followed by a tail, split where its operands begin. */
  lemma ShowConstruction(e: Expr, mark: string, x: string)
    requires e.Construction? && e.negs == 0
    ensures Show(e, mark) + x == "(" + (Show(e.left, mark) + (" " + BinaryTerminal.ToString(e.terminal) + " " + (Show(e.right, mark) + (")" + x))))
  {
    assert Show(e, mark) == Body(e, mark);
    Regroup(Show(e.left, mark), BinaryTerminal.ToString(e.terminal), Show(e.right, mark), x);
  }

  /**
   * The rendering is prefix-free once followed by a space or a bracket, so
   * two renderings that agree, each followed by such a tail, are the same
   * expression followed by the same tail.
   */
  lemma {:induction false} ShowInjective(a: Expr, b: Expr, mark: string, x: string, y: string)
    requires IsMark(mark) && WellNamed(a) && WellNamed(b) && Follows(x) && Follows(y)
    requires Show(a, mark) + x == Show(b, mark) + y
    ensures a == b && x == y
    decreases Size(a) + Size(b), a.negs + b.negs, 1
  {
    var sa, sb := Show(a, mark), Show(b, mark);
    FirstChar(a, mark);
    FirstChar(b, mark);
    assert (sa + x)[0] == sa[0] && (sb + y)[0] == sb[0];
    if a.negs > 0 && b.negs > 0 {
      PeelInjective(a, b, mark, x, y);
    } else if a.negs > 0 || b.negs > 0 {
      assert false;
    } else if a.Atom? && b.Atom? {
      assert sa == a.name && sb == b.name;
      NameBoundary(a.name, x, b.name, y);
    } else if a.Atom? || b.Atom? {
      assert false;
    } else {
      ConstructionInjective(a, b, mark, x, y);
    }
  }

  /** ShowInjective for two negated expressions, from ShowInjective for them with one negation fewer. */
  lemma {:induction false} PeelInjective(a: Expr, b: Expr, mark: string, x: string, y: string)
    requires IsMark(mark) && WellNamed(a) && WellNamed(b) && Follows(x) && Follows(y)
    requires a.negs > 0 && b.negs > 0
    requires Show(a, mark) + x == Show(b, mark) + y
    ensures a == b && x == y
    decreases Size(a) + Size(b), a.negs + b.negs, 0
  {
    PeelShow(a, mark);
    PeelShow(b, mark);
    var ma, mb := Mark(a, mark), Mark(b, mark);
    var pa, pb := Show(Peeled(a), mark), Show(Peeled(b), mark);
    Regroup2(ma, pa, x);
    Regroup2(mb, pb, y);
    if ma != mb {
      FirstOf(ma, pa + x);
      FirstOf(mb, pb + y);
      assert false;
    }
    StripPrefix(ma, pa + x, mb, pb + y);
    ShowInjective(Peeled(a), Peeled(b), mark, x, y);
  }

  lemma FirstOf(m: string, p: string)
    ensures |m| > 0 ==> (m + p)[0] == m[0]
  {
  }

  lemma Regroup2(m: string, p: string, x: string)
    ensures (m + p) + x == m + (p + x)
  {
  }

  /** ShowInjective for two un-negated constructions, from ShowInjective for their operands. */
  lemma {:induction false} ConstructionInjective(a: Expr, b: Expr, mark: string, x: string, y: string)
    requires IsMark(mark) && WellNamed(a) && WellNamed(b) && Follows(x) && Follows(y)
    requires a.Construction? && b.Construction? && a.negs == 0 && b.negs == 0
    requires Show(a, mark) + x == Show(b, mark) + y
    ensures a == b && x == y
    decreases Size(a) + Size(b), 0, 0
  {
    var oa, ob := BinaryTerminal.ToString(a.terminal), BinaryTerminal.ToString(b.terminal);
    var ra, rb := Show(a.right, mark) + (")" + x), Show(b.right, mark) + (")" + y);
    var ta, tb := " " + oa + " " + ra, " " + ob + " " + rb;
    ShowConstruction(a, mark, x);
    ShowConstruction(b, mark, y);
    StripPrefix("(", Show(a.left, mark) + ta, "(", Show(b.left, mark) + tb);
    ShowInjective(a.left, b.left, mark, ta, tb);
    SplitConnective(oa, ra, ob, rb);
    TokenFirst(a.terminal, b.terminal);
    ShowInjective(a.right, b.right, mark, ")" + x, ")" + y);
    StripPrefix(")", x, ")", y);
  }

  /** Equal renderings mean equal expressions. */
  lemma RenderingInjective(a: Expr, b: Expr, mark: string)
    requires IsMark(mark) && WellNamed(a) && WellNamed(b)
    ensures Show(a, mark) == Show(b, mark) <==> a == b
  {
    if Show(a, mark) == Show(b, mark) {
      assert Show(a, mark) + [] == Show(b, mark) + [];
      ShowInjective(a, b, mark, [], []);
    }
  }

  /**
   * A rendering that is "¬" followed by another is that expression negated
   * once; under the source's atom mark "Â¬" this happens only for
   * constructions.
   */
  lemma NegatedRendering(l: Expr, r: Expr, mark: string)
    requires IsMark(mark) && WellNamed(l) && WellNamed(r)
    requires Show(l, mark) == "¬" + Show(r, mark)
    ensures l == BinaryLogicMethods.Negate(r)
    ensures mark == AtomMark ==> r.Construction?
  {
    FirstChar(l, mark);
    assert Show(l, mark)[0] == '¬';
    if l.negs == 0 {
      assert false;
    }
    NegationMark(l, mark);
    PeelShow(l, mark);
    StripPrefix("¬", Show(Peeled(l), mark), "¬", Show(r, mark));
    RenderingInjective(Peeled(l), r, mark);
    PeeledNegate(l);
  }

  /** Negating what was peeled gives the expression back. */
  lemma PeeledNegate(e: Expr)
    requires e.negs > 0
    ensures BinaryLogicMethods.Negate(Peeled(e)) == e
  {
  }

  /** A negated rendering that starts with '¬' has the mark "¬"; under "Â¬" that means a construction. */
  lemma NegationMark(e: Expr, mark: string)
    requires IsMark(mark) && e.negs > 0 && |Show(e, mark)| > 0
    requires Show(e, mark)[0] == Mark(e, mark)[0] == '¬'
    ensures Mark(e, mark) == "¬"
    ensures mark == AtomMark ==> e.Construction?
  {
    assert AtomMark[0] != '¬';
  }

  /** Only the atom T is rendered "T", and only the atom FALSE is rendered "FALSE". */
  lemma ConstantRendering(e: Expr, mark: string)
    requires IsMark(mark) && WellNamed(e)
    ensures Show(e, mark) == "T" <==> e == BinaryLogicMethods.TRUE
    ensures Show(e, mark) == "FALSE" <==> e == BinaryLogicMethods.FALSE
  {
    var t, f := BinaryLogicMethods.TRUE, BinaryLogicMethods.FALSE;
    ConstantsWellNamed(mark);
    RenderingInjective(e, t, mark);
    RenderingInjective(e, f, mark);
  }

  /** The constants are atoms with parser-readable names, rendered as those names. */
  lemma ConstantsWellNamed(mark: string)
    ensures WellNamed(BinaryLogicMethods.TRUE) && Show(BinaryLogicMethods.TRUE, mark) == "T"
    ensures WellNamed(BinaryLogicMethods.FALSE) && Show(BinaryLogicMethods.FALSE, mark) == "FALSE"
  {
    assert IsAtomName("T") by {
      assert RunEnd("T", 0, IsUpper) == 1;
    }
    assert IsAtomName("FALSE") by {
      assert RunEnd("FALSE", 0, IsUpper) == 5;
    }
  }
}
