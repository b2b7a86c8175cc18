/**
 * String helpers shared by the scanners of both packages: the two regular
 * expressions the Java code compiles ("[A-Z]+[0-9]*" for atoms and
 * "&|\||->|<->" for connectives), the run of '-' before a position, and
 * decimal rendering of numbers.
 */
module Text {
  import opened Wrappers

  predicate IsUpper(c: char) { 'A' <= c <= 'Z' }
  predicate IsDigit(c: char) { '0' <= c <= '9' }

  /** End of the run of characters satisfying `p` that starts at `k`. */
  function RunEnd(s: string, k: nat, p: char -> bool): (e: nat)
    requires k <= |s|
    ensures k <= e <= |s|
    ensures forall j :: k <= j < e ==> p(s[j])
    ensures e < |s| ==> !p(s[e])
    decreases |s| - k
  {
    if k < |s| && p(s[k]) then RunEnd(s, k + 1, p) else k
  }

  /** True when `s` is an atom name: one or more capitals, then digits. */
  predicate IsAtomName(s: string) {
    |s| > 0 && IsUpper(s[0]) &&
    RunEnd(s, RunEnd(s, 0, IsUpper), IsDigit) == |s|
  }

  /** First index at or after `i` holding a capital letter. */
  function FirstUpper(s: string, i: nat): (r: Option<nat>)
    requires i <= |s|
    ensures r.Some? ==> i <= r.value < |s| && IsUpper(s[r.value])
    ensures r.Some? ==> forall j :: i <= j < r.value ==> !IsUpper(s[j])
    ensures r.None? ==> forall j :: i <= j < |s| ==> !IsUpper(s[j])
    decreases |s| - i
  {
    if i == |s| then None
    else if IsUpper(s[i]) then Some(i)
    else FirstUpper(s, i + 1)
  }

  /**
   * Leftmost match of "[A-Z]+[0-9]*" in s[i..], as absolute start and end.
   * Both quantifiers are greedy and the digit part may be empty, so the match
   * takes the whole run of capitals and then the whole run of digits.
   */
  function FindLiteral(s: string, i: nat): (r: Option<(nat, nat)>)
    requires i <= |s|
    ensures r.Some? ==> i <= r.value.0 < r.value.1 <= |s|
    ensures r.Some? ==> forall j :: i <= j < r.value.0 ==> !IsUpper(s[j])
    ensures r.Some? ==> IsAtomName(s[r.value.0..r.value.1])
    ensures r.None? <==> forall j :: i <= j < |s| ==> !IsUpper(s[j])
  {
    match FirstUpper(s, i)
    case None => None
    case Some(k) =>
      var e := RunEnd(s, RunEnd(s, k, IsUpper), IsDigit);
      NameOfRuns(s, k);
      Some((k, e))
  }

  lemma NameOfRuns(s: string, k: nat)
    requires k < |s| && IsUpper(s[k])
    ensures IsAtomName(s[k..RunEnd(s, RunEnd(s, k, IsUpper), IsDigit)])
  {
    var u := RunEnd(s, k, IsUpper);
    var e := RunEnd(s, u, IsDigit);
    var t := s[k..e];
    RunEndShift(s, k, e, k, IsUpper);
    RunEndShift(s, k, e, u, IsDigit);
  }

  /** A run end computed inside a slice agrees with the one computed in the whole string. */
  lemma {:induction false} RunEndShift(s: string, k: nat, e: nat, m: nat, p: char -> bool)
    requires k <= m <= e <= |s|
    requires RunEnd(s, m, p) <= e
    ensures RunEnd(s[k..e], m - k, p) == RunEnd(s, m, p) - k
    decreases e - m
  {
    if m < e && p(s[m]) {
      RunEndShift(s, k, e, m + 1, p);
    }
  }

  /** Length of the connective token starting at `k`, or 0 when none starts there. */
  function TerminalLength(s: string, k: nat): (n: nat)
    requires k < |s|
    ensures n <= 3 && k + n <= |s|
  {
    if s[k] == '&' || s[k] == '|' then 1
    else if s[k] == '-' && k + 1 < |s| && s[k + 1] == '>' then 2
    else if s[k] == '<' && k + 2 < |s| && s[k + 1] == '-' && s[k + 2] == '>' then 3
    else 0
  }

  /** Leftmost match of "&|\||->|<->" in s[i..], as absolute start and end. */
  function FindTerminal(s: string, i: nat): (r: Option<(nat, nat)>)
    requires i <= |s|
    ensures r.Some? ==> i <= r.value.0 < r.value.1 <= |s|
    ensures r.Some? ==> r.value.1 - r.value.0 == TerminalLength(s, r.value.0) > 0
    ensures r.Some? ==> forall j :: i <= j < r.value.0 ==> TerminalLength(s, j) == 0
    ensures r.None? <==> forall j :: i <= j < |s| ==> TerminalLength(s, j) == 0
    decreases |s| - i
  {
    if i == |s| then None
    else if TerminalLength(s, i) > 0 then Some((i, i + TerminalLength(s, i)))
    else FindTerminal(s, i + 1)
  }

  /** Start of the leftmost atom name at or after `i`, or the length when there is none. */
  function LiteralStart(s: string, i: nat): (r: nat)
    requires i <= |s|
    ensures i <= r <= |s|
    ensures r == |s| <==> FindLiteral(s, i).None?
  {
    match FindLiteral(s, i)
    case Some(m) => m.0
    case None => |s|
  }

  /** Start of the leftmost connective at or after `i`, or the length when there is none. */
  function TerminalStart(s: string, i: nat): (r: nat)
    requires i <= |s|
    ensures i <= r <= |s|
    ensures r == |s| <==> FindTerminal(s, i).None?
  {
    match FindTerminal(s, i)
    case Some(m) => m.0
    case None => |s|
  }

  /** End of the leftmost atom name at or after `i`, or the length when there is none. */
  function LiteralEnd(s: string, i: nat): (e: nat)
    requires i <= |s|
    ensures LiteralStart(s, i) <= e <= |s|
    ensures LiteralStart(s, i) < |s| ==> LiteralStart(s, i) < e && IsAtomName(s[LiteralStart(s, i)..e])
  {
    match FindLiteral(s, i)
    case Some(m) => m.1
    case None => |s|
  }

  /** End of the leftmost connective at or after `i`, or the length when there is none. */
  function TerminalEnd(s: string, i: nat): (e: nat)
    requires i <= |s|
    ensures TerminalStart(s, i) <= e <= |s|
    ensures TerminalStart(s, i) < |s| <==> TerminalStart(s, i) < e
    ensures TerminalStart(s, i) < |s| ==> e == TerminalStart(s, i) + TerminalLength(s, TerminalStart(s, i))
  {
    match FindTerminal(s, i)
    case Some(m) => m.1
    case None => |s|
  }

  /** Number of consecutive '-' immediately before index `k`. */
  function DashesBefore(s: string, k: nat): (n: nat)
    requires k <= |s|
    ensures n <= k
    ensures forall j :: k - n <= j < k ==> s[j] == '-'
    ensures n < k ==> s[k - n - 1] != '-'
  {
    if k == 0 || s[k - 1] != '-' then 0 else 1 + DashesBefore(s, k - 1)
  }

  /** `s` written `n` times. */
  function Repeat(s: string, n: nat): (r: string)
    ensures |r| == n * |s|
  {
    if n == 0 then "" else s + Repeat(s, n - 1)
  }

  function DigitChar(d: nat): char
    requires d < 10
  {
    ['0', '1', '2', '3', '4', '5', '6', '7', '8', '9'][d]
  }

  /** Decimal rendering of a natural number, as Java's string concatenation writes an int. */
  function NatToString(n: nat): (r: string)
    ensures |r| > 0 && forall j :: 0 <= j < |r| ==> IsDigit(r[j])
  {
    if n < 10 then [DigitChar(n)] else NatToString(n / 10) + [DigitChar(n % 10)]
  }

  /** Java's rendering of an int, with a leading '-' for negatives. */
  function IntToString(n: int): string
  {
    if n < 0 then "-" + NatToString(-n) else NatToString(n)
  }

  // ---------------------------------------------------------------------
  // Lists rendered with ", " between items, as the toString methods build them.

  /** The items with ", " between consecutive ones. */
  function JoinComma(items: seq<string>): string
    decreases |items|
  {
    if |items| == 0 then ""
    else if |items| == 1 then items[0]
    else JoinComma(items[..|items| - 1]) + ", " + items[|items| - 1]
  }

  /** Every item followed by ", ", the string the loops build before trimming. */
  function Trailing(items: seq<string>): string
    decreases |items|
  {
    if |items| == 0 then "" else Trailing(items[..|items| - 1]) + items[|items| - 1] + ", "
  }

  /** Trimming the final ", " off the built string leaves the joined items. */
  lemma {:induction false} TrailingTrim(items: seq<string>)
    requires |items| > 0
    ensures Trailing(items) == JoinComma(items) + ", "
    decreases |items|
  {
    if |items| > 1 {
      TrailingTrim(items[..|items| - 1]);
    }
  }

  /** The items rendered one by one. */
  function MapRender<T>(xs: seq<T>, render: T -> string): (r: seq<string>)
    ensures |r| == |xs| && forall i :: 0 <= i < |xs| ==> r[i] == render(xs[i])
  {
    seq(|xs|, i requires 0 <= i < |xs| => render(xs[i]))
  }

  /** `order` lists every element of `s` exactly once: one iteration order of a hash set. */
  ghost predicate Enumerates<T(!new)>(order: seq<T>, s: set<T>)
  {
    (forall i, j :: 0 <= i < j < |order| ==> order[i] != order[j]) &&
    (forall x :: x in s <==> x in order)
  }

  /** Visiting one more element extends an iteration order. */
  lemma EnumeratesStep<T(!new)>(order: seq<T>, done: set<T>, x: T)
    requires Enumerates(order, done) && x !in done
    ensures Enumerates(order + [x], done + {x})
  {
  }

  /** Building one more item appends it and its separator. */
  lemma TrailingSnoc(items: seq<string>, x: string)
    ensures Trailing(items + [x]) == Trailing(items) + x + ", "
  {
    assert (items + [x])[..|items|] == items;
  }

  /** Rendering one more element appends its rendering. */
  lemma MapRenderSnoc<T>(xs: seq<T>, x: T, render: T -> string)
    ensures MapRender(xs + [x], render) == MapRender(xs, render) + [render(x)]
  {
  }

  /** Dropping the last ", " of the built string and closing the brace gives the braced list. */
  lemma TrimBraced(items: seq<string>)
    requires |items| > 0
    ensures var s := "{" + Trailing(items); |s| >= 2 && s[..|s| - 2] + "}" == "{" + JoinComma(items) + "}"
  {
    TrailingTrim(items);
    var s := "{" + Trailing(items);
    assert s == "{" + JoinComma(items) + ", ";
    assert s[..|s| - 2] == "{" + JoinComma(items);
  }

  /** The elements of a hash set in the order its iterator yields them, which the model leaves open. */
  method Elements<T(==,!new)>(s: set<T>) returns (order: seq<T>)
    ensures Enumerates(order, s)
  {
    var todo := s;
    ghost var done: set<T> := {};
    order := [];
    while todo != {}
      invariant done + todo == s && done !! todo
      invariant Enumerates(order, done)
      decreases |todo|
    {
      var x :| x in todo;
      EnumeratesStep(order, done, x);
      order := order + [x];
      done := done + {x};
      todo := todo - {x};
    }
  }

  /** An iteration order is as long as the set it lists. */
  lemma {:induction false} EnumeratesSize<T(!new)>(order: seq<T>, s: set<T>)
    requires Enumerates(order, s)
    ensures |order| == |s|
    decreases |order|
  {
    if |order| > 0 {
      var x := order[|order| - 1];
      var rest := order[..|order| - 1];
      assert forall y :: y in rest ==> y != x;
      EnumeratesSize(rest, s - {x});
    } else {
      assert forall y :: y !in s;
    }
  }
}
