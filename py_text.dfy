/**
 * The pieces of Python's string behaviour that the two analyses rely on:
 * `str.strip()` (used to normalise neighbourhood names) and `str()` /
 * f-string rendering of integers (used for ward numbers and counts in the
 * report lines).
 */
module PyText {

  /** Python's `str.isspace()` for one character: the characters whose
      bidirectional class is WS, B or S, or whose category is Zs. */
  predicate IsSpace(c: char) {
    var n := c as int;
    || n == 0x20 || 0x09 <= n <= 0x0D || 0x1C <= n <= 0x1F
    || n == 0x85 || n == 0xA0 || n == 0x1680 || 0x2000 <= n <= 0x200A
    || n == 0x2028 || n == 0x2029 || n == 0x202F || n == 0x205F || n == 0x3000
  }

  predicate AllSpace(s: string) {
    forall i :: 0 <= i < |s| ==> IsSpace(s[i])
  }

  /** `s.lstrip()`: the suffix left after dropping leading whitespace. */
  function StripStart(s: string): (r: string)
    ensures |r| <= |s|
    ensures r == [] || !IsSpace(r[0])
  {
    if s != [] && IsSpace(s[0]) then StripStart(s[1..]) else s
  }

  /** `s.rstrip()`: the prefix left after dropping trailing whitespace. */
  function StripEnd(s: string): (r: string)
    ensures |r| <= |s| && r == s[..|r|]
    ensures AllSpace(s[|r|..])
    ensures r == [] || !IsSpace(r[|r| - 1])
  {
    if s != [] && IsSpace(s[|s| - 1]) then
      var p := s[..|s| - 1];
      var r := StripEnd(p);
      assert s[..|r|] == p[..|r|];
      assert s[|r|..] == p[|r|..] + [s[|s| - 1]];
      r
    else s
  }

  /** `s.strip()`: `s` without its leading and trailing whitespace. The
      result neither starts nor ends with whitespace, and it is empty
      exactly when `s` is all whitespace. */
  function Strip(s: string): (r: string)
    ensures r == [] || (!IsSpace(r[0]) && !IsSpace(r[|r| - 1]))
    ensures r == [] <==> AllSpace(s)
  {
    var t := StripStart(s);
    StripStartEmpty(s);
    var r := StripEnd(t);
    assert r != [] ==> r[0] == t[0];
    assert r == [] ==> t == [];
    r
  }

  /** Only an all-whitespace text is emptied by `lstrip()`. */
  lemma StripStartEmpty(s: string)
    ensures StripStart(s) == [] <==> AllSpace(s)
  {
    var p := StartSplit(s);
    if AllSpace(s) {
      AllSpaceStripsToNothing(s);
    }
    if StripStart(s) == [] {
      assert s == p + StripStart(s) == p;
    }
  }

  lemma {:induction false} AllSpaceStripsToNothing(s: string)
    requires AllSpace(s)
    ensures StripStart(s) == []
  {
    if s != [] {
      AllSpaceStripsToNothing(s[1..]);
    }
  }

  /** `s` is `strip(s)` with whitespace before and after it. */
  lemma StripDecomposition(s: string) returns (p: string, q: string)
    ensures AllSpace(p) && AllSpace(q) && s == p + Strip(s) + q
  {
    StripUnfold(s);
    p := StartSplit(s);
    q := EndSplit(StripStart(s));
  }

  lemma StripUnfold(s: string)
    ensures Strip(s) == StripEnd(StripStart(s))
  {
  }

  lemma {:induction false} StartSplit(s: string) returns (p: string)
    ensures AllSpace(p) && s == p + StripStart(s)
  {
    if s != [] && IsSpace(s[0]) {
      var p' := StartSplit(s[1..]);
      p := [s[0]] + p';
      assert s == [s[0]] + s[1..];
    } else {
      p := [];
    }
  }

  lemma {:induction false} EndSplit(s: string) returns (q: string)
    ensures AllSpace(q) && s == StripEnd(s) + q
    decreases |s|
  {
    if s != [] && IsSpace(s[|s| - 1]) {
      var q' := EndSplit(s[..|s| - 1]);
      q := q' + [s[|s| - 1]];
      assert s == s[..|s| - 1] + [s[|s| - 1]];
    } else {
      q := [];
    }
  }

  lemma {:induction false} StripStartSpaces(p: string, s: string)
    requires AllSpace(p)
    ensures StripStart(p + s) == StripStart(s)
  {
    if p != [] {
      assert (p + s)[0] == p[0];
      assert (p + s)[1..] == p[1..] + s;
      StripStartSpaces(p[1..], s);
    } else {
      assert p + s == s;
    }
  }

  lemma {:induction false} StripStartAppend(s: string, q: string)
    ensures StripStart(s + q) == if StripStart(s) == [] then StripStart(q) else StripStart(s) + q
  {
    if s != [] {
      assert (s + q)[0] == s[0];
      if IsSpace(s[0]) {
        assert (s + q)[1..] == s[1..] + q;
        StripStartAppend(s[1..], q);
      }
    } else {
      assert s + q == q;
    }
  }

  lemma {:induction false} StripEndSpaces(s: string, q: string)
    requires AllSpace(q)
    ensures StripEnd(s + q) == StripEnd(s)
    decreases |q|
  {
    if q != [] {
      var q' := q[..|q| - 1];
      assert (s + q)[..|s + q| - 1] == s + q';
      StripEndSpaces(s, q');
    } else {
      assert s + q == s;
    }
  }

  /** Whitespace around a text does not change what `strip()` gives:
      " Shaw " and "Shaw" normalise to the same name. */
  lemma StripIgnoresPadding(p: string, s: string, q: string)
    requires AllSpace(p) && AllSpace(q)
    ensures Strip(p + s + q) == Strip(s)
  {
    assert p + s + q == p + (s + q);
    StripStartSpaces(p, s + q);
    StripStartAppend(s, q);
    if StripStart(s) == [] {
      AllSpaceStripsToNothing(q);
    } else {
      StripEndSpaces(StripStart(s), q);
    }
  }

  /** Stripping twice is stripping once. */
  lemma StripIdempotent(s: string)
    ensures Strip(Strip(s)) == Strip(s)
  {
    var r := Strip(s);
    assert StripStart(r) == r;
    assert StripEnd(r) == r;
  }

  // ---- The neighbourhood name of the worked example ----

  lemma ShawStripped()
    ensures Strip("Shaw") == "Shaw"
  {
    ShawUnchangedAtStart();
    ShawUnchangedAtEnd();
  }

  lemma PaddedShawStripped()
    ensures Strip(" Shaw ") == "Shaw"
  {
    LeadingSpaceDropped();
    TrailingSpaceDropped();
  }

  lemma ShawUnchangedAtStart()
    ensures StripStart("Shaw") == "Shaw"
  {
  }

  lemma ShawUnchangedAtEnd()
    ensures StripEnd("Shaw") == "Shaw"
  {
  }

  lemma PaddedShawUnchangedAtStart()
    ensures StripStart("Shaw ") == "Shaw "
  {
  }

  lemma LeadingSpaceDropped()
    ensures StripStart(" Shaw ") == "Shaw "
  {
    assert " Shaw "[1..] == "Shaw ";
    PaddedShawUnchangedAtStart();
  }

  lemma TrailingSpaceDropped()
    ensures StripEnd("Shaw ") == "Shaw"
  {
    assert "Shaw "[..4] == "Shaw";
    ShawUnchangedAtEnd();
  }

  // ---- Decimal text of integers (Python's str(int) and f"{n}") ----

  predicate IsDigit(c: char) {
    '0' <= c <= '9'
  }

  predicate AllDigits(s: string) {
    forall i :: 0 <= i < |s| ==> IsDigit(s[i])
  }

  function DigitChar(d: nat): (c: char)
    requires d < 10
    ensures IsDigit(c) && c as int - '0' as int == d
  {
    (d + '0' as int) as char
  }

  /** The decimal digits of `n`, most significant first, with no leading zero. */
  function NatText(n: nat): (s: string)
    ensures |s| >= 1 && AllDigits(s)
    ensures |s| > 1 ==> s[0] != '0'
  {
    if n < 10 then [DigitChar(n)] else NatText(n / 10) + [DigitChar(n % 10)]
  }

  /** Python's `str(i)` for an integer: a minus sign for negatives, then the digits. */
  function IntText(i: int): (s: string)
    ensures s != [] && (s[0] == '-' <==> i < 0)
  {
    if i < 0 then "-" + NatText(-i) else NatText(i)
  }

  /** The value of a string of decimal digits (Python's `int(s)` on digits). */
  function DecimalValue(s: string): nat
    requires AllDigits(s)
  {
    if s == [] then 0 else DecimalValue(s[..|s| - 1]) * 10 + (s[|s| - 1] as int - '0' as int)
  }

  /** Reading back a signed decimal text, as `int(s)` does. */
  function ParseInt(s: string): int
    requires s != []
    requires AllDigits(if s[0] == '-' then s[1..] else s)
  {
    if s[0] == '-' then -(DecimalValue(s[1..]) as int) else DecimalValue(s)
  }

  /** The digits of `n` denote `n`. */
  lemma {:induction false} NatTextValue(n: nat)
    ensures DecimalValue(NatText(n)) == n
  {
    if n >= 10 {
      NatTextValue(n / 10);
      var s := NatText(n);
      assert s[..|s| - 1] == NatText(n / 10);
    }
  }

  /** `int(str(i)) == i`: the decimal rendering loses nothing. */
  lemma IntTextRoundTrip(i: int)
    ensures var s := IntText(i); AllDigits(if s[0] == '-' then s[1..] else s) && ParseInt(s) == i
  {
    if i < 0 {
      NatTextValue(-i);
      assert IntText(i)[1..] == NatText(-i);
    } else {
      NatTextValue(i);
    }
  }

  /** Different numbers render as different texts. */
  lemma IntTextInjective(i: int, j: int)
    requires IntText(i) == IntText(j)
    ensures i == j
  {
    IntTextRoundTrip(i);
    IntTextRoundTrip(j);
  }

  /** A text ending in a space followed by digits splits there in one way
      only. */
  lemma DigitsAfterSpace(h1: string, d1: string, h2: string, d2: string)
    requires h1 != [] && h1[|h1| - 1] == ' ' && h2 != [] && h2[|h2| - 1] == ' '
    requires AllDigits(d1) && AllDigits(d2)
    requires h1 + d1 == h2 + d2
    ensures h1 == h2 && d1 == d2
  {
    if |d1| != |d2| {
      assert false;
    }
    assert h1 == (h1 + d1)[..|h1|] && h2 == (h2 + d2)[..|h2|];
    assert d1 == (h1 + d1)[|h1|..] && d2 == (h2 + d2)[|h2|..];
  }
  // ---- Text written line by line ----

  /** The file contents left by writing the strings of `ss` one after the
      other (successive `file.write` calls). */
  function Concat(ss: seq<string>): string {
    if ss == [] then "" else ss[0] + Concat(ss[1..])
  }

  /** One line as written: it ends in a line break and holds no other. */
  predicate IsLine(s: string) {
    s != [] && s[|s| - 1] == '\n' && '\n' !in s[..|s| - 1]
  }

  /** The position of the first line break in `s`. */
  function FirstBreak(s: string): (i: nat)
    requires '\n' in s
    ensures i < |s| && s[i] == '\n'
  {
    if s[0] == '\n' then 0
    else
      assert s == [s[0]] + s[1..];
      1 + FirstBreak(s[1..])
  }

  /** In a text that starts with a line, the first break ends that line. */
  lemma {:induction false} FirstBreakOfLine(x: string, s: string)
    requires IsLine(x)
    ensures '\n' in x + s && FirstBreak(x + s) == |x| - 1
  {
    assert (x + s)[|x| - 1] == '\n';
    if |x| > 1 {
      var y := x[1..];
      assert y[..|y| - 1] == x[..|x| - 1][1..];
      assert x[0] == x[..|x| - 1][0];
      assert (x + s)[1..] == y + s;
      FirstBreakOfLine(y, s);
    }
  }

  /** Two texts that each start with a line agree on that line. */
  lemma LineSplit(x: string, s: string, y: string, t: string)
    requires IsLine(x) && IsLine(y) && x + s == y + t
    ensures x == y && s == t
  {
    FirstBreakOfLine(x, s);
    FirstBreakOfLine(y, t);
    assert x == (x + s)[..|x|];
    assert y == (y + t)[..|y|];
    assert s == (x + s)[|x|..];
    assert t == (y + t)[|y|..];
  }

  lemma {:induction false} ConcatEmpty(ss: seq<string>)
    requires forall i :: 0 <= i < |ss| ==> IsLine(ss[i])
    ensures Concat(ss) == "" <==> ss == []
  {
    if ss != [] {
      assert |Concat(ss)| >= |ss[0]| > 0;
    }
  }

  /** Lines written one after the other can be told apart again: the file
      determines the sequence of lines. */
  lemma {:induction false} ConcatLinesInjective(a: seq<string>, b: seq<string>)
    requires forall i :: 0 <= i < |a| ==> IsLine(a[i])
    requires forall i :: 0 <= i < |b| ==> IsLine(b[i])
    requires Concat(a) == Concat(b)
    ensures a == b
    decreases |a|
  {
    if a == [] || b == [] {
      ConcatEmpty(a);
      ConcatEmpty(b);
    } else {
      LineSplit(a[0], Concat(a[1..]), b[0], Concat(b[1..]));
      ConcatLinesInjective(a[1..], b[1..]);
      assert a == [a[0]] + a[1..] && b == [b[0]] + b[1..];
    }
  }

  /** Writing a string after the others appends it to the file. */
  lemma {:induction false} ConcatSnoc(ss: seq<string>)
    requires ss != []
    ensures Concat(ss) == Concat(ss[..|ss| - 1]) + ss[|ss| - 1]
  {
    if |ss| > 1 {
      ConcatSnoc(ss[1..]);
      assert ss[1..][..|ss| - 2] == ss[..|ss| - 1][1..];
    } else {
      assert ss[..0] == [];
    }
  }

  /** Writing `first` and then the rest puts `first` in front. */
  lemma ConcatCons(first: string, rest: seq<string>)
    ensures Concat([first] + rest) == first + Concat(rest)
  {
    assert ([first] + rest)[1..] == rest;
  }

  /** A text without breaks, closed by one, is a line. */
  lemma LineOf(body: string)
    requires '\n' !in body
    ensures IsLine(body + "\n")
  {
    assert (body + "\n")[..|body|] == body;
  }
}
