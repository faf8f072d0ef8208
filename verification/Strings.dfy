/** The string operations of the source language that the modelled code relies on:
    whitespace, `split`, `join`, lexicographic order and decimal printing.  A Dafny
    `char` is a Unicode scalar value, so a `string` is a text without lone surrogates. */
module Strings {

  // The characters for which `str.isspace` is true.
  predicate IsSpace(c: char) {
    var n := c as int;
    || 9 <= n <= 13 || 28 <= n <= 32 || n == 0x85 || n == 0xA0 || n == 0x1680
    || 0x2000 <= n <= 0x200A || n == 0x2028 || n == 0x2029 || n == 0x202F
    || n == 0x205F || n == 0x3000
  }

  // The number of leading characters of s that are not whitespace.
  function WordLength(s: string): (n: nat)
    ensures n <= |s|
    ensures forall i | 0 <= i < n :: !IsSpace(s[i])
    ensures n < |s| ==> IsSpace(s[n])
  {
    if s == "" || IsSpace(s[0]) then 0 else 1 + WordLength(s[1..])
  }

  // s.split()
  function Words(s: string): (ws: seq<string>)
    ensures forall w | w in ws :: w != "" && forall i | 0 <= i < |w| :: !IsSpace(w[i])
    decreases |s|
  {
    if s == "" then []
    else if IsSpace(s[0]) then Words(s[1..])
    else
      var n := WordLength(s);
      [s[..n]] + Words(s[n..])
  }

  // sep.join(parts)
  function Join(sep: string, parts: seq<string>): string {
    if |parts| == 0 then ""
    else if |parts| == 1 then parts[0]
    else parts[0] + sep + Join(sep, parts[1..])
  }

  // Whitespace-collapsed text: " ".join(s.split()).
  function Collapsed(s: string): string {
    Join(" ", Words(s))
  }

  lemma {:induction false} JoinOnlySpaces(parts: seq<string>)
    requires forall w | w in parts :: forall i | 0 <= i < |w| :: !IsSpace(w[i])
    ensures forall i | 0 <= i < |Join(" ", parts)| :: IsSpace(Join(" ", parts)[i]) ==> Join(" ", parts)[i] == ' '
  {
    if |parts| > 1 {
      JoinOnlySpaces(parts[1..]);
    } else if |parts| == 1 {
      assert parts[0] in parts;
    }
  }

  // The only whitespace left after collapsing is the plain space: no newline survives.
  lemma CollapsedHasNoNewline(s: string)
    ensures '\n' !in Collapsed(s)
  {
    JoinOnlySpaces(Words(s));
  }

  // s.replace(" ", "")
  function WithoutSpaces(s: string): string {
    if s == "" then "" else (if s[0] == ' ' then "" else [s[0]]) + WithoutSpaces(s[1..])
  }

  predicate IsWord(w: string) {
    w != "" && forall i | 0 <= i < |w| :: !IsSpace(w[i])
  }

  ghost predicate AllSpace(s: string) {
    forall i | 0 <= i < |s| :: IsSpace(s[i])
  }

  lemma {:induction false} WordsAfterSpace(gap: string, b: string)
    requires AllSpace(gap)
    ensures Words(gap + b) == Words(b)
  {
    if gap == "" {
      assert gap + b == b;
    } else {
      assert (gap + b)[1..] == gap[1..] + b;
      WordsAfterSpace(gap[1..], b);
    }
  }

  // Whitespace separates, however much of it and of whatever kind.
  lemma {:induction false} WordsApart(a: string, gap: string, b: string)
    requires gap != "" && AllSpace(gap)
    ensures Words(a + (gap + b)) == Words(a) + Words(b)
    decreases |a|
  {
    var rest := gap + b;
    WordsAfterSpace(gap, b);
    if a == "" {
      assert a + rest == rest;
    } else if IsSpace(a[0]) {
      assert (a + rest)[1..] == a[1..] + rest;
      WordsApart(a[1..], gap, b);
    } else {
      WordsApart(a[WordLength(a)..], gap, b);
      FirstWordApart(a, rest);
      Associates([a[..WordLength(a)]], Words(a[WordLength(a)..]), Words(b));
    }
  }

  lemma FirstWordApart(a: string, rest: string)
    requires a != "" && !IsSpace(a[0]) && rest != "" && IsSpace(rest[0])
    ensures var n := WordLength(a);
      && n > 0 && Words(a) == [a[..n]] + Words(a[n..])
      && Words(a + rest) == [a[..n]] + Words(a[n..] + rest)
  {
    var n := WordLength(a);
    WordEnds(a, rest);
    FirstWord(a, n);
    FirstWord(a + rest, n);
    CutFront(a, rest, n);
  }

  lemma CutFront(a: string, rest: string, n: nat)
    requires n <= |a|
    ensures (a + rest)[..n] == a[..n] && (a + rest)[n..] == a[n..] + rest
  {
  }

  lemma Associates(a: seq<string>, b: seq<string>, c: seq<string>)
    ensures a + (b + c) == a + b + c
  {
  }

  lemma FirstWord(s: string, n: nat)
    requires s != "" && !IsSpace(s[0]) && n == WordLength(s)
    ensures n > 0 && Words(s) == [s[..n]] + Words(s[n..])
  {
  }

  // The first word of a text is not changed by what follows whitespace.
  lemma {:induction false} WordEnds(a: string, rest: string)
    requires rest != "" && IsSpace(rest[0])
    ensures WordLength(a + rest) == WordLength(a)
  {
    if a == "" {
      assert a + rest == rest;
    } else {
      assert (a + rest)[1..] == a[1..] + rest;
      WordEnds(a[1..], rest);
    }
  }

  lemma {:induction false} OneWord(w: string)
    requires IsWord(w)
    ensures Words(w) == [w]
  {
    FirstWord(w, |w|);
    assert w[..|w|] == w && w[|w|..] == "";
  }

  lemma {:induction false} NoWords(s: string)
    requires AllSpace(s)
    ensures Words(s) == []
  {
    if s != "" {
      NoWords(s[1..]);
    }
  }

  // Splitting undoes joining.
  lemma {:induction false} WordsOfJoin(ws: seq<string>)
    requires forall w | w in ws :: IsWord(w)
    ensures Words(Join(" ", ws)) == ws
  {
    if |ws| == 1 {
      OneWord(ws[0]);
    } else if |ws| > 1 {
      WordsOfJoin(ws[1..]);
      WordInFront(ws[0], Join(" ", ws[1..]));
    }
  }

  lemma WordInFront(w: string, rest: string)
    requires IsWord(w)
    ensures Words(w + " " + rest) == [w] + Words(rest)
  {
    OneWord(w);
    WordsApart(w, " ", rest);
    assert w + " " + rest == w + (" " + rest);
  }

  lemma {:induction false} WordsAreWords(s: string)
    ensures forall w | w in Words(s) :: IsWord(w)
  {
  }

  // Two texts collapse alike exactly when their words agree.
  lemma CollapsedAlike(a: string, b: string)
    ensures Collapsed(a) == Collapsed(b) <==> Words(a) == Words(b)
  {
    WordsAreWords(a);
    WordsAreWords(b);
    WordsOfJoin(Words(a));
    WordsOfJoin(Words(b));
  }

  // The characters that are not whitespace, in order.
  ghost function NonSpace(s: string): string {
    if s == "" then "" else (if IsSpace(s[0]) then "" else [s[0]]) + NonSpace(s[1..])
  }

  lemma {:induction false} NonSpaceConcat(a: string, b: string)
    ensures NonSpace(a + b) == NonSpace(a) + NonSpace(b)
  {
    if a == "" {
      assert a + b == b;
    } else {
      assert (a + b)[1..] == a[1..] + b;
      NonSpaceConcat(a[1..], b);
    }
  }

  lemma {:induction false} NonSpaceWord(w: string)
    requires forall i | 0 <= i < |w| :: !IsSpace(w[i])
    ensures NonSpace(w) == w
  {
    if w != "" {
      NonSpaceWord(w[1..]);
    }
  }

  lemma {:induction false} NoText(s: string)
    requires AllSpace(s)
    ensures NonSpace(s) == ""
  {
    if s != "" {
      NoText(s[1..]);
    }
  }

  lemma {:induction false} JoinKeepsWords(ws: seq<string>)
    requires forall w | w in ws :: IsWord(w)
    ensures NonSpace(Join(" ", ws)) == Join("", ws)
  {
    assert ws != [] ==> ws[0] in ws;
    if |ws| == 1 {
      NonSpaceWord(ws[0]);
    } else if |ws| > 1 {
      NonSpaceWord(ws[0]);
      NonSpaceConcat(ws[0] + " ", Join(" ", ws[1..]));
      NonSpaceConcat(ws[0], " ");
      assert " "[1..] == "" && NonSpace(" ") == "";
      JoinKeepsWords(ws[1..]);
    }
  }

  lemma {:induction false} WordsHoldAll(s: string)
    ensures Join("", Words(s)) == NonSpace(s)
    decreases |s|
  {
    if s != "" && IsSpace(s[0]) {
      WordsHoldAll(s[1..]);
    } else if s != "" {
      var n := WordLength(s);
      FirstWord(s, n);
      WordsHoldAll(s[n..]);
      NonSpaceConcat(s[..n], s[n..]);
      NonSpaceWord(s[..n]);
      assert s == s[..n] + s[n..];
      JoinedFront(s[..n], Words(s[n..]));
    }
  }

  lemma JoinedFront(w: string, ws: seq<string>)
    ensures Join("", [w] + ws) == w + Join("", ws)
  {
    assert ([w] + ws)[1..] == ws;
    assert w + "" == w && w + "" + Join("", ws) == w + Join("", ws);
  }

  // Collapsing keeps every character that is not whitespace, in order.
  lemma CollapsedKeepsText(s: string)
    ensures NonSpace(Collapsed(s)) == NonSpace(s)
  {
    WordsAreWords(s);
    JoinKeepsWords(Words(s));
    WordsHoldAll(s);
  }

  lemma {:induction false} PlainSpacesOnly(s: string)
    requires forall i | 0 <= i < |s| :: IsSpace(s[i]) ==> s[i] == ' '
    ensures WithoutSpaces(s) == NonSpace(s)
  {
    if s != "" {
      PlainSpacesOnly(s[1..]);
    }
  }

  // What is left of a text without its spaces once it is collapsed: all but the whitespace.
  lemma CollapsedWithoutSpaces(s: string)
    ensures WithoutSpaces(Collapsed(s)) == NonSpace(s)
  {
    JoinOnlySpaces(Words(s));
    PlainSpacesOnly(Collapsed(s));
    CollapsedKeepsText(s);
  }

  // Of whitespace, it keeps single plain spaces between words only.
  lemma CollapsedHasPlainSpaces(s: string)
    ensures forall c | c in Collapsed(s) && IsSpace(c) :: c == ' '
  {
    JoinOnlySpaces(Words(s));
  }

  // The whitespace characters, one by one.
  lemma SpaceTable(c: char)
    ensures IsSpace(c) <==> c in {
      '\t', '\n', '\U{0B}', '\U{0C}', '\r', '\U{1C}', '\U{1D}', '\U{1E}', '\U{1F}', ' ', '\U{85}', '\U{A0}',
      '\U{1680}', '\U{2000}', '\U{2001}', '\U{2002}', '\U{2003}', '\U{2004}', '\U{2005}', '\U{2006}', '\U{2007}',
      '\U{2008}', '\U{2009}', '\U{200A}', '\U{2028}', '\U{2029}', '\U{202F}', '\U{205F}', '\U{3000}'}
  {
  }

  // s.strip()
  function Strip(s: string): (r: string)
    ensures r == "" || (!IsSpace(r[0]) && !IsSpace(r[|r| - 1]))
  {
    if s == "" then ""
    else if IsSpace(s[0]) then Strip(s[1..])
    else if IsSpace(s[|s| - 1]) then Strip(s[..|s| - 1])
    else s
  }

  // Only whitespace is stripped, so the words stay.
  lemma {:induction false} StripBounds(s: string) returns (i: nat, j: nat)
    ensures i <= j <= |s| && Strip(s) == s[i..j]
    ensures forall k | 0 <= k < i || j <= k < |s| :: IsSpace(s[k])
  {
    i, j := 0, |s|;
    if s != "" && IsSpace(s[0]) {
      var u := s[1..];
      i, j := StripBounds(u);
      assert u[i..j] == s[i + 1..j + 1];
      assert forall k | 1 <= k < |s| :: s[k] == u[k - 1];
      i, j := i + 1, j + 1;
    } else if s != "" && IsSpace(s[|s| - 1]) {
      var u := s[..|s| - 1];
      i, j := StripBounds(u);
      assert u[i..j] == s[i..j];
      assert forall k | 0 <= k < |u| :: s[k] == u[k];
    } else {
      assert s[0..|s|] == s;
    }
  }

  lemma StripCutsSpace(s: string) returns (a: string, b: string)
    ensures AllSpace(a) && AllSpace(b) && s == a + Strip(s) + b
  {
    var i, j := StripBounds(s);
    a, b := s[..i], s[j..];
  }

  lemma WordsOfStripped(s: string)
    ensures Words(Strip(s)) == Words(s)
  {
    var a, b := StripCutsSpace(s);
    WordsInside(a, Strip(s), b);
  }

  lemma WordsInside(a: string, m: string, b: string)
    requires AllSpace(a) && AllSpace(b)
    ensures Words(a + m + b) == Words(m)
  {
    assert a + m + b == a + (m + b);
    WordsAfterSpace(a, m + b);
    if b == "" {
      assert m + b == m;
    } else {
      WordsApart(m, b, "");
      assert m + (b + "") == m + b;
    }
  }

  // Where the part after the last newline is known to hold none, both parts are determined.
  lemma LastNewlineSplits(a: string, x: string, b: string, y: string)
    requires '\n' !in x && '\n' !in y && a + "\n" + x == b + "\n" + y
    ensures a == b && x == y
  {
    var s, t := a + "\n" + x, b + "\n" + y;
    assert s[|a|] == '\n' && t[|b|] == '\n';
    assert forall k | |a| < k < |s| :: s[k] == x[k - |a| - 1];
    assert forall k | |b| < k < |t| :: t[k] == y[k - |b| - 1];
    assert |a| == |b|;
    assert a == s[..|a|] && b == t[..|b|];
    assert x == s[|a| + 1..] && y == t[|b| + 1..];
  }

  // Likewise for the part before the first newline.
  lemma FirstNewlineSplits(a: string, x: string, b: string, y: string)
    requires '\n' !in a && '\n' !in b && a + "\n" + x == b + "\n" + y
    ensures a == b && x == y
  {
    var s, t := a + "\n" + x, b + "\n" + y;
    assert s[|a|] == '\n' && t[|b|] == '\n';
    assert forall k | 0 <= k < |a| :: s[k] == a[k];
    assert forall k | 0 <= k < |b| :: t[k] == b[k];
    assert |a| == |b|;
    assert a == s[..|a|] && b == t[..|b|];
    assert x == s[|a| + 1..] && y == t[|b| + 1..];
  }

  predicate IsDigit(c: char) {
    '0' <= c <= '9'
  }

  predicate AllDigits(s: string) {
    forall i | 0 <= i < |s| :: IsDigit(s[i])
  }

  // str(n) for a non-negative n.
  function Decimal(n: nat): (s: string)
    ensures |s| > 0 && AllDigits(s)
  {
    if n < 10 then [('0' as int + n) as char]
    else Decimal(n / 10) + [('0' as int + n % 10) as char]
  }

  // int(s) for a string of decimal digits.
  function ParseDecimal(s: string): nat
    requires AllDigits(s)
  {
    if s == "" then 0
    else 10 * ParseDecimal(s[..|s| - 1]) + (s[|s| - 1] as int - '0' as int)
  }

  lemma {:induction false} ParseAfterPrint(n: nat)
    ensures ParseDecimal(Decimal(n)) == n
  {
    if n >= 10 {
      ParseAfterPrint(n / 10);
      assert Decimal(n)[..|Decimal(n)| - 1] == Decimal(n / 10);
    }
  }

  // The last digit of a number stands last in its text, after the text of the others.
  lemma DecimalDigits(n: nat, d: nat)
    requires d < 10
    ensures Decimal(d) == ["0123456789"[d]]
    ensures n > 0 ==> Decimal(10 * n + d) == Decimal(n) + ["0123456789"[d]]
  {
    assert (10 * n + d) / 10 == n && (10 * n + d) % 10 == d;
  }

  // str(i) for any integer.
  function IntText(i: int): string {
    if i < 0 then "-" + Decimal(-i) else Decimal(i)
  }

  lemma IntTextInjective(i: int, j: int)
    requires IntText(i) == IntText(j)
    ensures i == j
  {
    if i < 0 {
      assert IntText(i)[0] == '-';
      assert j < 0;
      assert Decimal(-i) == IntText(i)[1..] == IntText(j)[1..] == Decimal(-j);
      ParseAfterPrint(-i);
      ParseAfterPrint(-j);
    } else {
      assert IsDigit(IntText(i)[0]);
      assert j >= 0;
      ParseAfterPrint(i);
      ParseAfterPrint(j);
    }
  }

  lemma IntTextHasNoNewline(i: int)
    ensures '\n' !in IntText(i)
  {
    assert forall c | c in Decimal(if i < 0 then -i else i) :: IsDigit(c);
  }

  // The order `sorted` uses on strings: by code point, a proper prefix first.
  predicate LexLeq(a: string, b: string) {
    a == "" || (b != "" && (a[0] < b[0] || (a[0] == b[0] && LexLeq(a[1..], b[1..]))))
  }

  lemma {:induction false} LexTotal(a: string, b: string)
    ensures LexLeq(a, b) || LexLeq(b, a)
  {
    if a != "" && b != "" {
      LexTotal(a[1..], b[1..]);
    }
  }

  lemma {:induction false} LexTransitive(a: string, b: string, c: string)
    requires LexLeq(a, b) && LexLeq(b, c)
    ensures LexLeq(a, c)
  {
    if a != "" && a[0] == b[0] && b[0] == c[0] {
      LexTransitive(a[1..], b[1..], c[1..]);
    }
  }

  lemma {:induction false} LexAntisymmetric(a: string, b: string)
    requires LexLeq(a, b) && LexLeq(b, a)
    ensures a == b
  {
    if a != "" && b != "" {
      LexAntisymmetric(a[1..], b[1..]);
      assert a == [a[0]] + a[1..] && b == [b[0]] + b[1..];
    }
  }

  // One text comes before another when it is a beginning of it, or has the smaller code point
  // where they first differ.
  lemma {:induction false} LexMeaning(a: string, b: string)
    ensures LexLeq(a, b) <==> a <= b || exists i :: 0 <= i < |a| && i < |b| && a[i] < b[i] && a[..i] == b[..i]
  {
    if a != "" && b != "" && a[0] == b[0] {
      LexMeaning(a[1..], b[1..]);
      if i :| 0 <= i < |a[1..]| && i < |b[1..]| && a[1..][i] < b[1..][i] && a[1..][..i] == b[1..][..i] {
        assert a[..i + 1] == [a[0]] + a[1..][..i] && b[..i + 1] == [b[0]] + b[1..][..i];
        assert a[i + 1] < b[i + 1] && a[..i + 1] == b[..i + 1];
      }
      if i :| 0 <= i < |a| && i < |b| && a[i] < b[i] && a[..i] == b[..i] {
        assert a[1..][..i - 1] == a[..i][1..] && b[1..][..i - 1] == b[..i][1..];
        assert a[1..][i - 1] < b[1..][i - 1];
      }
      assert a == [a[0]] + a[1..] && b == [b[0]] + b[1..];
    } else if a != "" && b != "" {
      assert a[0] < b[0] ==> a[..0] == b[..0];
      assert forall i | 0 < i < |a| && i < |b| :: a[..i][0] == a[0] && b[..i][0] == b[0];
    }
  }
}
