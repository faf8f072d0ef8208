/** The canonical text pipeline: newline and BOM handling, NFC, trailing whitespace, the
    rewrite of newline runs to a fixpoint, and the page map of a PDF. */
module Documents {
  import opened Wrappers
  import opened Strings
  import opened Utf8

  const BOM: char := '\U{FEFF}'

  // ------------------------------------------------------------------ newline characters

  // s.replace("\r\n", "\n")
  function ReplaceCrLf(s: string): string {
    if s == "" then ""
    else if |s| > 1 && s[0] == '\r' && s[1] == '\n' then "\n" + ReplaceCrLf(s[2..])
    else [s[0]] + ReplaceCrLf(s[1..])
  }

  // s.replace("\r", "\n")
  function ReplaceCr(s: string): string {
    if s == "" then "" else [if s[0] == '\r' then '\n' else s[0]] + ReplaceCr(s[1..])
  }

  function UnixNewlines(s: string): string {
    ReplaceCr(ReplaceCrLf(s))
  }

  function DropBom(s: string): string {
    if s != "" && s[0] == BOM then s[1..] else s
  }

  lemma {:induction false} ReplaceCrRemovesAll(s: string)
    ensures '\r' !in ReplaceCr(s)
    ensures '\r' !in s ==> ReplaceCr(s) == s
  {
    if s != "" {
      ReplaceCrRemovesAll(s[1..]);
    }
  }

  lemma {:induction false} ReplaceCrLfIdle(s: string)
    ensures '\r' !in s ==> ReplaceCrLf(s) == s
  {
    if s != "" {
      ReplaceCrLfIdle(s[1..]);
    }
  }

  // ------------------------------------------------------------------ lines

  // s.split("\n")
  function Lines(s: string): (ls: seq<string>)
    ensures |ls| > 0
  {
    if s == "" then [""]
    else if s[0] == '\n' then [""] + Lines(s[1..])
    else
      var r := Lines(s[1..]);
      [[s[0]] + r[0]] + r[1..]
  }

  // s.rstrip()
  function RStrip(s: string): (r: string)
    ensures r <= s
    ensures r == "" || !IsSpace(r[|r| - 1])
  {
    if s == "" || !IsSpace(s[|s| - 1]) then s else RStrip(s[..|s| - 1])
  }

  // Only whitespace is stripped.
  lemma {:induction false} RStripCutsSpace(s: string)
    ensures AllSpace(s[|RStrip(s)|..])
  {
    if s != "" && IsSpace(s[|s| - 1]) {
      RStripCutsSpace(s[..|s| - 1]);
      var n := |RStrip(s)|;
      assert s[n..] == s[..|s| - 1][n..] + [s[|s| - 1]];
    }
  }

  function RStripAll(ls: seq<string>): (rs: seq<string>)
    ensures |rs| == |ls| && forall i | 0 <= i < |ls| :: rs[i] == RStrip(ls[i])
  {
    seq(|ls|, i requires 0 <= i < |ls| => RStrip(ls[i]))
  }

  function TrimLines(s: string): string {
    Join("\n", RStripAll(Lines(s)))
  }

  lemma {:induction false} JoinOfLines(s: string)
    ensures Join("\n", Lines(s)) == s
  {
    if s != "" {
      JoinOfLines(s[1..]);
      var r := Lines(s[1..]);
      if s[0] == '\n' {
        assert Lines(s)[1..] == r;
      } else {
        assert Lines(s)[1..] == r[1..];
      }
    }
  }

  lemma {:induction false} LinesOfConcat(l: string, s: string)
    requires '\n' !in l
    ensures Lines(l + s) == [l + Lines(s)[0]] + Lines(s)[1..]
  {
    if l == "" {
      assert l + s == s;
      assert l + Lines(s)[0] == Lines(s)[0];
    } else {
      LinesOfConcat(l[1..], s);
      var t, r, first, rest := l + s, Lines(l[1..] + s), Lines(s)[0], Lines(s)[1..];
      assert t[0] == l[0] != '\n' && t[1..] == l[1..] + s;
      assert Lines(t) == [[l[0]] + r[0]] + r[1..];
      assert r[0] == l[1..] + first && r[1..] == rest;
      assert [l[0]] + (l[1..] + first) == l + first;
    }
  }

  lemma {:induction false} LinesOfJoin(ls: seq<string>)
    requires |ls| > 0 && forall l | l in ls :: '\n' !in l
    ensures Lines(Join("\n", ls)) == ls
  {
    if |ls| == 1 {
      LinesOfConcat(ls[0], "");
      assert ls[0] + "" == ls[0];
    } else {
      LinesOfJoin(ls[1..]);
      var rest := Join("\n", ls[1..]);
      LinesOfConcat(ls[0], "\n" + rest);
      assert ("\n" + rest)[1..] == rest;
      assert Join("\n", ls) == ls[0] + ("\n" + rest);
      assert ls[0] + "" == ls[0];
    }
  }

  lemma {:induction false} LinesHaveNoNewline(s: string)
    ensures forall l | l in Lines(s) :: '\n' !in l
  {
    if s != "" {
      LinesHaveNoNewline(s[1..]);
    }
  }

  // The lines of the trimmed text are the trimmed lines.
  lemma LinesOfTrimmed(s: string)
    ensures Lines(TrimLines(s)) == RStripAll(Lines(s))
  {
    LinesHaveNoNewline(s);
    forall i | 0 <= i < |Lines(s)| ensures '\n' !in RStrip(Lines(s)[i]) {
      assert Lines(s)[i] in Lines(s);
    }
    LinesOfJoin(RStripAll(Lines(s)));
  }

  lemma {:induction false} LinesSnocNewline(s: string)
    ensures Lines(s + "\n") == Lines(s) + [""]
  {
    if s == "" {
      assert "\n"[1..] == "";
      assert s + "\n" == "\n";
    } else {
      LinesSnocNewline(s[1..]);
      assert (s + "\n")[1..] == s[1..] + "\n";
    }
  }

  // ------------------------------------------------------------------ runs of newlines

  predicate TripleAt(s: string, i: int) {
    0 <= i && i + 2 < |s| && s[i] == '\n' && s[i + 1] == '\n' && s[i + 2] == '\n'
  }

  predicate NoTriple(s: string) {
    forall i {:trigger TripleAt(s, i)} | 0 <= i < |s| :: !TripleAt(s, i)
  }

  // s.replace("\n\n\n", "\n\n"): leftmost occurrences, not overlapping.
  function ReplaceTriples(s: string): string {
    if s == "" then ""
    else if TripleAt(s, 0) then "\n\n" + ReplaceTriples(s[3..])
    else [s[0]] + ReplaceTriples(s[1..])
  }

  function Newlines(n: nat): string {
    seq(n, _ => '\n')
  }

  // The length of the run of newlines s begins with.
  function RunLength(s: string): (n: nat)
    ensures n <= |s| && s[..n] == Newlines(n) && (n < |s| ==> s[n] != '\n')
    ensures s != "" && s[0] == '\n' ==> n > 0
  {
    if s == "" || s[0] != '\n' then 0 else 1 + RunLength(s[1..])
  }

  // The single pass: every maximal run of three or more newlines becomes two, and nothing
  // else changes.
  function ShortenRuns(s: string): string
    decreases |s|
  {
    if s == "" then ""
    else if s[0] == '\n' then
      var n := RunLength(s);
      Newlines(if n > 2 then 2 else n) + ShortenRuns(s[n..])
    else [s[0]] + ShortenRuns(s[1..])
  }

  lemma {:induction false} LeadingRun(s: string)
    ensures RunLength(s) >= 3 <==> TripleAt(s, 0)
    ensures TripleAt(s, 0) ==> RunLength(s[3..]) == RunLength(s) - 3
  {
    if |s| >= 3 {
      assert s[1..][1..] == s[2..] && s[2..][1..] == s[3..];
      assert s[1..][0] == s[1] && s[2..][0] == s[2];
      assert RunLength(s) > 1 ==> RunLength(s[1..]) == 1 + RunLength(s[2..]);
      assert RunLength(s) > 2 ==> RunLength(s[2..]) == 1 + RunLength(s[3..]);
    }
  }

  lemma PrependNewline(r: string)
    ensures RunLength("\n" + r) == 1 + RunLength(r)
    ensures forall k | 0 <= k <= |r| :: ("\n" + r)[k + 1..] == r[k..]
  {
    assert ("\n" + r)[1..] == r;
  }

  // What one replacement leaves of a run of n: two newlines for every three.
  function Rewritten(n: nat): (m: nat)
    ensures n < 3 ==> m == n
    ensures n >= 3 ==> m >= 2
  {
    if n < 3 then n else 2 + Rewritten(n - 3)
  }

  lemma TwoForThree(s: string, n: nat)
    requires TripleAt(s, 0) && n >= 3
    requires RunLength(ReplaceTriples(s[3..])) == Rewritten(n - 3)
    ensures RunLength(ReplaceTriples(s)) == Rewritten(n)
    ensures ReplaceTriples(s)[Rewritten(n)..] == ReplaceTriples(s[3..])[Rewritten(n - 3)..]
  {
    var r := ReplaceTriples(s[3..]);
    assert ReplaceTriples(s) == "\n" + ("\n" + r);
    PrependNewline(r);
    PrependNewline("\n" + r);
  }

  lemma OneForOne(s: string, n: nat)
    requires s != "" && s[0] == '\n' && !TripleAt(s, 0) && 0 < n < 3
    requires RunLength(ReplaceTriples(s[1..])) == Rewritten(n - 1)
    ensures RunLength(ReplaceTriples(s)) == Rewritten(n)
    ensures ReplaceTriples(s)[Rewritten(n)..] == ReplaceTriples(s[1..])[Rewritten(n - 1)..]
  {
    var r := ReplaceTriples(s[1..]);
    assert ReplaceTriples(s) == "\n" + r;
    PrependNewline(r);
  }

  lemma {:induction false} RunAfterReplace(s: string, n: nat)
    requires n == RunLength(s)
    ensures RunLength(ReplaceTriples(s)) == Rewritten(n)
    ensures ReplaceTriples(s)[Rewritten(n)..] == ReplaceTriples(s[n..])
    decreases |s|
  {
    LeadingRun(s);
    if n >= 3 {
      RunAfterReplace(s[3..], n - 3);
      assert s[3..][n - 3..] == s[n..];
      TwoForThree(s, n);
    } else if n > 0 {
      RunAfterReplace(s[1..], n - 1);
      assert s[1..][n - 1..] == s[n..];
      OneForOne(s, n);
    }
  }

  // Replacing inside a run never changes what the single pass makes of it.
  lemma {:induction false} ShortenAbsorbsReplace(s: string)
    ensures ShortenRuns(ReplaceTriples(s)) == ShortenRuns(s)
    decreases |s|
  {
    if s != "" {
      var n, r := RunLength(s), ReplaceTriples(s);
      RunAfterReplace(s, n);
      if s[0] == '\n' {
        ShortenAbsorbsReplace(s[n..]);
        assert r != "" && r[0] == '\n' by {
          assert RunLength(r) > 0;
        }
      } else {
        ShortenAbsorbsReplace(s[1..]);
        assert r[1..] == ReplaceTriples(s[1..]);
      }
    }
  }

  lemma {:induction false} ReplaceShrinks(s: string)
    ensures |ReplaceTriples(s)| <= |s|
    ensures !NoTriple(s) ==> |ReplaceTriples(s)| < |s|
  {
    if s != "" && !TripleAt(s, 0) {
      ReplaceShrinks(s[1..]);
      if !NoTriple(s) {
        var i :| 0 <= i < |s| && TripleAt(s, i);
        assert TripleAt(s[1..], i - 1);
      }
    } else if s != "" {
      ReplaceShrinks(s[3..]);
    }
  }

  lemma {:induction false} ShortenIdle(s: string)
    requires NoTriple(s)
    ensures ShortenRuns(s) == s
    decreases |s|
  {
    if s != "" {
      var n := RunLength(s);
      var k := if s[0] == '\n' then n else 1;
      LeadingRun(s);
      assert !TripleAt(s, 0);
      forall i | 0 <= i < |s[k..]| ensures !TripleAt(s[k..], i) {
        assert !TripleAt(s, i + k);
      }
      ShortenIdle(s[k..]);
      assert s == s[..k] + s[k..];
    }
  }

  // The fixpoint loop computes the single pass.
  method CollapseLoop(text: string) returns (out: string)
    ensures out == ShortenRuns(text)
  {
    out := text;
    while exists i | 0 <= i < |out| :: TripleAt(out, i)
      invariant ShortenRuns(out) == ShortenRuns(text)
      decreases |out|
    {
      ShortenAbsorbsReplace(out);
      ReplaceShrinks(out);
      out := ReplaceTriples(out);
    }
    ShortenIdle(out);
  }

  // ------------------------------------------------------------------ the pipeline

  // s.strip("\n")
  function StripNewlines(s: string): (r: string)
    ensures r == "" || (r[0] != '\n' && r[|r| - 1] != '\n')
    ensures |r| <= |s|
    decreases |s|
  {
    if s == "" then ""
    else if s[0] == '\n' then StripNewlines(s[1..])
    else if s[|s| - 1] == '\n' then StripNewlines(s[..|s| - 1])
    else s
  }

  // Everything after the byte-order mark has been dropped.
  function Finish(nfc: string -> string, s: string): string {
    StripNewlines(ShortenRuns(TrimLines(nfc(s))))
  }

  // The canonical text without its final newline.
  function Body(nfc: string -> string, text: string): string {
    Finish(nfc, DropBom(UnixNewlines(text)))
  }

  function Canonical(nfc: string -> string, text: string): string {
    Body(nfc, text) + "\n"
  }

  // What is assumed of Unicode normalisation form C: it is idempotent, makes no carriage
  // returns, and normal texts stay normal when cut or joined at a newline.
  ghost predicate NfcLaws(nfc: string -> string) {
    && (forall s :: nfc(nfc(s)) == nfc(s))
    && (forall s :: '\r' in nfc(s) ==> '\r' in s)
    && (forall s, i, j | 0 <= i <= j <= |s| && nfc(s) == s :: nfc(s[i..j]) == s[i..j])
    && (forall a, b | nfc(a) == a && nfc(b) == b :: nfc(a + "\n" + b) == a + "\n" + b)
  }

  method CanonicalizeText(nfc: string -> string, source: string) returns (bytes: seq<Byte>)
    ensures bytes == Encode(Canonical(nfc, source))
  {
    var text := ReplaceCr(ReplaceCrLf(source));
    if text != "" && text[0] == BOM {
      text := text[1..];
    }
    text := nfc(text);
    var out := TrimLines(text);
    out := CollapseLoop(out);
    EncodeConcat(StripNewlines(out), "\n");
    bytes := Encode(StripNewlines(out)) + Encode("\n");
  }

  // ------------------------------------------------------------------ what the output is

  // A line the pipeline leaves alone.
  ghost predicate Settled(nfc: string -> string, l: string) {
    RStrip(l) == l && nfc(l) == l && '\r' !in l
  }

  ghost predicate AllSettled(nfc: string -> string, s: string) {
    forall l | l in Lines(s) :: Settled(nfc, l)
  }

  // Lines only of t, the first of them the first.
  ghost predicate Thinned(s: string, t: string) {
    && Lines(s)[0] == Lines(t)[0]
    && forall l | l in Lines(s)[1..] :: l in Lines(t)[1..]
  }

  lemma LinesOfNewline(s: string)
    ensures Lines("\n" + s) == [""] + Lines(s)
  {
    assert ("\n" + s)[1..] == s;
  }

  lemma {:induction false} LinesOfRun(n: nat, s: string)
    ensures Lines(Newlines(n) + s) == seq(n, _ => "") + Lines(s)
  {
    if n == 0 {
      assert Newlines(n) + s == s;
    } else {
      LinesOfRun(n - 1, s);
      assert Newlines(n) + s == "\n" + (Newlines(n - 1) + s);
      LinesOfNewline(Newlines(n - 1) + s);
      assert seq(n, _ => "") == [""] + seq(n - 1, _ => "");
      Associates([""], seq(n - 1, _ => ""), Lines(s));
    }
  }

  // Shortening runs only drops empty lines.
  lemma {:induction false} ShortenThins(s: string)
    ensures Thinned(ShortenRuns(s), s)
    decreases |s|
  {
    if s != "" {
      if s[0] == '\n' {
        var n := RunLength(s);
        var m := if n > 2 then 2 else n;
        assert s == Newlines(n) + s[n..];
        ShortenThins(s[n..]);
        LinesOfRun(n, s[n..]);
        LinesOfRun(m, ShortenRuns(s[n..]));
        var a, b := Lines(ShortenRuns(s[n..])), Lines(s[n..]);
        var ls, lt := Lines(ShortenRuns(s)), Lines(s);
        assert forall l | l in a :: l == a[0] || l in a[1..];
        assert lt[1..] == seq(n - 1, _ => "") + b;
        assert ls[1..] == seq(m - 1, _ => "") + a;
        assert m > 1 ==> lt[1..][0] == "";
        assert forall l | l in b[1..] :: l in b;
        assert b[0] in b;
      } else {
        ShortenThins(s[1..]);
      }
    }
  }

  lemma {:induction false} StripKeepsLines(s: string)
    ensures forall l | l in Lines(StripNewlines(s)) :: l in Lines(s)
    decreases |s|
  {
    if s == "" {
    } else if s[0] == '\n' {
      StripKeepsLines(s[1..]);
    } else if s[|s| - 1] == '\n' {
      StripKeepsLines(s[..|s| - 1]);
      LinesSnocNewline(s[..|s| - 1]);
      assert s == s[..|s| - 1] + "\n";
    }
  }

  lemma ThinnedSettled(nfc: string -> string, s: string, t: string)
    requires Thinned(s, t) && AllSettled(nfc, t)
    ensures AllSettled(nfc, s)
  {
    forall l | l in Lines(s) ensures Settled(nfc, l) {
      assert l == Lines(s)[0] || l in Lines(s)[1..];
      assert Lines(t)[0] in Lines(t);
    }
  }

  lemma {:induction false} LinesNormal(nfc: string -> string, s: string)
    requires NfcLaws(nfc) && nfc(s) == s
    ensures forall l | l in Lines(s) :: nfc(l) == l
  {
    var i := LineEnd(s);
    FirstLine(s);
    assert nfc(s[0..i]) == s[0..i] == s[..i];
    if i < |s| {
      assert s[i + 1..] == s[i + 1..|s|];
      LinesNormal(nfc, s[i + 1..]);
    }
  }

  // The first line ends at the first newline; the others are those of what follows it.
  lemma {:induction false} FirstLine(s: string)
    ensures var i := LineEnd(s);
      Lines(s) == if i == |s| then [s] else [s[..i]] + Lines(s[i + 1..])
  {
    if s != "" && s[0] != '\n' {
      var t := s[1..];
      var j := LineEnd(t);
      FirstLine(t);
      assert [s[0]] + t == s;
      assert [s[0]] + t[..j] == s[..j + 1];
      assert j < |t| ==> t[j + 1..] == s[j + 2..];
    }
  }

  function LineEnd(s: string): (i: nat)
    ensures i <= |s| && '\n' !in s[..i] && (i < |s| ==> s[i] == '\n')
  {
    if s == "" || s[0] == '\n' then 0
    else
      var i := 1 + LineEnd(s[1..]);
      assert s[..i] == [s[0]] + s[1..][..i - 1];
      i
  }

  lemma {:induction false} NormalOfLines(nfc: string -> string, ls: seq<string>)
    requires NfcLaws(nfc) && |ls| > 0 && forall l | l in ls :: nfc(l) == l
    ensures nfc(Join("\n", ls)) == Join("\n", ls)
  {
    if |ls| > 1 {
      NormalOfLines(nfc, ls[1..]);
      assert ls[0] in ls;
    } else {
      assert ls[0] in ls;
    }
  }

  lemma {:induction false} NoCrOfLines(ls: seq<string>)
    requires forall l | l in ls :: '\r' !in l
    ensures '\r' !in Join("\n", ls)
  {
    if |ls| > 1 {
      NoCrOfLines(ls[1..]);
      assert ls[0] in ls;
    } else if |ls| == 1 {
      assert ls[0] in ls;
    }
  }

  lemma {:induction false} NoCrInLines(s: string)
    requires '\r' !in s
    ensures forall l | l in Lines(s) :: '\r' !in l
  {
    if s != "" {
      NoCrInLines(s[1..]);
    }
  }

  // A text of settled lines is normal, has no carriage return and is not changed by trimming.
  lemma SettledText(nfc: string -> string, s: string)
    requires NfcLaws(nfc) && AllSettled(nfc, s)
    ensures nfc(s) == s && '\r' !in s && TrimLines(s) == s
  {
    JoinOfLines(s);
    NormalOfLines(nfc, Lines(s));
    NoCrOfLines(Lines(s));
    forall i | 0 <= i < |Lines(s)| ensures RStrip(Lines(s)[i]) == Lines(s)[i] {
      assert Settled(nfc, Lines(s)[i]);
    }
    assert RStripAll(Lines(s)) == Lines(s);
  }

  lemma TrimmedIsSettled(nfc: string -> string, s: string)
    requires NfcLaws(nfc) && nfc(s) == s && '\r' !in s
    ensures AllSettled(nfc, TrimLines(s))
  {
    LinesOfTrimmed(s);
    LinesNormal(nfc, s);
    NoCrInLines(s);
    forall i | 0 <= i < |Lines(s)| ensures Settled(nfc, RStrip(Lines(s)[i])) {
      var l := Lines(s)[i];
      var r := RStrip(l);
      assert l in Lines(s) && r == l[0..|r|];
    }
  }

  lemma {:induction false} ShortenHasNoTriple(s: string)
    ensures NoTriple(ShortenRuns(s))
    ensures RunLength(ShortenRuns(s)) == (if RunLength(s) > 2 then 2 else RunLength(s))
    decreases |s|
  {
    if s != "" {
      var t := ShortenRuns(s);
      if s[0] == '\n' {
        var n := RunLength(s);
        var m := if n > 2 then 2 else n;
        var r := ShortenRuns(s[n..]);
        ShortenHasNoTriple(s[n..]);
        RunInFront(m, r);
        assert r != "" ==> t[m] == r[0] != '\n';
        forall i | 0 <= i < |t| ensures !TripleAt(t, i) {
          if TripleAt(t, i) && i >= m {
            assert TripleAt(r, i - m);
          }
        }
      } else {
        ShortenHasNoTriple(s[1..]);
        forall i | 0 <= i < |t| ensures !TripleAt(t, i) {
          if TripleAt(t, i) {
            assert TripleAt(t[1..], i - 1);
          }
        }
      }
    }
  }

  lemma {:induction false} RunInFront(m: nat, r: string)
    ensures RunLength(Newlines(m) + r) == m + RunLength(r)
  {
    if m == 0 {
      assert Newlines(m) + r == r;
    } else {
      RunInFront(m - 1, r);
      assert Newlines(m) + r == "\n" + (Newlines(m - 1) + r);
      PrependNewline(Newlines(m - 1) + r);
    }
  }

  lemma {:induction false} StripIsInfix(s: string) returns (i: nat)
    ensures i + |StripNewlines(s)| <= |s| && StripNewlines(s) == s[i..i + |StripNewlines(s)|]
    decreases |s|
  {
    i := 0;
    var n := |StripNewlines(s)|;
    if s != "" && s[0] == '\n' {
      var j := StripIsInfix(s[1..]);
      i := j + 1;
      assert s[1..][j..j + n] == s[i..i + n];
    } else if s != "" && s[|s| - 1] == '\n' {
      i := StripIsInfix(s[..|s| - 1]);
      assert s[..|s| - 1][i..i + n] == s[i..i + n];
    } else {
      assert s[0..|s|] == s;
    }
  }

  lemma InfixHasNoTriple(s: string, i: nat, j: nat)
    requires NoTriple(s) && i <= j <= |s|
    ensures NoTriple(s[i..j])
  {
    forall k | 0 <= k < j - i ensures !TripleAt(s[i..j], k) {
      assert !TripleAt(s, i + k);
    }
  }

  // The body of every canonical text has settled lines and no triple newline.
  lemma BodyIsSettled(nfc: string -> string, text: string)
    requires NfcLaws(nfc)
    ensures AllSettled(nfc, Body(nfc, text)) && NoTriple(Body(nfc, text))
  {
    var u := DropBom(UnixNewlines(text));
    ReplaceCrRemovesAll(ReplaceCrLf(text));
    assert '\r' !in u;
    TrimmedIsSettled(nfc, nfc(u));
    CollapsedIsSettled(nfc, TrimLines(nfc(u)));
  }

  lemma StrippedIsSettled(nfc: string -> string, c: string)
    requires AllSettled(nfc, c)
    ensures AllSettled(nfc, StripNewlines(c))
  {
    StripKeepsLines(c);
  }

  lemma StripHasNoTriple(c: string)
    requires NoTriple(c)
    ensures NoTriple(StripNewlines(c))
  {
    var i := StripIsInfix(c);
    InfixHasNoTriple(c, i, i + |StripNewlines(c)|);
  }

  lemma CollapsedIsSettled(nfc: string -> string, t: string)
    requires AllSettled(nfc, t)
    ensures AllSettled(nfc, StripNewlines(ShortenRuns(t))) && NoTriple(StripNewlines(ShortenRuns(t)))
  {
    var c := ShortenRuns(t);
    ShortenThins(t);
    ThinnedSettled(nfc, c, t);
    StrippedIsSettled(nfc, c);
    ShortenHasNoTriple(t);
    StripHasNoTriple(c);
  }

  // ------------------------------------------------------------------ main results

  // No line of s but the last ends in whitespace; the empty last line ends the text.
  ghost predicate NoTrailingSpace(s: string) {
    forall i | 0 < i < |s| && s[i] == '\n' && s[i - 1] != '\n' :: !IsSpace(s[i - 1])
  }

  ghost predicate EndsClean(s: string) {
    s == "" || s[|s| - 1] == '\n' || !IsSpace(s[|s| - 1])
  }

  lemma TrailOfConcat(l: string, rest: string)
    requires '\n' !in l && EndsClean(l) && NoTrailingSpace(rest) && EndsClean(rest)
    ensures NoTrailingSpace(l + "\n" + rest) && EndsClean(l + "\n" + rest)
  {
    var s, n := l + "\n" + rest, |l| + 1;
    assert forall k | 0 <= k < |l| :: s[k] == l[k] && s[k] in l;
    forall k | 0 < k < |s| && s[k] == '\n' && s[k - 1] != '\n' ensures !IsSpace(s[k - 1]) {
      if k >= n {
        assert rest[k - n] == s[k] && (k > n ==> rest[k - n - 1] == s[k - 1]);
      }
    }
  }

  lemma {:induction false} SettledLinesDoNotTrail(nfc: string -> string, s: string)
    requires AllSettled(nfc, s)
    ensures NoTrailingSpace(s) && EndsClean(s)
    decreases |s|
  {
    var i := LineEnd(s);
    SettledParts(nfc, s, i);
    if i < |s| {
      SettledLinesDoNotTrail(nfc, s[i + 1..]);
      TrailOfConcat(s[..i], s[i + 1..]);
      assert s == s[..i] + "\n" + s[i + 1..];
    } else {
      assert s == s[..i];
      assert forall k | 0 <= k < |s| :: s[k] in s[..i];
    }
  }

  lemma SettledParts(nfc: string -> string, s: string, i: nat)
    requires AllSettled(nfc, s) && i == LineEnd(s)
    ensures EndsClean(s[..i]) && (i < |s| ==> AllSettled(nfc, s[i + 1..]))
  {
    FirstLine(s);
    assert s == s[..|s|];
    assert Lines(s)[0] == s[..i];
    SettledLineEndsClean(nfc, s[..i]);
    if i < |s| {
      assert forall x | x in Lines(s[i + 1..]) :: x in Lines(s);
    }
  }

  lemma SettledLineEndsClean(nfc: string -> string, l: string)
    requires Settled(nfc, l)
    ensures EndsClean(l)
  {
  }

  // Every canonical text ends in exactly one newline and is otherwise free of carriage
  // returns, trailing whitespace, triple newlines and a leading newline.
  lemma CanonicalShape(nfc: string -> string, text: string)
    requires NfcLaws(nfc)
    ensures var out := Canonical(nfc, text);
      && '\r' !in out && NoTrailingSpace(out) && NoTriple(out)
      && out[|out| - 1] == '\n' && (out != "\n" ==> out[0] != '\n' && out[|out| - 2] != '\n')
  {
    var b := Body(nfc, text);
    var out := b + "\n";
    BodyIsSettled(nfc, text);
    SettledText(nfc, b);
    SettledLinesDoNotTrail(nfc, b);
    forall i | 0 < i < |out| && out[i] == '\n' && out[i - 1] != '\n' ensures !IsSpace(out[i - 1]) {
      assert i < |b| ==> b[i] == out[i] && b[i - 1] == out[i - 1];
    }
    NoTripleSnoc(b);
  }

  lemma NoTripleSnoc(b: string)
    requires NoTriple(b) && (b == "" || b[|b| - 1] != '\n')
    ensures NoTriple(b + "\n")
  {
    forall i | 0 <= i < |b + "\n"| ensures !TripleAt(b + "\n", i) {
      assert !TripleAt(b, i);
    }
  }

  lemma {:induction false} StripFinalNewline(u: string)
    ensures StripNewlines(u + "\n") == StripNewlines(u)
    decreases |u|
  {
    if u == "" {
      assert "\n"[1..] == "";
    } else if u[0] == '\n' {
      StripFinalNewline(u[1..]);
      assert (u + "\n")[1..] == u[1..] + "\n";
    } else {
      assert (u + "\n")[..|u|] == u;
    }
  }

  // The pipeline leaves settled text alone, newlines at the ends apart.
  lemma FinishSettled(nfc: string -> string, u: string)
    requires NfcLaws(nfc) && AllSettled(nfc, u) && NoTriple(u) && (u == "" || u[|u| - 1] != '\n')
    ensures Finish(nfc, u + "\n") == StripNewlines(u)
  {
    LinesSnocNewline(u);
    assert nfc(""[0..0]) == "" by {
      SettledText(nfc, u);
      assert u[0..0] == "" == ""[0..0];
    }
    assert Settled(nfc, "");
    assert AllSettled(nfc, u + "\n");
    SettledText(nfc, u + "\n");
    NoTripleSnoc(u);
    ShortenIdle(u + "\n");
    StripFinalNewline(u);
  }

  lemma {:induction false} StripIdle(u: string)
    ensures u == "" || (u[0] != '\n' && u[|u| - 1] != '\n') ==> StripNewlines(u) == u
  {
  }

  // Cutting the first character of settled text leaves settled text.
  lemma TailSettled(nfc: string -> string, b: string)
    requires NfcLaws(nfc) && AllSettled(nfc, b) && b != "" && b[0] != '\n'
    ensures AllSettled(nfc, b[1..])
  {
    var r := Lines(b[1..]);
    var l := [b[0]] + r[0];
    assert Lines(b) == [l] + r[1..];
    assert Settled(nfc, l);
    assert r[0] == l[1..|l|];
    assert r[0] != "" ==> r[0][|r[0]| - 1] == l[|l| - 1];
    assert Settled(nfc, r[0]) by {
      assert RStrip(l) == l;
      assert nfc(l[1..|l|]) == l[1..|l|];
    }
    forall x | x in r ensures Settled(nfc, x) {
      assert x == r[0] || x in r[1..];
      assert x in r[1..] ==> x in Lines(b);
    }
  }

  // What every body has.
  ghost predicate Clean(nfc: string -> string, b: string) {
    AllSettled(nfc, b) && NoTriple(b) && (b != "" ==> b[0] != '\n' && b[|b| - 1] != '\n')
  }

  lemma BodyIsClean(nfc: string -> string, text: string)
    requires NfcLaws(nfc)
    ensures Clean(nfc, Body(nfc, text))
  {
    BodyIsSettled(nfc, text);
  }

  lemma NothingToUnix(nfc: string -> string, b: string)
    requires NfcLaws(nfc) && AllSettled(nfc, b)
    ensures UnixNewlines(b + "\n") == b + "\n"
  {
    SettledText(nfc, b);
    ReplaceCrLfIdle(b + "\n");
    ReplaceCrRemovesAll(b + "\n");
  }

  lemma PassOverMarked(nfc: string -> string, b: string)
    requires NfcLaws(nfc) && Clean(nfc, b) && b != "" && b[0] == BOM
    ensures |Body(nfc, b + "\n")| < |b|
  {
    NothingToUnix(nfc, b);
    assert DropBom(b + "\n") == b[1..] + "\n";
    TailSettled(nfc, b);
    InfixHasNoTriple(b, 1, |b|);
    assert b[1..|b|] == b[1..];
    FinishSettled(nfc, b[1..]);
  }

  lemma PassOverUnmarked(nfc: string -> string, b: string)
    requires NfcLaws(nfc) && Clean(nfc, b) && (b == "" || b[0] != BOM)
    ensures Body(nfc, b + "\n") == b
  {
    NothingToUnix(nfc, b);
    assert DropBom(b + "\n") == b + "\n";
    FinishSettled(nfc, b);
    StripIdle(b);
  }

  // Canonicalising a canonical text again: the same text, unless it begins with U+FEFF, in
  // which case it gets strictly shorter.
  lemma SecondPass(nfc: string -> string, text: string)
    requires NfcLaws(nfc)
    ensures var b := Body(nfc, text);
      if b != "" && b[0] == BOM then |Body(nfc, b + "\n")| < |b| else Body(nfc, b + "\n") == b
  {
    var b := Body(nfc, text);
    BodyIsClean(nfc, text);
    if b != "" && b[0] == BOM {
      PassOverMarked(nfc, b);
    } else {
      PassOverUnmarked(nfc, b);
    }
  }

  // The first line that is not blank begins with the byte-order mark.
  predicate MarkedLine(ls: seq<string>) {
    ls != [] && if RStrip(ls[0]) == "" then MarkedLine(ls[1..]) else ls[0][0] == BOM
  }

  // The guard: after one BOM has been dropped, the first line with content starts with
  // another.
  predicate SecondBom(nfc: string -> string, text: string) {
    MarkedLine(Lines(nfc(DropBom(UnixNewlines(text)))))
  }

  function FirstVisible(s: string): Option<char> {
    if s == "" then None else if s[0] == '\n' then FirstVisible(s[1..]) else Some(s[0])
  }

  lemma {:induction false} FirstVisibleAfterRun(n: nat, s: string)
    ensures FirstVisible(Newlines(n) + s) == FirstVisible(s)
  {
    if n == 0 {
      assert Newlines(n) + s == s;
    } else {
      FirstVisibleAfterRun(n - 1, s);
      assert (Newlines(n) + s)[1..] == Newlines(n - 1) + s;
    }
  }

  lemma {:induction false} FirstVisibleOfShortened(s: string)
    ensures FirstVisible(ShortenRuns(s)) == FirstVisible(s)
    decreases |s|
  {
    if s != "" && s[0] == '\n' {
      var n := RunLength(s);
      FirstVisibleOfShortened(s[n..]);
      FirstVisibleAfterRun(if n > 2 then 2 else n, ShortenRuns(s[n..]));
      FirstVisibleAfterRun(n, s[n..]);
      assert s == Newlines(n) + s[n..];
    }
  }

  lemma {:induction false} FirstVisibleOfStripped(s: string)
    ensures FirstVisible(s) == (if StripNewlines(s) == "" then None else Some(StripNewlines(s)[0]))
    decreases |s|
  {
    if s != "" && s[0] == '\n' {
      FirstVisibleOfStripped(s[1..]);
    } else if s != "" && s[|s| - 1] == '\n' {
      FirstVisibleOfStripped(s[..|s| - 1]);
    }
  }

  lemma {:induction false} FirstVisibleOfLines(ls: seq<string>)
    requires |ls| > 0 && forall l | l in ls :: '\n' !in l
    ensures FirstVisible(Join("\n", RStripAll(ls))) == Some(BOM) <==> MarkedLine(ls)
  {
    var rs := RStripAll(ls);
    var r := RStrip(ls[0]);
    assert ls[0] in ls;
    if |ls| > 1 {
      assert rs[1..] == RStripAll(ls[1..]);
      FirstVisibleOfLines(ls[1..]);
      var rest := Join("\n", rs[1..]);
      assert Join("\n", rs) == r + "\n" + rest;
      assert r == "" ==> (r + "\n" + rest)[1..] == rest;
    }
    if r != "" {
      assert Join("\n", rs)[0] == r[0] == ls[0][0];
    } else {
      assert ls[1..] == [] ==> !MarkedLine(ls);
    }
  }

  // The lines that hold something.
  ghost function NonEmpty(ls: seq<string>): seq<string> {
    if ls == [] then [] else (if ls[0] == "" then [] else [ls[0]]) + NonEmpty(ls[1..])
  }

  lemma {:induction false} NonEmptyConcat(a: seq<string>, b: seq<string>)
    ensures NonEmpty(a + b) == NonEmpty(a) + NonEmpty(b)
  {
    if a == [] {
      assert a + b == b;
    } else {
      NonEmptyConcat(a[1..], b);
      NonEmptyCons(a[0], a[1..]);
      NonEmptyCons(a[0], a[1..] + b);
      assert a == [a[0]] + a[1..] && a + b == [a[0]] + (a[1..] + b);
      Associates(if a[0] == "" then [] else [a[0]], NonEmpty(a[1..]), NonEmpty(b));
    }
  }

  lemma NonEmptyCons(l: string, rest: seq<string>)
    ensures NonEmpty([l] + rest) == (if l == "" then [] else [l]) + NonEmpty(rest)
  {
    assert ([l] + rest)[0] == l && ([l] + rest)[1..] == rest;
  }

  lemma {:induction false} NonEmptyBlanks(n: nat)
    ensures NonEmpty(seq(n, _ => "")) == []
  {
    if n > 0 {
      assert seq(n, _ => "")[1..] == seq(n - 1, _ => "");
      NonEmptyBlanks(n - 1);
    }
  }

  lemma NonEmptyAfterRun(n: nat, s: string)
    requires n > 0
    ensures NonEmpty(Lines(Newlines(n) + s)[1..]) == NonEmpty(Lines(s)) && Lines(Newlines(n) + s)[0] == ""
  {
    LinesOfRun(n, s);
    assert Lines(Newlines(n) + s)[1..] == seq(n - 1, _ => "") + Lines(s);
    NonEmptyConcat(seq(n - 1, _ => ""), Lines(s));
    NonEmptyBlanks(n - 1);
  }

  lemma {:induction false} ShortenKeepsContent(s: string)
    ensures Lines(ShortenRuns(s))[0] == Lines(s)[0]
    ensures NonEmpty(Lines(ShortenRuns(s))[1..]) == NonEmpty(Lines(s)[1..])
    decreases |s|
  {
    if s != "" && s[0] == '\n' {
      var n := RunLength(s);
      ShortenKeepsContent(s[n..]);
      NonEmptyAfterRun(n, s[n..]);
      NonEmptyAfterRun(if n > 2 then 2 else n, ShortenRuns(s[n..]));
      assert s == Newlines(n) + s[n..];
    } else if s != "" {
      ShortenKeepsContent(s[1..]);
    }
  }

  lemma {:induction false} StripKeepsContent(s: string)
    ensures NonEmpty(Lines(StripNewlines(s))) == NonEmpty(Lines(s))
    decreases |s|
  {
    if s != "" && s[0] == '\n' {
      StripKeepsContent(s[1..]);
    } else if s != "" && s[|s| - 1] == '\n' {
      var init := s[..|s| - 1];
      StripKeepsContent(init);
      assert s == init + "\n";
      LinesSnocNewline(init);
      NonEmptyConcat(Lines(init), [""]);
      assert NonEmpty([""]) == [];
    }
  }

  // Canonicalisation loses no content: the lines of the canonical text that hold something
  // are, in order, those of the normalised text, each without its trailing whitespace only.
  lemma ContentIsKept(nfc: string -> string, text: string)
    ensures NonEmpty(Lines(Canonical(nfc, text)))
         == NonEmpty(RStripAll(Lines(nfc(DropBom(UnixNewlines(text))))))
  {
    var u := nfc(DropBom(UnixNewlines(text)));
    var t := TrimLines(u);
    LinesOfTrimmed(u);
    ShortenKeepsContent(t);
    StripKeepsContent(ShortenRuns(t));
    LinesSnocNewline(Body(nfc, text));
    NonEmptyConcat(Lines(Body(nfc, text)), [""]);
  }

  // Canonicalisation is idempotent exactly on the inputs whose content does not start with
  // a second byte-order mark.
  lemma CanonicalIdempotent(nfc: string -> string, text: string, again: string)
    requires NfcLaws(nfc)
    requires Encode(again) == Encode(Canonical(nfc, text))
    ensures Encode(Canonical(nfc, again)) == Encode(Canonical(nfc, text)) <==> !SecondBom(nfc, text)
  {
    EncodeInjective(again, Canonical(nfc, text));
    SecondPass(nfc, text);
    var u := nfc(DropBom(UnixNewlines(text)));
    var t := TrimLines(u);
    LinesHaveNoNewline(u);
    FirstVisibleOfLines(Lines(u));
    FirstVisibleOfShortened(t);
    FirstVisibleOfStripped(ShortenRuns(t));
    if Encode(Canonical(nfc, again)) == Encode(Canonical(nfc, text)) {
      EncodeInjective(Canonical(nfc, again), Canonical(nfc, text));
      assert |Body(nfc, again)| == |Body(nfc, text)|;
    }
  }

  // The shortest such input: two byte-order marks and a letter.  The first pass drops one mark,
  // the second pass the other.
  lemma TwoBomsTakeTwoPasses(nfc: string -> string)
    requires NfcLaws(nfc) && nfc([BOM, 'a']) == [BOM, 'a']
    ensures SecondBom(nfc, [BOM, BOM, 'a'])
    ensures Canonical(nfc, [BOM, BOM, 'a']) == [BOM, 'a', '\n']
    ensures Canonical(nfc, [BOM, 'a', '\n']) == "a\n"
  {
    var text, u := [BOM, BOM, 'a'], [BOM, 'a'];
    ReplaceCrLfIdle(text);
    ReplaceCrRemovesAll(text);
    assert DropBom(UnixNewlines(text)) == u;
    assert Lines("a") == ["a"] by {
      assert "a"[1..] == "" && Lines("") == [""];
      assert ['a'] + "" == "a" && [""][1..] == [];
    }
    assert u[1..] == "a" && u[..|u| - 1] == [BOM];
    assert Lines(u) == [u];
    assert RStripAll([u]) == [u];
    assert TrimLines(u) == u;
    assert "a"[1..] == "" && ShortenRuns("a") == "a";
    assert ShortenRuns(u) == u;
    assert nfc("a") == "a" by {
      assert u[1..2] == "a";
    }
    assert Settled(nfc, "a");
    FinishSettled(nfc, "a");
    var v := [BOM, 'a', '\n'];
    ReplaceCrLfIdle(v);
    ReplaceCrRemovesAll(v);
    assert DropBom(UnixNewlines(v)) == "a" + "\n";
  }

  // ------------------------------------------------------------------ in terms of lines

  // The lines of the canonical text: empty lines go at both ends, and between two others any
  // number of them becomes one.
  ghost function Squeezed(ls: seq<string>): seq<string>
    decreases |ls|
  {
    if ls == [] then [] else if ls[0] == "" then Squeezed(ls[1..]) else [ls[0]] + AfterLine(ls[1..])
  }

  ghost function AfterLine(ls: seq<string>): seq<string>
    decreases |ls|
  {
    if ls == [] then []
    else if ls[0] != "" then [ls[0]] + AfterLine(ls[1..])
    else if Squeezed(ls[1..]) == [] then []
    else [""] + Squeezed(ls[1..])
  }

  ghost predicate IsLine(l: string) {
    '\n' !in l && '\r' !in l
  }

  // s.rstrip("\n")
  ghost function TrimEnd(s: string): string {
    if s != "" && s[|s| - 1] == '\n' then TrimEnd(s[..|s| - 1]) else s
  }

  lemma {:induction false} TrimEndConcat(x: string, y: string)
    requires TrimEnd(y) != "" || x == "" || x[|x| - 1] != '\n'
    ensures TrimEnd(x + y) == x + TrimEnd(y)
    decreases |y|
  {
    if y == "" {
      assert x + y == x;
    } else if y[|y| - 1] == '\n' {
      assert (x + y)[..|x + y| - 1] == x + y[..|y| - 1];
      TrimEndConcat(x, y[..|y| - 1]);
    }
  }

  lemma {:induction false} StripIsTrimEnd(s: string)
    requires s == "" || s[0] != '\n'
    ensures StripNewlines(s) == TrimEnd(s)
    decreases |s|
  {
    if s != "" && s[|s| - 1] == '\n' {
      StripIsTrimEnd(s[..|s| - 1]);
    }
  }

  lemma {:induction false} StripAfterRun(n: nat, s: string)
    ensures StripNewlines(Newlines(n) + s) == StripNewlines(s)
  {
    if n == 0 {
      assert Newlines(n) + s == s;
    } else {
      assert (Newlines(n) + s)[1..] == Newlines(n - 1) + s;
      StripAfterRun(n - 1, s);
    }
  }

  lemma {:induction false} ShortenAfterLine(l: string, rest: string)
    requires '\n' !in l
    ensures ShortenRuns(l + rest) == l + ShortenRuns(rest)
  {
    if l == "" {
      assert l + rest == rest;
    } else {
      assert (l + rest)[1..] == l[1..] + rest;
      ShortenAfterLine(l[1..], rest);
    }
  }

  // What one more newline in front does: up to two are kept.
  lemma ShortenAfterNewline(s: string)
    ensures var n := RunLength(s);
      ShortenRuns("\n" + s) == Newlines(if n > 1 then 2 else n + 1) + ShortenRuns(s[n..])
    ensures ShortenRuns(s) == Newlines(if RunLength(s) > 2 then 2 else RunLength(s)) + ShortenRuns(s[RunLength(s)..])
  {
    PrependNewline(s);
    var n := RunLength(s);
    assert ("\n" + s)[n + 1..] == s[n..];
    if s == "" || s[0] != '\n' {
      assert n == 0 && s[0..] == s && Newlines(0) + ShortenRuns(s) == ShortenRuns(s);
    }
  }

  lemma StripDropsFirstNewline(s: string)
    ensures StripNewlines(ShortenRuns("\n" + s)) == StripNewlines(ShortenRuns(s))
  {
    var n := RunLength(s);
    ShortenAfterNewline(s);
    StripAfterRun(if n > 1 then 2 else n + 1, ShortenRuns(s[n..]));
    StripAfterRun(if n > 2 then 2 else n, ShortenRuns(s[n..]));
  }

  lemma {:induction false} ThreeNewlines(s: string)
    ensures ShortenRuns("\n" + ("\n" + ("\n" + s))) == ShortenRuns("\n" + ("\n" + s))
  {
    var n := RunLength(s);
    var t := "\n" + s;
    PrependNewline(s);
    PrependNewline(t);
    ShortenAfterNewline("\n" + t);
    ShortenAfterNewline(t);
    assert t[n + 1..] == s[n..] && ("\n" + t)[n + 2..] == s[n..];
  }

  lemma ShortenOneNewline(s: string)
    requires s != "" && s[0] != '\n'
    ensures ShortenRuns("\n" + s) == "\n" + ShortenRuns(s)
    ensures ShortenRuns("\n" + ("\n" + s)) == "\n" + ("\n" + ShortenRuns(s))
  {
    PrependNewline(s);
    assert s[0..] == s && ("\n" + s)[1..] == s;
    assert Newlines(1) == "\n";
    ShortenAfterNewline(s);
    ShortenTwoNewlines(s);
  }

  lemma ShortenTwoNewlines(s: string)
    requires RunLength(s) == 0
    ensures ShortenRuns("\n" + ("\n" + s)) == "\n" + ("\n" + ShortenRuns(s))
  {
    var t := "\n" + s;
    PrependNewline(s);
    ShortenAfterNewline(t);
    assert t[1..] == s;
    assert Newlines(2) + ShortenRuns(s) == "\n" + ("\n" + ShortenRuns(s));
  }

  ghost predicate AllLines(ls: seq<string>) {
    forall l | l in ls :: '\n' !in l
  }

  lemma {:induction false} JoinCons(l: string, ls: seq<string>)
    ensures Join("\n", [l] + ls) == if ls == [] then l else l + ("\n" + Join("\n", ls))
  {
    assert ([l] + ls)[1..] == ls;
    assert ls != [] ==> l + "\n" + Join("\n", ls) == l + ("\n" + Join("\n", ls));
  }

  // The text of a line and those after it, shortened and cut at the end.
  lemma TrimAtLine(l: string, rest: string)
    requires l != "" && '\n' !in l
    ensures TrimEnd(ShortenRuns(l + rest)) == l + TrimEnd(ShortenRuns(rest))
  {
    ShortenAfterLine(l, rest);
    assert l[|l| - 1] in l;
    TrimEndConcat(l, ShortenRuns(rest));
  }

  // After a line that is not empty.
  lemma {:induction false} SqueezeAfterLine(ls: seq<string>)
    requires ls != [] && AllLines(ls)
    ensures TrimEnd(ShortenRuns("\n" + Join("\n", ls)))
         == if AfterLine(ls) == [] then "" else "\n" + Join("\n", AfterLine(ls))
    decreases |ls|, 1
  {
    var l, rest := ls[0], ls[1..];
    assert ls == [l] + rest && AllLines(rest);
    JoinCons(l, rest);
    if l != "" {
      SqueezeFromLine(ls);
      JoinCons(l, AfterLine(rest));
      var s := Join("\n", ls);
      assert s[0] == l[0] && l[0] in l;
      ShortenOneNewline(s);
      TrimEndConcat("\n", ShortenRuns(s));
    } else if rest == [] {
      assert "\n" + "" == "\n";
      OnlyNewlines();
    } else {
      SqueezeAfterBlank(rest);
      JoinCons("", Squeezed(rest));
      assert "" + ("\n" + Join("\n", rest)) == "\n" + Join("\n", rest);
      assert "" + ("\n" + Join("\n", Squeezed(rest))) == "\n" + Join("\n", Squeezed(rest));
    }
  }

  lemma TwoNewlines(s: string)
    requires s != "" && s[0] != '\n' && TrimEnd(ShortenRuns(s)) != ""
    ensures TrimEnd(ShortenRuns("\n" + ("\n" + s))) == "\n" + ("\n" + TrimEnd(ShortenRuns(s)))
  {
    var r := ShortenRuns(s);
    ShortenOneNewline(s);
    TrimEndConcat("\n", r);
    TrimEndConcat("\n", "\n" + r);
  }

  lemma OnlyNewlines()
    ensures TrimEnd(ShortenRuns("\n")) == "" && TrimEnd(ShortenRuns("\n" + "\n")) == ""
  {
    ShortenAfterNewline("");
    ShortenAfterNewline("\n");
    PrependNewline("");
    assert "\n" + "" == "\n" && ""[0..] == "" && "\n"[1..] == "";
    assert Newlines(1) + "" == "\n" && Newlines(2) + "" == "\n" + "\n";
    assert "\n"[..0] == "" && ("\n" + "\n")[..1] == "\n";
  }

  // From a line that is not empty on.
  lemma {:induction false} SqueezeFromLine(ls: seq<string>)
    requires ls != [] && ls[0] != "" && AllLines(ls)
    ensures TrimEnd(ShortenRuns(Join("\n", ls))) == Join("\n", [ls[0]] + AfterLine(ls[1..]))
    decreases |ls|, 0
  {
    var l, rest := ls[0], ls[1..];
    assert ls == [l] + rest && AllLines(rest);
    JoinCons(l, rest);
    JoinCons(l, AfterLine(rest));
    if rest == [] {
      TrimAtLine(l, "");
      assert l + "" == l;
    } else {
      TrimAtLine(l, "\n" + Join("\n", rest));
      SqueezeAfterLine(rest);
      assert l + "" == l;
    }
  }

  // After an empty line that follows another line.
  lemma {:induction false} SqueezeAfterBlank(ls: seq<string>)
    requires ls != [] && AllLines(ls)
    ensures TrimEnd(ShortenRuns("\n" + ("\n" + Join("\n", ls))))
         == if Squeezed(ls) == [] then "" else "\n" + ("\n" + Join("\n", Squeezed(ls)))
    decreases |ls|, 1
  {
    var l, rest := ls[0], ls[1..];
    assert ls == [l] + rest && AllLines(rest);
    JoinCons(l, rest);
    if l != "" {
      SqueezeFromLine(ls);
      var s := Join("\n", ls);
      assert s[0] == l[0] && l[0] in l;
      JoinCons(l, AfterLine(rest));
      TwoNewlines(s);
    } else if rest == [] {
      assert "\n" + ("\n" + "") == "\n" + "\n";
      OnlyNewlines();
    } else {
      SqueezeAfterBlank(rest);
      assert "" + ("\n" + Join("\n", rest)) == "\n" + Join("\n", rest);
      ThreeNewlines(Join("\n", rest));
    }
  }

  lemma {:induction false} SqueezeLines(ls: seq<string>)
    requires ls != [] && AllLines(ls)
    ensures StripNewlines(ShortenRuns(Join("\n", ls))) == Join("\n", Squeezed(ls))
  {
    var l, rest := ls[0], ls[1..];
    assert ls == [l] + rest && AllLines(rest);
    JoinCons(l, rest);
    if l != "" {
      SqueezeFromLine(ls);
      var s := ShortenRuns(Join("\n", ls));
      ShortenAfterLine(l, if rest == [] then "" else "\n" + Join("\n", rest));
      assert l + "" == l;
      assert l[0] in l && s[0] == l[0];
      StripIsTrimEnd(s);
    } else if rest != [] {
      SqueezeLines(rest);
      StripDropsFirstNewline(Join("\n", rest));
      assert "" + ("\n" + Join("\n", rest)) == "\n" + Join("\n", rest);
    }
  }

  lemma TrimmedLines(s: string)
    ensures RStripAll(Lines(s)) != [] && AllLines(RStripAll(Lines(s)))
  {
    LinesHaveNoNewline(s);
    forall l | l in RStripAll(Lines(s)) ensures '\n' !in l {
      var i :| 0 <= i < |Lines(s)| && RStripAll(Lines(s))[i] == l;
      assert Lines(s)[i] in Lines(s);
    }
  }

  // The canonical text of any text: the lines of its normal form, without trailing whitespace,
  // squeezed.
  lemma CanonicalIsSqueezed(nfc: string -> string, text: string)
    ensures Canonical(nfc, text)
         == Join("\n", Squeezed(RStripAll(Lines(nfc(DropBom(UnixNewlines(text))))))) + "\n"
  {
    var u := nfc(DropBom(UnixNewlines(text)));
    TrimmedLines(u);
    SqueezeLines(RStripAll(Lines(u)));
  }

  lemma {:induction false} CrLfAfterLine(l: string, rest: string)
    requires IsLine(l)
    ensures ReplaceCrLf(l + rest) == l + ReplaceCrLf(rest)
  {
    if l == "" {
      assert l + rest == rest;
    } else {
      assert (l + rest)[1..] == l[1..] + rest;
      CrLfAfterLine(l[1..], rest);
    }
  }

  lemma {:induction false} CrAfterLine(l: string, rest: string)
    requires IsLine(l)
    ensures ReplaceCr(l + rest) == l + ReplaceCr(rest)
  {
    if l == "" {
      assert l + rest == rest;
    } else {
      assert (l + rest)[1..] == l[1..] + rest;
      CrAfterLine(l[1..], rest);
    }
  }

  // Lines joined by any of the three line breaks become the same text.
  lemma {:induction false} LineBreaksAlike(ls: seq<string>)
    requires forall l | l in ls :: IsLine(l)
    ensures UnixNewlines(Join("\r\n", ls)) == Join("\n", ls)
    ensures UnixNewlines(Join("\r", ls)) == Join("\n", ls)
    ensures UnixNewlines(Join("\n", ls)) == Join("\n", ls)
  {
    NoCrJoined(ls);
    ReplaceCrLfIdle(Join("\n", ls));
    ReplaceCrRemovesAll(Join("\n", ls));
    CrLfJoined(ls);
    CrTextIdle(ls);
    CrJoined(ls);
  }

  lemma {:induction false} NoCrJoined(ls: seq<string>)
    requires forall l | l in ls :: IsLine(l)
    ensures '\r' !in Join("\n", ls)
  {
    NoCrOfLines(ls);
  }

  lemma {:induction false} CrLfJoined(ls: seq<string>)
    requires forall l | l in ls :: IsLine(l)
    ensures ReplaceCrLf(Join("\r\n", ls)) == Join("\n", ls)
  {
    if |ls| == 1 {
      CrLfAfterLine(ls[0], "");
      assert ls[0] + "" == ls[0] && ls[0] in ls;
    } else if |ls| > 1 {
      var rest := Join("\r\n", ls[1..]);
      CrLfJoined(ls[1..]);
      assert ls[0] in ls;
      CrLfFront(ls[0], rest);
    }
  }

  lemma CrLfFront(l: string, rest: string)
    requires IsLine(l)
    ensures ReplaceCrLf(l + "\r\n" + rest) == l + "\n" + ReplaceCrLf(rest)
  {
    CrLfAfterLine(l, "\r\n" + rest);
    assert ("\r\n" + rest)[2..] == rest;
    assert l + "\r\n" + rest == l + ("\r\n" + rest);
  }

  // A carriage return before a line is not followed by a newline.
  lemma {:induction false} CrTextIdle(ls: seq<string>)
    requires forall l | l in ls :: IsLine(l)
    ensures ReplaceCrLf(Join("\r", ls)) == Join("\r", ls)
    ensures Join("\r", ls) == "" || Join("\r", ls)[0] != '\n'
  {
    if |ls| == 1 {
      CrLfAfterLine(ls[0], "");
      assert ls[0] + "" == ls[0] && ls[0] in ls;
    } else if |ls| > 1 {
      CrTextIdle(ls[1..]);
      assert ls[0] in ls;
      CrFrontIdle(ls[0], Join("\r", ls[1..]));
    }
  }

  lemma CrFrontIdle(l: string, rest: string)
    requires IsLine(l) && ReplaceCrLf(rest) == rest && (rest == "" || rest[0] != '\n')
    ensures var s := l + "\r" + rest;
      ReplaceCrLf(s) == s && s[0] != '\n'
  {
    CrLfAfterLine(l, "\r" + rest);
    assert ("\r" + rest)[1..] == rest;
    assert l + "\r" + rest == l + ("\r" + rest);
    assert l != "" ==> l[0] in l;
  }

  lemma {:induction false} CrJoined(ls: seq<string>)
    requires forall l | l in ls :: IsLine(l)
    ensures ReplaceCr(Join("\r", ls)) == Join("\n", ls)
  {
    if |ls| == 1 {
      CrAfterLine(ls[0], "");
      assert ls[0] + "" == ls[0] && ls[0] in ls;
    } else if |ls| > 1 {
      CrJoined(ls[1..]);
      assert ls[0] in ls;
      CrFront(ls[0], Join("\r", ls[1..]));
    }
  }

  lemma CrFront(l: string, rest: string)
    requires IsLine(l)
    ensures ReplaceCr(l + "\r" + rest) == l + "\n" + ReplaceCr(rest)
  {
    CrAfterLine(l, "\r" + rest);
    assert ("\r" + rest)[1..] == rest;
    assert l + "\r" + rest == l + ("\r" + rest);
  }

  // So on the raw text: whichever line break joins the lines, and with a byte-order mark in
  // front or without, the canonical text is the same; and where the normal form changes
  // nothing it is those lines without trailing whitespace, squeezed.
  lemma CanonicalOfLines(nfc: string -> string, ls: seq<string>, sep: string)
    requires sep in {"\r\n", "\r", "\n"} && ls != [] && forall l | l in ls :: IsLine(l)
    requires ls[0] == "" || ls[0][0] != BOM
    ensures Canonical(nfc, Join(sep, ls)) == Canonical(nfc, Join("\n", ls))
    ensures Canonical(nfc, [BOM] + Join(sep, ls)) == Canonical(nfc, Join("\n", ls))
    ensures nfc(Join("\n", ls)) == Join("\n", ls) ==>
              Canonical(nfc, Join(sep, ls)) == Join("\n", Squeezed(RStripAll(ls))) + "\n"
  {
    LineBreaksAlike(ls);
    var t := Join("\n", ls);
    BomInFront(Join(sep, ls));
    assert ([BOM] + t)[1..] == t;
    assert ls[0] != "" ==> t[0] == ls[0][0];
    assert DropBom(t) == t;
    CanonicalIsSqueezed(nfc, Join(sep, ls));
    LinesOfJoin(ls);
  }

  lemma BomInFront(s: string)
    ensures UnixNewlines([BOM] + s) == [BOM] + UnixNewlines(s)
  {
    CrLfAfterLine([BOM], s);
    CrAfterLine([BOM], ReplaceCrLf(s));
  }

  // ------------------------------------------------------------------ the page map

  datatype PageSpan = PageSpan(pageLabel: string, startByte: nat, endByte: nat)

  // not s.strip()
  predicate Blank(s: string) {
    forall c | c in s :: IsSpace(c)
  }

  // The i-th span continues the one before it and cuts out exactly the i-th text.
  ghost predicate SpanFits(texts: seq<seq<Byte>>, bytes: seq<Byte>, spans: seq<PageSpan>, i: nat)
    requires i < |texts| && i < |spans|
  {
    var span := spans[i];
    && span.pageLabel == Decimal(i + 1)
    && span.startByte == (if i == 0 then 0 else spans[i - 1].endByte)
    && span.startByte <= span.endByte <= |bytes|
    && bytes[span.startByte..span.endByte] == texts[i]
  }

  // The spans cut the text into the given pieces, one after the other, and cover it.
  ghost predicate Partitions(texts: seq<seq<Byte>>, bytes: seq<Byte>, spans: seq<PageSpan>) {
    && |spans| == |texts|
    && (forall i {:trigger SpanFits(texts, bytes, spans, i)} | 0 <= i < |texts| :: SpanFits(texts, bytes, spans, i))
    && |bytes| == (if spans == [] then 0 else spans[|spans| - 1].endByte)
  }

  lemma NextPage(texts: seq<seq<Byte>>, bytes: seq<Byte>, spans: seq<PageSpan>, text: seq<Byte>)
    requires Partitions(texts, bytes, spans)
    ensures var span := PageSpan(Decimal(|spans| + 1), |bytes|, |bytes| + |text|);
            Partitions(texts + [text], bytes + text, spans + [span])
  {
    var span := PageSpan(Decimal(|spans| + 1), |bytes|, |bytes| + |text|);
    forall k | 0 <= k <= |texts| ensures SpanFits(texts + [text], bytes + text, spans + [span], k) {
      if k < |texts| {
        assert SpanFits(texts, bytes, spans, k);
        assert (bytes + text)[spans[k].startByte..spans[k].endByte] == bytes[spans[k].startByte..spans[k].endByte];
      } else {
        assert (bytes + text)[|bytes|..|bytes| + |text|] == text;
      }
    }
  }

  ghost function Pieces(canon: string -> seq<Byte>, pages: seq<string>): seq<seq<Byte>> {
    seq(|pages|, i requires 0 <= i < |pages| => canon(pages[i]))
  }

  // The canonical pages joined, with a span for each; None where the source raises because a
  // page has no native text.  `canon` is what CanonicalizeText computes.
  method MapPages(canon: string -> seq<Byte>, pages: seq<string>) returns (result: Option<(seq<Byte>, seq<PageSpan>)>)
    ensures result.None? <==> exists i :: 0 <= i < |pages| && Blank(pages[i])
    ensures result.Some? ==> Partitions(Pieces(canon, pages), result.value.0, result.value.1)
  {
    var bytes: seq<Byte>, spans: seq<PageSpan>, cursor := [], [], 0;
    for i := 0 to |pages|
      invariant forall k | 0 <= k < i :: !Blank(pages[k])
      invariant cursor == |bytes| && |spans| == i
      invariant Partitions(Pieces(canon, pages)[..i], bytes, spans)
    {
      if Blank(pages[i]) {
        return None;
      }
      var text := canon(pages[i]);
      NextPage(Pieces(canon, pages)[..i], bytes, spans, text);
      assert Pieces(canon, pages)[..i + 1] == Pieces(canon, pages)[..i] + [text];
      spans := spans + [PageSpan(Decimal(i + 1), cursor, cursor + |text|)];
      bytes := bytes + text;
      cursor := cursor + |text|;
    }
    assert Pieces(canon, pages)[..|pages|] == Pieces(canon, pages);
    return Some((bytes, spans));
  }

  method PdfToCanonical(nfc: string -> string, pages: seq<string>)
    returns (result: Option<(seq<Byte>, seq<PageSpan>)>)
    ensures result.None? <==> exists i :: 0 <= i < |pages| && Blank(pages[i])
    ensures result.Some? ==>
      Partitions(Pieces(page => Encode(Canonical(nfc, page)), pages), result.value.0, result.value.1)
  {
    result := MapPages(page => Encode(Canonical(nfc, page)), pages);
  }

  // The page map of the joined pages, span by span.
  lemma PartitionsMeaning(canon: string -> seq<Byte>, pages: seq<string>, bytes: seq<Byte>, spans: seq<PageSpan>,
                          i: nat)
    requires Partitions(Pieces(canon, pages), bytes, spans) && i < |pages|
    ensures |spans| == |pages| && |bytes| == spans[|pages| - 1].endByte
    ensures spans[i].pageLabel == Decimal(i + 1)
    ensures spans[i].startByte == (if i == 0 then 0 else spans[i - 1].endByte)
    ensures spans[i].startByte <= spans[i].endByte <= |bytes|
    ensures bytes[spans[i].startByte..spans[i].endByte] == canon(pages[i])
  {
    assert SpanFits(Pieces(canon, pages), bytes, spans, i);
  }

  // A page is blank when stripping leaves nothing of it.
  lemma BlankMeaning(s: string)
    ensures Blank(s) <==> Strip(s) == ""
  {
    var a, b := StripCutsSpace(s);
    if Strip(s) != "" {
      assert s[|a|] == Strip(s)[0];
      assert Strip(s)[0] in s;
    }
  }
}
