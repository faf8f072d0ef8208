/** Durable byte anchors into canonical text: the search for every occurrence of a quote and
    the re-verification of a stored anchor. */
module Anchors {
  import opened Wrappers
  import opened Utf8

  const PREFIX_LEN := 32

  datatype Anchor = Anchor(
    anchorId: string,
    textArtifactId: string,
    quote: string,
    quoteSha256: string,
    startByte: nat,
    endByte: nat,
    prefix: seq<Byte>,
    suffix: seq<Byte>)

  datatype Artifact = Artifact(textArtifactId: string, canonicalSha256: string)

  datatype AnchorError = EmptyQuote | NotFound | Ambiguous(count: nat) | NoSuchOccurrence

  datatype AnchorResult = Created(anchor: Anchor) | Refused(error: AnchorError)

  // text[a:b] with the bounds clamped as Python clamps them, for a and b not negative.
  function Slice<T>(t: seq<T>, a: nat, b: nat): (s: seq<T>)
    ensures a <= b <= |t| ==> s == t[a..b]
  {
    var hi := if b < |t| then b else |t|;
    if a < hi then t[a..hi] else []
  }

  // ------------------------------------------------------------------ the search

  // Every position from `start` on where q occurs in t, in increasing order.
  ghost function Positions<T>(t: seq<T>, q: seq<T>, start: nat): seq<nat>
    decreases |t| + 1 - start
  {
    if start + |q| > |t| || start > |t| then []
    else (if OccursAt(t, q, start) then [start] else []) + Positions(t, q, start + 1)
  }

  // t.find(q, start): the first position from `start` on, or -1.
  method Find(t: seq<Byte>, q: seq<Byte>, start: nat) returns (idx: int)
    requires q != []
    ensures idx == -1 ==> Positions(t, q, start) == []
    ensures idx != -1 ==> start <= idx && idx + |q| <= |t|
    ensures idx != -1 ==> Positions(t, q, start) == [idx] + Positions(t, q, idx + 1)
  {
    idx := start;
    while idx + |q| <= |t|
      invariant start <= idx
      invariant Positions(t, q, start) == Positions(t, q, idx)
      decreases |t| - idx
    {
      if OccursAt(t, q, idx) {
        return;
      }
      idx := idx + 1;
    }
    idx := -1;
  }

  // The search loop advances one octet past each hit, so overlapping occurrences are found.
  method FindAll(text: seq<Byte>, qb: seq<Byte>) returns (positions: seq<nat>)
    requires qb != []
    ensures positions == Positions(text, qb, 0)
  {
    positions := [];
    var start := 0;
    ghost var all := Positions(text, qb, 0);
    while true
      invariant start <= |text|
      invariant positions + Positions(text, qb, start) == all
      decreases |text| - start
    {
      var idx := Find(text, qb, start);
      if idx == -1 {
        break;
      }
      assert positions + ([idx] + Positions(text, qb, idx + 1)) == (positions + [idx]) + Positions(text, qb, idx + 1);
      positions := positions + [idx];
      start := idx + 1;
    }
  }

  ghost predicate Increasing(s: seq<nat>) {
    forall i, j | 0 <= i < j < |s| :: s[i] < s[j]
  }

  // The list holds exactly the occurrences, each once, in increasing order.
  lemma {:induction false} PositionsExact<T>(t: seq<T>, q: seq<T>, start: nat)
    ensures Increasing(Positions(t, q, start))
    ensures forall p: nat :: p in Positions(t, q, start) <==> start <= p && OccursAt(t, q, p)
    decreases |t| + 1 - start
  {
    var all := Positions(t, q, start);
    if start + |q| > |t| {
      assert all == [];
    } else {
      PositionsExact(t, q, start + 1);
      var rest := Positions(t, q, start + 1);
      assert all == (if OccursAt(t, q, start) then [start] + rest else rest);
      ConsIncreasing(start, rest);
    }
  }

  lemma ConsIncreasing(p: nat, rest: seq<nat>)
    requires Increasing(rest) && forall x | x in rest :: p < x
    ensures Increasing([p] + rest)
  {
    assert forall i | 0 <= i < |rest| :: rest[i] in rest;
  }

  lemma {:induction false} IncreasingUnique(a: seq<nat>, b: seq<nat>)
    requires Increasing(a) && Increasing(b)
    requires forall p :: p in a <==> p in b
    ensures a == b
  {
    assert forall i | 0 <= i < |a| :: a[i] in a && a[i] in b;
    assert forall i | 0 <= i < |b| :: b[i] in b && b[i] in a;
    if a != [] && b != [] {
      assert a[0] in b && b[0] in a;
      assert a[0] == b[0];
      forall p ensures p in a[1..] <==> p in b[1..] {
        assert p in a <==> p == a[0] || p in a[1..];
        assert p in b <==> p == b[0] || p in b[1..];
      }
      IncreasingUnique(a[1..], b[1..]);
    }
  }

  ghost function Offsets(t: string, ps: seq<nat>): (r: seq<nat>)
    requires forall k | 0 <= k < |ps| :: ps[k] <= |t|
    ensures |r| == |ps|
    ensures forall k | 0 <= k < |ps| :: r[k] == ByteOffset(t, ps[k])
  {
    seq(|ps|, k requires 0 <= k < |ps| => ByteOffset(t, ps[k]))
  }

  lemma OffsetsAreOccurrences(t: string, q: string, p: nat)
    requires q != ""
    ensures OccursAt(Encode(t), Encode(q), p)
            <==> exists i: nat :: i <= |t| && OccursAt(t, q, i) && ByteOffset(t, i) == p
  {
    if OccursAt(Encode(t), Encode(q), p) {
      var i := ByteMatchIsCharMatch(t, q, p);
    }
    forall i: nat | i <= |t| && OccursAt(t, q, i) ensures OccursAt(Encode(t), Encode(q), ByteOffset(t, i)) {
      CharMatchIsByteMatch(t, q, i);
    }
  }

  // For UTF-8 text, the octet positions are those of the characters where the quote occurs:
  // the same number, in the same order, one for one.
  lemma BytePositionsAreCharPositions(t: string, q: string)
    requires q != ""
    ensures var chars := Positions(t, q, 0);
      && (forall k | 0 <= k < |chars| :: chars[k] <= |t|)
      && Positions(Encode(t), Encode(q), 0) == Offsets(t, chars)
  {
    var chars, bytes := Positions(t, q, 0), Positions(Encode(t), Encode(q), 0);
    PositionsExact(t, q, 0);
    PositionsExact(Encode(t), Encode(q), 0);
    forall k | 0 <= k < |chars| ensures chars[k] <= |t| {
      assert chars[k] in chars;
    }
    var offsets := Offsets(t, chars);
    forall i, j | 0 <= i < j < |offsets| ensures offsets[i] < offsets[j] {
      OffsetsIncrease(t, chars[i], chars[j]);
    }
    forall p: nat ensures p in offsets <==> p in bytes {
      OffsetsAreOccurrences(t, q, p);
      MemberOffset(t, q, chars, p);
    }
    IncreasingUnique(offsets, bytes);
  }

  lemma MemberOffset(t: string, q: string, chars: seq<nat>, p: nat)
    requires forall k | 0 <= k < |chars| :: chars[k] <= |t|
    requires forall i: nat :: i in chars <==> OccursAt(t, q, i)
    ensures p in Offsets(t, chars)
            <==> exists i: nat :: i <= |t| && OccursAt(t, q, i) && ByteOffset(t, i) == p
  {
    var offsets := Offsets(t, chars);
    if p in offsets {
      var k :| 0 <= k < |offsets| && offsets[k] == p;
      assert chars[k] in chars;
    }
    forall i: nat | i <= |t| && OccursAt(t, q, i) ensures ByteOffset(t, i) in offsets {
      assert i in chars;
      var k :| 0 <= k < |chars| && chars[k] == i;
      assert offsets[k] == ByteOffset(t, i);
    }
  }

  // ------------------------------------------------------------------ creation

  // The index `positions[(occurrence or 1) - 1]` reads: 0 counts as 1, and a negative
  // ordinal counts from the end, as Python indexing does.
  function Chosen(count: nat, occurrence: Option<int>): Option<nat> {
    var ordinal := if occurrence.None? || occurrence.value == 0 then 1 else occurrence.value;
    var i := ordinal - 1;
    if 0 <= i < count then Some(i)
    else if i < 0 && count + i >= 0 then Some(count + i)
    else None
  }

  // Where q occurs in t: before p, after p, and anywhere.
  ghost function Earlier<T(!new)>(t: seq<T>, q: seq<T>, p: nat): set<nat> {
    set i: nat | i < p && OccursAt(t, q, i)
  }

  ghost function Later<T(!new)>(t: seq<T>, q: seq<T>, p: nat): set<nat> {
    set i: nat | p < i <= |t| && OccursAt(t, q, i)
  }

  ghost function Everywhere<T(!new)>(t: seq<T>, q: seq<T>): set<nat> {
    set i: nat | i <= |t| && OccursAt(t, q, i)
  }

  ghost function Elements(s: seq<nat>): set<nat> {
    set p | p in s
  }

  lemma {:induction false} SizeOfIncreasing(s: seq<nat>)
    requires Increasing(s)
    ensures |Elements(s)| == |s|
  {
    if s != [] {
      var init, last := s[..|s| - 1], s[|s| - 1];
      assert s == init + [last];
      SizeOfIncreasing(init);
      assert last !in init;
      assert Elements(s) == Elements(init) + {last};
    }
  }

  // The k-th position has k occurrences before it,
  lemma PositionsEarlier<T(!new)>(t: seq<T>, q: seq<T>, ps: seq<nat>, k: nat)
    requires k < |ps| && ps == Positions(t, q, 0)
    ensures |Earlier(t, q, ps[k])| == k
  {
    PositionsExact(t, q, 0);
    SizeOfIncreasing(ps[..k]);
    forall p: nat ensures p in Earlier(t, q, ps[k]) <==> p in ps[..k] {
      if p in Earlier(t, q, ps[k]) {
        assert p in ps;
        var i :| 0 <= i < |ps| && ps[i] == p;
        assert i < k;
      }
      if p in ps[..k] {
        assert p in ps;
      }
    }
    assert Earlier(t, q, ps[k]) == Elements(ps[..k]);
  }

  // and the others after it.
  lemma PositionsLater<T(!new)>(t: seq<T>, q: seq<T>, ps: seq<nat>, k: nat)
    requires k < |ps| && ps == Positions(t, q, 0)
    ensures |Later(t, q, ps[k])| == |ps| - 1 - k
  {
    PositionsExact(t, q, 0);
    SizeOfIncreasing(ps[k + 1..]);
    forall p: nat ensures p in Later(t, q, ps[k]) <==> p in ps[k + 1..] {
      if p in Later(t, q, ps[k]) {
        assert p in ps;
        var i :| 0 <= i < |ps| && ps[i] == p;
        assert i > k && ps[k + 1..][i - k - 1] == p;
      }
      if p in ps[k + 1..] {
        assert p in ps;
      }
    }
    assert Later(t, q, ps[k]) == Elements(ps[k + 1..]);
  }

  lemma PositionsEverywhere<T(!new)>(t: seq<T>, q: seq<T>, ps: seq<nat>)
    requires ps == Positions(t, q, 0)
    ensures |Everywhere(t, q)| == |ps|
  {
    PositionsExact(t, q, 0);
    SizeOfIncreasing(ps);
    assert Everywhere(t, q) == Elements(ps);
  }

  // Which occurrence an ordinal names, counted in the text: from the front when it is not
  // negative, where no ordinal and 0 count as 1, and otherwise from the back.
  lemma ChosenMeaning(text: seq<Byte>, qb: seq<Byte>, occurrence: Option<int>)
    ensures var ps, count := Positions(text, qb, 0), |Everywhere(text, qb)|;
      var k, c := if occurrence == None || occurrence == Some(0) then 1 else occurrence.value, Chosen(|ps|, occurrence);
      && |ps| == count
      && (c.None? <==> k > count || k < 1 - count)
      && (c.Some? ==> c.value < |ps| && ps[c.value] in Everywhere(text, qb)
                      && (k > 0 ==> |Earlier(text, qb, ps[c.value])| == k - 1)
                      && (k < 0 ==> |Later(text, qb, ps[c.value])| == -k))
  {
    var ps := Positions(text, qb, 0);
    PositionsEverywhere(text, qb, ps);
    var c := Chosen(|ps|, occurrence);
    if c.Some? {
      PositionsEarlier(text, qb, ps, c.value);
      PositionsLater(text, qb, ps, c.value);
      PositionsExact(text, qb, 0);
      assert ps[c.value] in ps;
    }
  }

  // An occurrence is a part of the text that equals the quote.
  lemma OccursInside<T>(a: seq<T>, q: seq<T>, b: seq<T>, t: seq<T>, p: nat)
    ensures OccursAt(a + q + b, q, |a|)
    ensures OccursAt(t, q, p) ==> p + |q| <= |t| && t == t[..p] + q + t[p + |q|..]
  {
    assert (a + q + b)[|a|..|a| + |q|] == q;
  }

  method CreateAnchor(sha: seq<Byte> -> string, text: seq<Byte>, quote: string, anchorId: string,
                      textArtifactId: string, occurrence: Option<int>)
    returns (r: AnchorResult)
    ensures r == Refused(EmptyQuote) <==> quote == ""
    ensures quote != "" ==>
      var positions := Positions(text, Encode(quote), 0);
      var k := Chosen(|positions|, occurrence);
      if positions == [] then r == Refused(NotFound)
      else if |positions| > 1 && occurrence.None? then r == Refused(Ambiguous(|positions|))
      else if k.None? then r == Refused(NoSuchOccurrence)
      else r.Created? && Anchored(sha, text, quote, anchorId, textArtifactId, positions[k.value], r.anchor)
    ensures var qb := Encode(quote);
      var count := |Everywhere(text, qb)|;
      var k := if occurrence == None || occurrence == Some(0) then 1 else occurrence.value;
      && (r == Refused(NotFound) <==> quote != "" && count == 0)
      && (r.Refused? && r.error.Ambiguous? <==> quote != "" && count > 1 && occurrence == None)
      && (r.Refused? && r.error.Ambiguous? ==> r.error.count == count)
      && (r == Refused(NoSuchOccurrence) <==>
            quote != "" && count > 0 && occurrence != None && (k > count || k < 1 - count))
      && (r.Created? ==>
            && r.anchor.startByte in Everywhere(text, qb)
            && (k > 0 ==> |Earlier(text, qb, r.anchor.startByte)| == k - 1)
            && (k < 0 ==> |Later(text, qb, r.anchor.startByte)| == -k))
    ensures r.Created? ==>
      var a, n := r.anchor, |Encode(quote)|;
      && a.anchorId == anchorId && a.textArtifactId == textArtifactId && a.quote == quote
      && a.quoteSha256 == sha(Encode(quote)) && a.endByte == a.startByte + n <= |text|
      && a.prefix == text[if a.startByte < 32 then 0 else a.startByte - 32..a.startByte]
      && a.suffix == text[a.endByte..if |text| < a.endByte + 32 then |text| else a.endByte + 32]
  {
    var qb := Encode(quote);
    ChosenMeaning(text, qb, occurrence);
    if qb == [] {
      return Refused(EmptyQuote);
    }
    assert quote != "";
    var positions := FindAll(text, qb);
    forall p | p in positions ensures OccursAt(text, qb, p) {
      PositionsExact(text, qb, 0);
    }
    if positions == [] {
      return Refused(NotFound);
    }
    if |positions| > 1 && occurrence.None? {
      return Refused(Ambiguous(|positions|));
    }
    var k := Chosen(|positions|, occurrence);
    if k.None? {
      return Refused(NoSuchOccurrence);
    }
    assert positions[k.value] in positions;
    var anchor := AnchorAt(sha, text, quote, anchorId, textArtifactId, positions[k.value]);
    return Created(anchor);
  }

  method AnchorAt(sha: seq<Byte> -> string, text: seq<Byte>, quote: string, anchorId: string,
                  textArtifactId: string, pos: nat)
    returns (anchor: Anchor)
    requires OccursAt(text, Encode(quote), pos)
    ensures Anchored(sha, text, quote, anchorId, textArtifactId, pos, anchor)
  {
    var qb := Encode(quote);
    var end := pos + |qb|;
    anchor := Anchor(anchorId, textArtifactId, quote, sha(qb), pos, end,
                     Slice(text, if pos < PREFIX_LEN then 0 else pos - PREFIX_LEN, pos),
                     Slice(text, end, end + PREFIX_LEN));
  }

  // The position that is anchored; None where the source raises: an empty quote, no occurrence,
  // several of them and none named, or a named one that does not exist.
  ghost function PlaceOf(text: seq<Byte>, quote: string, occurrence: Option<int>): Option<nat> {
    var positions := Positions(text, Encode(quote), 0);
    var k := Chosen(|positions|, occurrence);
    if quote == "" || (|positions| > 1 && occurrence.None?) || k.None? then None else Some(positions[k.value])
  }

  // The anchor alone; None where the source raises.
  method TryAnchor(sha: seq<Byte> -> string, text: seq<Byte>, quote: string, anchorId: string,
                   textArtifactId: string, occurrence: Option<int>)
    returns (anchor: Option<Anchor>)
    ensures anchor.Some? <==> PlaceOf(text, quote, occurrence).Some?
    ensures anchor.Some? ==>
      Anchored(sha, text, quote, anchorId, textArtifactId, PlaceOf(text, quote, occurrence).value, anchor.value)
  {
    var r := CreateAnchor(sha, text, quote, anchorId, textArtifactId, occurrence);
    anchor := if r.Created? then Some(r.anchor) else None;
  }

  // The anchor records the quote, its hash, and the range at pos where the text holds it.
  ghost predicate Anchored(sha: seq<Byte> -> string, text: seq<Byte>, quote: string, anchorId: string,
                           textArtifactId: string, pos: nat, anchor: Anchor)
  {
    && anchor.anchorId == anchorId && anchor.textArtifactId == textArtifactId
    && anchor.quote == quote && anchor.quoteSha256 == sha(Encode(quote))
    && anchor.startByte == pos && anchor.endByte == pos + |Encode(quote)| <= |text|
    && text[anchor.startByte..anchor.endByte] == Encode(quote)
    && anchor.prefix == text[if pos < PREFIX_LEN then 0 else pos - PREFIX_LEN..pos]
    && anchor.suffix <= text[anchor.endByte..]
    && |anchor.suffix| == (if |text| - anchor.endByte < PREFIX_LEN then |text| - anchor.endByte else PREFIX_LEN)
  }

  // ------------------------------------------------------------------ verification

  datatype Failure = OtherArtifact | TextHashMismatch | RangeMismatch | QuoteHashMismatch

  ghost function Failures(sha: seq<Byte> -> string, text: seq<Byte>, textSha256: string, artifact: Artifact,
                          anchor: Anchor): seq<Failure>
  {
    (if anchor.textArtifactId == artifact.textArtifactId then [] else [OtherArtifact])
    + (if artifact.canonicalSha256 == textSha256 then [] else [TextHashMismatch])
    + (if Slice(text, anchor.startByte, anchor.endByte) == Encode(anchor.quote) then [] else [RangeMismatch])
    + (if sha(Encode(anchor.quote)) == anchor.quoteSha256 then [] else [QuoteHashMismatch])
  }

  // The range an anchor names, cut off at the end of the text.
  lemma SliceMeaning<T>(t: seq<T>, a: nat, b: nat)
    ensures a <= b <= |t| ==> Slice(t, a, b) == t[a..b]
    ensures a <= |t| < b ==> Slice(t, a, b) == t[a..]
    ensures a > |t| || a > b ==> Slice(t, a, b) == []
  {
  }

  // Which failures are reported.
  lemma FailuresMeaning(sha: seq<Byte> -> string, text: seq<Byte>, textSha256: string, artifact: Artifact,
                        anchor: Anchor)
    ensures var fails := Failures(sha, text, textSha256, artifact, anchor);
      && (OtherArtifact in fails <==> anchor.textArtifactId != artifact.textArtifactId)
      && (TextHashMismatch in fails <==> artifact.canonicalSha256 != textSha256)
      && (RangeMismatch in fails <==> Slice(text, anchor.startByte, anchor.endByte) != Encode(anchor.quote))
      && (QuoteHashMismatch in fails <==> anchor.quoteSha256 != sha(Encode(anchor.quote)))
  {
  }

  method VerifyAnchor(sha: seq<Byte> -> string, text: seq<Byte>, textSha256: string, artifact: Artifact,
                      anchor: Anchor)
    returns (fails: seq<Failure>)
    ensures fails == Failures(sha, text, textSha256, artifact, anchor)
  {
    fails := [];
    if anchor.textArtifactId != artifact.textArtifactId {
      fails := fails + [OtherArtifact];
    }
    if artifact.canonicalSha256 != textSha256 {
      fails := fails + [TextHashMismatch];
    }
    var span := Slice(text, anchor.startByte, anchor.endByte);
    var qb := Encode(anchor.quote);
    if span != qb {
      fails := fails + [RangeMismatch];
    }
    if sha(qb) != anchor.quoteSha256 {
      fails := fails + [QuoteHashMismatch];
    }
  }

  // Every anchor the search creates re-verifies on the artifact of its text, and keeps
  // verifying on no artifact with another id or another hash.
  lemma CreatedAnchorVerifies(sha: seq<Byte> -> string, text: seq<Byte>, quote: string, anchorId: string,
                              textArtifactId: string, pos: nat, anchor: Anchor, artifact: Artifact)
    requires Anchored(sha, text, quote, anchorId, textArtifactId, pos, anchor)
    ensures Failures(sha, text, sha(text), artifact, anchor) == []
            <==> artifact == Artifact(textArtifactId, sha(text))
  {
  }

  // The quote a verifying non-empty anchor stores is, character for character, a passage of
  // the text: decoding needs no more than the octet range.
  lemma VerifiedAnchorIsPassage(sha: seq<Byte> -> string, t: string, textSha256: string, artifact: Artifact,
                                anchor: Anchor)
    returns (i: nat)
    requires anchor.quote != ""
    requires Failures(sha, Encode(t), textSha256, artifact, anchor) == []
    ensures OccursAt(t, anchor.quote, i) && ByteOffset(t, i) == anchor.startByte
  {
    var text := Encode(t);
    var qb := Encode(anchor.quote);
    assert Slice(text, anchor.startByte, anchor.endByte) == qb != [];
    assert OccursAt(text, qb, anchor.startByte);
    i := ByteMatchIsCharMatch(t, anchor.quote, anchor.startByte);
  }
}
