/** UTF-8 (section 3 of RFC 3629) as a prefix code on Unicode scalar values, and the fact
    the byte search rests on: bytes match exactly where characters match. */
module Utf8 {

  type Byte = b: int | 0 <= b < 256

  // The encoding of one character: one to four octets.
  function EncodeChar(c: char): (bs: seq<Byte>)
    ensures 1 <= |bs| <= 4
    ensures !IsContinuation(bs[0])
    ensures forall i | 0 < i < |bs| :: IsContinuation(bs[i])
  {
    var n := c as int;
    if n < 0x80 then [n]
    else if n < 0x800 then [0xC0 + n / 64, 0x80 + n % 64]
    else if n < 0x10000 then [0xE0 + n / 4096, 0x80 + n / 64 % 64, 0x80 + n % 64]
    else [0xF0 + n / 262144, 0x80 + n / 4096 % 64, 0x80 + n / 64 % 64, 0x80 + n % 64]
  }

  predicate IsContinuation(b: Byte) {
    0x80 <= b < 0xC0
  }

  // s.encode("utf-8")
  function Encode(s: string): (bs: seq<Byte>)
    ensures |s| <= |bs|
  {
    if s == "" then [] else EncodeChar(s[0]) + Encode(s[1..])
  }

  // q occurs in t at position p.
  predicate OccursAt<T(==)>(t: seq<T>, q: seq<T>, p: int) {
    0 <= p && p + |q| <= |t| && t[p..p + |q|] == q
  }

  // The number of octets the first i characters of s take.
  function ByteOffset(s: string, i: nat): nat
    requires i <= |s|
  {
    |Encode(s[..i])|
  }

  lemma {:induction false} EncodeConcat(a: string, b: string)
    ensures Encode(a + b) == Encode(a) + Encode(b)
  {
    if a == "" {
      assert a + b == b;
    } else {
      assert (a + b)[1..] == a[1..] + b;
      EncodeConcat(a[1..], b);
    }
  }

  // No character's encoding is the beginning of another character's.
  lemma EncodeCharPrefixFree(c: char, d: char, x: seq<Byte>, y: seq<Byte>)
    requires EncodeChar(c) + x == EncodeChar(d) + y
    ensures c == d && x == y
  {
    var ec, ed := EncodeChar(c), EncodeChar(d);
    assert (ec + x)[0] == ec[0] && (ed + y)[0] == ed[0];
    assert |ec| == |ed|;
    assert ec == (ec + x)[..|ec|] == (ed + y)[..|ed|] == ed;
    assert x == (ec + x)[|ec|..] == (ed + y)[|ed|..] == y;
    CodeRecovered(c);
    CodeRecovered(d);
  }

  // The scalar value an encoding carries.
  function CodeOf(bs: seq<Byte>): int {
    var d := seq(|bs|, i requires 0 <= i < |bs| => bs[i] as int);
    if |d| == 1 then d[0]
    else if |d| == 2 then 64 * (d[0] - 0xC0) + (d[1] - 0x80)
    else if |d| == 3 then 4096 * (d[0] - 0xE0) + 64 * (d[1] - 0x80) + (d[2] - 0x80)
    else if |d| == 4 then
      262144 * (d[0] - 0xF0) + 4096 * (d[1] - 0x80) + 64 * (d[2] - 0x80) + (d[3] - 0x80)
    else 0
  }

  // n in digits of base 64.
  lemma Base64Digits(n: nat)
    ensures n == 64 * (n / 64) + n % 64
    ensures n / 64 == 64 * (n / 4096) + n / 64 % 64
    ensures n / 4096 == 64 * (n / 262144) + n / 4096 % 64
  {
  }

  lemma CodeRecovered(c: char)
    ensures CodeOf(EncodeChar(c)) == c as int
  {
    Base64Digits(c as int);
  }

  // The four forms of section 3 of RFC 3629: how long, in which ranges, and which value.
  lemma EncodingForm(c: char)
    ensures var n, bs := c as int, EncodeChar(c);
      && (n <= 0x7F ==> bs == [n])
      && (0x80 <= n <= 0x7FF ==>
            |bs| == 2 && 0xC0 <= bs[0] <= 0xDF && 0x80 <= bs[1] <= 0xBF
            && n == 64 * (bs[0] as int - 0xC0) + (bs[1] as int - 0x80))
      && (0x800 <= n <= 0xFFFF ==>
            |bs| == 3 && 0xE0 <= bs[0] <= 0xEF && 0x80 <= bs[1] <= 0xBF && 0x80 <= bs[2] <= 0xBF
            && n == 4096 * (bs[0] as int - 0xE0) + 64 * (bs[1] as int - 0x80) + (bs[2] as int - 0x80))
      && (0x10000 <= n ==>
            |bs| == 4 && 0xF0 <= bs[0] <= 0xF7 && 0x80 <= bs[1] <= 0xBF && 0x80 <= bs[2] <= 0xBF
            && 0x80 <= bs[3] <= 0xBF
            && n == 262144 * (bs[0] as int - 0xF0) + 4096 * (bs[1] as int - 0x80) + 64 * (bs[2] as int - 0x80)
                    + (bs[3] as int - 0x80))
  {
    Base64Digits(c as int);
  }

  // An encoded text that begins with the encoding of q begins, as text, with q.
  lemma {:induction false} PrefixDecodes(t: string, q: string)
    requires Encode(q) <= Encode(t)
    ensures q <= t
  {
    if q != "" {
      var rest := Encode(t)[|Encode(q)|..];
      assert Encode(t) == Encode(q) + rest;
      assert t != "";
      assert Encode(t) == EncodeChar(q[0]) + (Encode(q[1..]) + rest);
      EncodeCharPrefixFree(t[0], q[0], Encode(t[1..]), Encode(q[1..]) + rest);
      PrefixDecodes(t[1..], q[1..]);
      assert q == [q[0]] + q[1..] && t == [t[0]] + t[1..];
    }
  }

  // Decoding is unambiguous: two texts with the same octets are the same text.
  lemma EncodeInjective(a: string, b: string)
    requires Encode(a) == Encode(b)
    ensures a == b
  {
    PrefixDecodes(a, b);
    PrefixDecodes(b, a);
  }

  // An octet that is not a continuation octet starts a character.
  lemma {:induction false} LeadOctetIsBoundary(t: string, p: nat) returns (i: nat)
    requires p < |Encode(t)| && !IsContinuation(Encode(t)[p])
    ensures i < |t| && ByteOffset(t, i) == p
  {
    var w := |EncodeChar(t[0])|;
    if p == 0 {
      i := 0;
    } else if p < w {
      assert false;
    } else {
      assert Encode(t)[p] == Encode(t[1..])[p - w];
      var j := LeadOctetIsBoundary(t[1..], p - w);
      i := j + 1;
      assert t[..i][1..] == t[1..][..j];
    }
  }

  // Later characters start at later octets, so a character position determines and is
  // determined by its octet position.
  lemma OffsetsIncrease(t: string, i: nat, j: nat)
    requires i < j <= |t|
    ensures ByteOffset(t, i) < ByteOffset(t, j)
  {
    assert t[..j] == t[..i] + t[i..j];
    EncodeConcat(t[..i], t[i..j]);
  }

  // Every character occurrence is an octet occurrence at the corresponding offset.
  lemma CharMatchIsByteMatch(t: string, q: string, i: nat)
    requires OccursAt(t, q, i)
    ensures OccursAt(Encode(t), Encode(q), ByteOffset(t, i))
  {
    var a, b := t[..i], t[i + |q|..];
    assert t == a + (q + b);
    EncodeConcat(a, q + b);
    EncodeConcat(q, b);
  }

  // Every octet occurrence of a non-empty quote is a character occurrence: no match can
  // begin in the middle of a character.
  lemma ByteMatchIsCharMatch(t: string, q: string, p: nat) returns (i: nat)
    requires q != "" && OccursAt(Encode(t), Encode(q), p)
    ensures i < |t| && OccursAt(t, q, i) && ByteOffset(t, i) == p
  {
    assert Encode(t)[p] == Encode(t)[p..p + |Encode(q)|][0] == Encode(q)[0] == EncodeChar(q[0])[0];
    i := LeadOctetIsBoundary(t, p);
    assert t == t[..i] + t[i..];
    EncodeConcat(t[..i], t[i..]);
    assert Encode(t[i..]) == Encode(t)[p..];
    assert Encode(q) <= Encode(t[i..]);
    PrefixDecodes(t[i..], q);
    assert t[i..i + |q|] == t[i..][..|q|];
  }
}
