/** UTF-8 as defined in section 4 of RFC 3629, and backend/middleware_audit.go's truncateUTF8. */
module Utf8 {
  type byte = b: int | 0 <= b < 256
  type bytes = seq<byte>

  lemma Regroup(a: bytes, b: bytes, c: bytes)
    ensures a + (b + c) == a + b + c
  {
  }

  predicate Continuation(b: byte) {
    0x80 <= b < 0xC0
  }

  /** Byte i exists and lies in the range. */
  predicate Between(s: bytes, i: nat, lo: int, hi: int) {
    i < |s| && lo <= s[i] <= hi
  }

  predicate Tail(s: bytes, i: nat) {
    Between(s, i, 0x80, 0xBF)
  }

  /** The length of the well-formed sequence that s begins with, 0 when it begins with none. */
  function SequenceLength(s: bytes): (k: nat)
    ensures k <= |s| && k <= 4
  {
    if s == [] then 0
    else if s[0] < 0x80 then 1
    else if 0xC2 <= s[0] <= 0xDF then if Tail(s, 1) then 2 else 0
    else if s[0] == 0xE0 then if Between(s, 1, 0xA0, 0xBF) && Tail(s, 2) then 3 else 0
    else if s[0] == 0xED then if Between(s, 1, 0x80, 0x9F) && Tail(s, 2) then 3 else 0
    else if 0xE1 <= s[0] <= 0xEF then if Tail(s, 1) && Tail(s, 2) then 3 else 0
    else if s[0] == 0xF0 then if Between(s, 1, 0x90, 0xBF) && Tail(s, 2) && Tail(s, 3) then 4 else 0
    else if 0xF1 <= s[0] <= 0xF3 then if Tail(s, 1) && Tail(s, 2) && Tail(s, 3) then 4 else 0
    else if s[0] == 0xF4 then if Between(s, 1, 0x80, 0x8F) && Tail(s, 2) && Tail(s, 3) then 4 else 0
    else 0
  }

  lemma SequenceFacts(s: bytes)
    ensures var k := SequenceLength(s);
            k > 0 ==> !Continuation(s[0]) && (s[0] >= 0x80 <==> k >= 2) && forall i :: 1 <= i < k ==> Continuation(s[i])
  {
  }

  predicate Valid(s: bytes) {
    s == [] || (SequenceLength(s) > 0 && Valid(s[SequenceLength(s)..]))
  }

  /** What a text begins with does not depend on what follows. */
  lemma SequenceOfPrefix(s: bytes, m: nat)
    requires m <= |s|
    ensures SequenceLength(s[..m]) == if SequenceLength(s) <= m then SequenceLength(s) else 0
  {
  }

  /** In well-formed text a prefix is well-formed exactly when it ends in front of a start byte. */
  lemma {:induction false} PrefixIsValid(s: bytes, m: nat)
    requires Valid(s) && m <= |s|
    ensures Valid(s[..m]) <==> m == |s| || !Continuation(s[m])
  {
    var k := SequenceLength(s);
    SequenceFacts(s);
    SequenceOfPrefix(s, m);
    if m >= k > 0 {
      var rest := s[k..];
      PrefixIsValid(rest, m - k);
      assert s[..m][k..] == rest[..m - k];
      assert m < |s| ==> rest[m - k] == s[m];
    }
  }

  lemma SequenceOfConcat(a: bytes, b: bytes, k: nat)
    requires k == SequenceLength(a) > 0
    ensures SequenceLength(a + b) == k && (a + b)[k..] == a[k..] + b
  {
    var both := a + b;
    assert both[..|a|] == a;
    SequenceOfPrefix(both, |a|);
  }

  lemma {:induction false} ValidConcat(a: bytes, b: bytes)
    requires Valid(a) && Valid(b)
    ensures Valid(a + b)
  {
    if a == [] {
      assert a + b == b;
    } else {
      var k := SequenceLength(a);
      SequenceOfConcat(a, b, k);
      ValidConcat(a[k..], b);
    }
  }

  lemma WholeSequence(e: bytes)
    requires SequenceLength(e) == |e| > 0
    ensures Valid(e)
  {
    assert e[|e|..] == [];
  }

  // ---- Encoding ----

  predicate ScalarValue(cp: int) {
    0 <= cp <= 0x10FFFF && !(0xD800 <= cp <= 0xDFFF)
  }

  /** The continuation byte with the lowest six bits of v. */
  function Trail(v: nat): (b: byte)
    ensures Continuation(b)
  {
    0x80 + v % 64
  }

  /** The forms of three and of four bytes. */
  function EncodeThree(cp: int): (e: bytes)
    requires ScalarValue(cp) && 0x800 <= cp < 0x10000
    ensures SequenceLength(e) == |e| == 3
  {
    [0xE0 + cp / 4096, Trail(cp / 64), Trail(cp)]
  }

  function EncodeFour(cp: int): (e: bytes)
    requires ScalarValue(cp) && 0x10000 <= cp
    ensures SequenceLength(e) == |e| == 4
  {
    [0xF0 + cp / 262144, Trail(cp / 4096), Trail(cp / 64), Trail(cp)]
  }

  function Encode(cp: int): (e: bytes)
    requires ScalarValue(cp)
    ensures Valid(e) && e != []
  {
    var e: bytes :=
      if cp < 0x80 then [cp]
      else if cp < 0x800 then [0xC0 + cp / 64, Trail(cp)]
      else if cp < 0x10000 then EncodeThree(cp)
      else EncodeFour(cp);
    WholeSequence(e);
    e
  }

  /** What a byte says above the lowest value of its kind. */
  function Bits(b: byte, lowest: int): int {
    b as int - lowest
  }

  /** The code point of one sequence: the free bits of its bytes. */
  function CodePoint(e: bytes): (cp: int)
    requires SequenceLength(e) == |e| > 0
  {
    if |e| == 1 then Bits(e[0], 0)
    else if |e| == 2 then 64 * Bits(e[0], 0xC0) + Bits(e[1], 0x80)
    else if |e| == 3 then 4096 * Bits(e[0], 0xE0) + 64 * Bits(e[1], 0x80) + Bits(e[2], 0x80)
    else 262144 * Bits(e[0], 0xF0) + 4096 * Bits(e[1], 0x80) + 64 * Bits(e[2], 0x80) + Bits(e[3], 0x80)
  }

  /** A number in base 64. */
  lemma BaseSixtyFour(cp: nat)
    ensures cp == 64 * (cp / 64) + cp % 64 && cp / 64 == 64 * (cp / 4096) + cp / 64 % 64
    ensures cp / 4096 == 64 * (cp / 262144) + cp / 4096 % 64
  {
  }

  lemma FromBaseSixtyFour(a: nat, b: nat, c: nat, d: nat, cp: nat)
    requires b < 64 && c < 64 && d < 64 && cp == 262144 * a + 4096 * b + 64 * c + d
    ensures cp % 64 == d && cp / 64 == 4096 * a + 64 * b + c && cp / 64 % 64 == c
    ensures cp / 4096 == 64 * a + b && cp / 4096 % 64 == b && cp / 262144 == a
  {
  }

  /** The encoding is one sequence, which gives the code point back. */
  lemma CodePointOfEncoded(cp: int)
    requires ScalarValue(cp)
    ensures SequenceLength(Encode(cp)) == |Encode(cp)| > 0 && CodePoint(Encode(cp)) == cp
  {
    BaseSixtyFour(cp);
  }

  lemma EncodedOfTwo(e: bytes)
    requires SequenceLength(e) == |e| == 2
    ensures ScalarValue(CodePoint(e)) && Encode(CodePoint(e)) == e
  {
    FromBaseSixtyFour(0, 0, Bits(e[0], 0xC0), Bits(e[1], 0x80), CodePoint(e));
  }

  lemma EncodedOfThree(e: bytes)
    requires SequenceLength(e) == |e| == 3
    ensures ScalarValue(CodePoint(e)) && Encode(CodePoint(e)) == e
  {
    FromBaseSixtyFour(0, Bits(e[0], 0xE0), Bits(e[1], 0x80), Bits(e[2], 0x80), CodePoint(e));
    assert EncodeThree(CodePoint(e)) == e;
  }

  lemma EncodedOfFour(e: bytes)
    requires SequenceLength(e) == |e| == 4
    ensures ScalarValue(CodePoint(e)) && Encode(CodePoint(e)) == e
  {
    FromBaseSixtyFour(Bits(e[0], 0xF0), Bits(e[1], 0x80), Bits(e[2], 0x80), Bits(e[3], 0x80), CodePoint(e));
    assert EncodeFour(CodePoint(e)) == e;
  }

  /** Every well-formed sequence is the encoding of its code point, so no others are well-formed. */
  lemma EncodedCodePoint(e: bytes)
    requires SequenceLength(e) == |e| > 0
    ensures ScalarValue(CodePoint(e)) && Encode(CodePoint(e)) == e
  {
    if |e| == 1 {
      assert [e[0]] == e;
    } else if |e| == 2 {
      EncodedOfTwo(e);
    } else if |e| == 3 {
      EncodedOfThree(e);
    } else {
      EncodedOfFour(e);
    }
  }

  // ---- Truncation ----

  /** The last position up to n that is not inside a sequence. */
  function Boundary(s: bytes, n: nat): (m: nat)
    requires n < |s|
    ensures m <= n && (m > 0 ==> !Continuation(s[m]))
    ensures forall i :: m < i <= n ==> Continuation(s[i])
  {
    if n == 0 || !Continuation(s[n]) then n else Boundary(s, n - 1)
  }

  function Truncated(s: bytes, n: nat): bytes {
    if |s| <= n then s else s[..Boundary(s, n)]
  }

  /** For any bytes at all, the cut is in front of the last one up to n that does not have the bits 10 on top. */
  lemma CutIsBeforeStart(s: bytes, n: nat, k: nat)
    requires n < |s| && k <= n
    ensures Truncated(s, n) == s[..k]
            <==> (k > 0 ==> s[k] / 64 != 2) && forall i :: k < i <= n ==> s[i] / 64 == 2
  {
    var m := Boundary(s, n);
    assert |s[..m]| == m && |s[..k]| == k;
    assert m > 0 ==> s[m] / 64 != 2;
    assert forall i :: m < i <= n ==> s[i] / 64 == 2;
    if k > m {
      assert s[k] / 64 == 2;
    }
  }

  /** r is the longest well-formed prefix of s that fits in n bytes. */
  ghost predicate LongestValidPrefix(r: bytes, s: bytes, n: nat) {
    r <= s && |r| <= n && Valid(r) && forall m :: |r| < m <= n && m <= |s| ==> !Valid(s[..m])
  }

  method TruncateUtf8(s: bytes, limit: nat) returns (r: bytes)
    ensures r == Truncated(s, limit)
    ensures r <= s && |r| <= limit
    ensures Valid(s) ==> LongestValidPrefix(r, s, limit)
  {
    if |s| <= limit {
      return s;
    }
    var n := limit;
    while n > 0 && Continuation(s[n])
      invariant 0 <= n <= limit && Boundary(s, n) == Boundary(s, limit)
    {
      n := n - 1;
    }
    r := s[..n];
    if Valid(s) {
      TruncatedIsLongest(s, limit);
    }
  }

  lemma TruncatedIsLongest(s: bytes, n: nat)
    requires Valid(s)
    ensures LongestValidPrefix(Truncated(s, n), s, n)
  {
    if |s| > n {
      var k := Boundary(s, n);
      PrefixIsValid(s, k);
      if k == 0 {
        assert s[..0] == [];
      }
      forall m | k < m <= n ensures !Valid(s[..m]) {
        PrefixIsValid(s, m);
      }
    }
  }
}
