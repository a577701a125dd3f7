/** UTF-8 as Python's `str.encode('utf-8')` and
    `bytes.decode('utf-8', errors='ignore')` use it. A Dafny `char` is a
    Unicode scalar value, so every string has exactly one encoding. */
module Utf8 {

  type byte = x: int | 0 <= x < 256

  /** Number of bytes UTF-8 uses for `c`. */
  function Width(c: char): (n: nat)
    ensures 1 <= n <= 4
  {
    var v := c as int;
    if v < 0x80 then 1 else if v < 0x800 then 2 else if v < 0x10000 then 3 else 4
  }

  function EncodeChar(c: char): (bs: seq<byte>)
    ensures |bs| == Width(c)
  {
    var v := c as int;
    if v < 0x80 then [v]
    else if v < 0x800 then [0xC0 + v / 64, 0x80 + v % 64]
    else if v < 0x10000 then [0xE0 + v / 4096, 0x80 + (v / 64) % 64, 0x80 + v % 64]
    else [0xF0 + v / 262144, 0x80 + (v / 4096) % 64, 0x80 + (v / 64) % 64, 0x80 + v % 64]
  }

  function Encode(s: string): seq<byte>
    decreases |s|
  {
    if |s| == 0 then [] else EncodeChar(s[0]) + Encode(s[1..])
  }

  /** Sequence length announced by a lead byte; 0 for a byte that cannot
      start a sequence (a continuation byte or an invalid byte). */
  function LeadWidth(b: byte): nat {
    if b < 0x80 then 1
    else if 0xC2 <= b < 0xE0 then 2
    else if 0xE0 <= b < 0xF0 then 3
    else if 0xF0 <= b < 0xF5 then 4
    else 0
  }

  predicate IsContinuation(b: byte) {
    0x80 <= b < 0xC0
  }

  predicate IsScalar(v: int) {
    (0 <= v < 0xD800) || (0xE000 <= v < 0x110000)
  }

  /** The code point spelled by a lead byte and its continuation bytes. */
  function CodePoint(bs: seq<byte>): int
    requires 1 <= |bs| <= 4
  {
    var b: seq<int> := bs;
    if |b| == 1 then b[0]
    else if |b| == 2 then (b[0] - 0xC0) * 64 + (b[1] - 0x80)
    else if |b| == 3 then (b[0] - 0xE0) * 4096 + (b[1] - 0x80) * 64 + (b[2] - 0x80)
    else (b[0] - 0xF0) * 262144 + (b[1] - 0x80) * 4096 + (b[2] - 0x80) * 64 + (b[3] - 0x80)
  }

  /** `bs` is one complete, shortest-form encoding of a scalar value. */
  predicate WellFormedChar(bs: seq<byte>) {
    && 1 <= |bs| <= 4
    && LeadWidth(bs[0]) == |bs|
    && (forall i :: 1 <= i < |bs| ==> IsContinuation(bs[i]))
    && IsScalar(CodePoint(bs))
    && Width(CodePoint(bs) as char) == |bs|
  }

  /** `bytes.decode('utf-8', errors='ignore')`: a complete well-formed
      sequence yields its character; any byte that does not start one is
      dropped and decoding resumes at the next byte. */
  function DecodeIgnore(bs: seq<byte>): string
    decreases |bs|
  {
    if |bs| == 0 then []
    else
      var n := LeadWidth(bs[0]);
      if n == 0 || |bs| < n || !WellFormedChar(bs[..n]) then DecodeIgnore(bs[1..])
      else [CodePoint(bs[..n]) as char] + DecodeIgnore(bs[n..])
  }

  /** Every encoded character is well formed and decodes back to itself. */
  lemma EncodeCharWellFormed(c: char)
    ensures WellFormedChar(EncodeChar(c))
    ensures CodePoint(EncodeChar(c)) == c as int
  {
    var v := c as int;
    if v < 0x80 {
    } else if v < 0x800 {
      EncodeTwoBytes(c);
    } else if v < 0x10000 {
      EncodeThreeBytes(c);
    } else {
      EncodeFourBytes(c);
    }
  }

  lemma EncodeTwoBytes(c: char)
    requires 0x80 <= c as int < 0x800
    ensures WellFormedChar(EncodeChar(c)) && CodePoint(EncodeChar(c)) == c as int
  {
    var v := c as int;
    var bs := EncodeChar(c);
    assert bs[0] - 0xC0 == v / 64 && bs[1] - 0x80 == v % 64;
    assert CodePoint(bs) == (v / 64) * 64 + v % 64 == v;
  }

  lemma EncodeThreeBytes(c: char)
    requires 0x800 <= c as int < 0x10000
    ensures WellFormedChar(EncodeChar(c)) && CodePoint(EncodeChar(c)) == c as int
  {
    var v := c as int;
    var bs := EncodeChar(c);
    assert bs[0] - 0xE0 == v / 4096;
    assert (v / 4096) * 64 + (v / 64) % 64 == v / 64;
    assert CodePoint(bs) == ((v / 4096) * 64 + (v / 64) % 64) * 64 + v % 64;
    assert CodePoint(bs) == (v / 64) * 64 + v % 64 == v;
  }

  lemma EncodeFourBytes(c: char)
    requires 0x10000 <= c as int
    ensures WellFormedChar(EncodeChar(c)) && CodePoint(EncodeChar(c)) == c as int
  {
    var v := c as int;
    var bs := EncodeChar(c);
    assert bs[0] - 0xF0 == v / 262144;
    assert (v / 262144) * 64 + (v / 4096) % 64 == v / 4096;
    assert (v / 4096) * 64 + (v / 64) % 64 == v / 64;
    assert CodePoint(bs) == (((v / 262144) * 64 + (v / 4096) % 64) * 64 + (v / 64) % 64) * 64 + v % 64;
    assert CodePoint(bs) == ((v / 4096) * 64 + (v / 64) % 64) * 64 + v % 64;
    assert CodePoint(bs) == (v / 64) * 64 + v % 64 == v;
  }

  /** Every byte after the first of an encoded character is a continuation byte. */
  lemma EncodeCharTail(c: char, i: int)
    requires 1 <= i < Width(c)
    ensures IsContinuation(EncodeChar(c)[i]) && LeadWidth(EncodeChar(c)[i]) == 0
  {
  }

  lemma DecodeCons(c: char, rest: seq<byte>)
    ensures DecodeIgnore(EncodeChar(c) + rest) == [c] + DecodeIgnore(rest)
  {
    var e := EncodeChar(c);
    var bs := e + rest;
    EncodeCharWellFormed(c);
    assert bs[..|e|] == e;
    assert bs[|e|..] == rest;
  }

  /** Decoding only continuation bytes yields nothing. */
  lemma {:induction false} DecodeContinuations(bs: seq<byte>)
    requires forall i :: 0 <= i < |bs| ==> LeadWidth(bs[i]) == 0
    ensures DecodeIgnore(bs) == []
    decreases |bs|
  {
    if |bs| > 0 {
      DecodeContinuations(bs[1..]);
    }
  }

  /** A character cut short by truncation decodes to nothing: the
      incomplete sequence is ignored. */
  lemma DecodeCutChar(c: char, k: nat)
    requires k < Width(c)
    ensures DecodeIgnore(EncodeChar(c)[..k]) == []
  {
    var p := EncodeChar(c)[..k];
    if k > 0 {
      EncodeCharWellFormed(c);
      assert LeadWidth(p[0]) == Width(c) > |p|;
      forall i | 0 <= i < |p[1..]|
        ensures LeadWidth(p[1..][i]) == 0
      {
        EncodeCharTail(c, i + 1);
      }
      DecodeContinuations(p[1..]);
    }
  }

  lemma {:induction false} EncodeAppend(a: string, b: string)
    ensures Encode(a + b) == Encode(a) + Encode(b)
    decreases |a|
  {
    if |a| > 0 {
      assert (a + b)[0] == a[0];
      assert (a + b)[1..] == a[1..] + b;
      EncodeAppend(a[1..], b);
      assert Encode(a + b) == EncodeChar(a[0]) + Encode(a[1..] + b);
    } else {
      assert a + b == b;
    }
  }
}
