/**
 The UTF-8 encoding of passwords (common/walt/common/crypto/blowfish.py, the encode and decode calls),
 as in section 3 of RFC 3629.
 */
module Utf8 {
  import opened Wrappers

  type Byte = bv8

  // the characters of a Python string
  type CodePoint = c: int | 0 <= c < 0x11_0000

  // surrogates cannot be encoded
  predicate Surrogate(c: CodePoint) {
    0xD800 <= c < 0xE000
  }

  type Scalar = c: CodePoint | !Surrogate(c)

  predicate Encodable(s: seq<CodePoint>) {
    forall k :: 0 <= k < |s| ==> !Surrogate(s[k])
  }

  type Octet = b: int | 0 <= b < 0x100

  function EncodeOne(c: Scalar): (b: seq<Octet>)
    ensures 1 <= |b| <= 4
  {
    if c < 0x80 then [c]
    else if c < 0x800 then [0xC0 + c / 0x40, 0x80 + c % 0x40]
    else if c < 0x1_0000 then [0xE0 + c / 0x1000, 0x80 + c / 0x40 % 0x40, 0x80 + c % 0x40]
    else [0xF0 + c / 0x4_0000, 0x80 + c / 0x1000 % 0x40, 0x80 + c / 0x40 % 0x40, 0x80 + c % 0x40]
  }

  function Encode(s: seq<Scalar>): seq<Octet> {
    if s == [] then [] else EncodeOne(s[0]) + Encode(s[1..])
  }

  predicate Continues(b: Octet) {
    0x80 <= b < 0xC0
  }

  // the number of octets that a first octet announces; 0 for none
  function Announced(b: Octet): nat {
    if b < 0x80 then 1
    else if b < 0xC0 then 0
    else if b < 0xE0 then 2
    else if b < 0xF0 then 3
    else if b < 0xF8 then 4
    else 0
  }

  // the six bits that a further octet holds
  function Low(b: int): int {
    b - 0x80
  }

  /** The number in the first n octets. */
  function Value(b: seq<Octet>, n: nat): int
    requires 1 <= n <= 4 && n <= |b|
  {
    var first: int := b[0];
    if n == 1 then first
    else if n == 2 then (first - 0xC0) * 0x40 + Low(b[1])
    else if n == 3 then (first - 0xE0) * 0x1000 + Low(b[1]) * 0x40 + Low(b[2])
    else (first - 0xF0) * 0x4_0000 + Low(b[1]) * 0x1000 + Low(b[2]) * 0x40 + Low(b[3])
  }

  // the smallest number that needs n octets
  function Smallest(n: nat): int {
    if n <= 1 then 0 else if n == 2 then 0x80 else if n == 3 then 0x800 else 0x1_0000
  }

  /** The first n octets are the encoding of one code point, and not a longer one than needed. */
  predicate WellFormed(b: seq<Octet>, n: nat) {
    && 1 <= n <= 4 && n <= |b|
    && (forall k :: 1 <= k < n ==> Continues(b[k]))
    && Smallest(n) <= Value(b, n) < 0x11_0000 && !(0xD800 <= Value(b, n) < 0xE000)
  }

  /** Python's strict decoding; None for an error. */
  function Decode(b: seq<Octet>): Option<seq<Scalar>>
    decreases |b|
  {
    if b == [] then Some([])
    else
      var n := Announced(b[0]);
      if !WellFormed(b, n) then None
      else
        var c: Scalar := Value(b, n);
        var rest := Decode(b[n..]);
        if rest.None? then None else Some([c] + rest.value)
  }

  lemma ValueOfOne(c: Scalar, b: seq<Octet>)
    requires EncodeOne(c) <= b
    ensures Value(b, |EncodeOne(c)|) == c && Announced(b[0]) == |EncodeOne(c)|
  {
    var e := EncodeOne(c);
    assert forall k :: 0 <= k < |e| ==> b[k] == e[k];
    Digits(c);
  }

  lemma OneIsWellFormed(c: Scalar, tail: seq<Octet>)
    ensures var b := EncodeOne(c) + tail; var n := |EncodeOne(c)|;
            Announced(b[0]) == n && WellFormed(b, n) && Value(b, n) == c
  {
    var e := EncodeOne(c);
    var b := e + tail;
    assert forall k :: 0 <= k < |e| ==> b[k] == e[k];
    ValueOfOne(c, b);
    assert !Surrogate(c);
    hide Value;
  }

  // base-64 digits
  lemma Digits(c: nat)
    ensures c == c / 0x40 * 0x40 + c % 0x40
    ensures c / 0x40 == c / 0x1000 * 0x40 + c / 0x40 % 0x40
    ensures c / 0x1000 == c / 0x4_0000 * 0x40 + c / 0x1000 % 0x40
  {
  }

  /** Strict decoding gives every encoded text back. */
  lemma {:induction false} DecodeEncode(s: seq<Scalar>)
    ensures Decode(Encode(s)) == Some(s)
  {
    if s != [] {
      hide EncodeOne, Announced, WellFormed, Value;
      var e, tail := EncodeOne(s[0]), Encode(s[1..]);
      OneIsWellFormed(s[0], tail);
      DecodeEncode(s[1..]);
      assert (e + tail)[|e|..] == tail;
      assert s == [s[0]] + s[1..];
    }
  }

  // ---------- as bytes ----------

  function Bytes(s: seq<Octet>): (b: seq<Byte>)
    ensures |b| == |s|
  {
    seq(|s|, k requires 0 <= k < |s| => s[k] as bv8)
  }

  function Octets(b: seq<Byte>): (s: seq<Octet>)
    ensures |s| == |b|
  {
    seq(|b|, k requires 0 <= k < |b| => b[k] as int)
  }

  lemma OctetsOfBytes(s: seq<Octet>)
    ensures Octets(Bytes(s)) == s
  {
    forall k | 0 <= k < |s|
      ensures Octets(Bytes(s))[k] == s[k]
    {
      OctetOfByte(s[k]);
    }
  }

  lemma OctetOfByte(b: Octet)
    ensures (b as bv8) as int == b
  {
    // neither order is possible
    var octet: int := (b as bv8) as int;
    if octet < b {
    } else if octet > b {
    }
  }
}
