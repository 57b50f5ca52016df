/**
 The Blowfish cipher and its padding (common/walt/common/crypto/blowfish.py).
 The initial tables are a parameter: nothing here depends on the digits of pi.
 */
module Blowfish {
  import opened Wrappers
  import opened Arithmetic
  import Utf8

  type Byte = bv8

  datatype Tables = Tables(p: seq<bv32>, s: seq<seq<bv32>>)

  predicate ValidTables(t: Tables) {
    |t.p| == 18 && |t.s| == 4 && forall i :: 0 <= i < 4 ==> |t.s[i]| == 256
  }

  // ---------- words and blocks ----------

  function Left(x: bv64): bv32 {
    (x >> 32) as bv32
  }

  function Right(x: bv64): bv32 {
    (x & 0xFFFF_FFFF) as bv32
  }

  function Join(l: bv32, r: bv32): bv64 {
    (l as bv64 << 32) | r as bv64
  }

  lemma JoinParts(l: bv32, r: bv32)
    ensures Left(Join(l, r)) == l && Right(Join(l, r)) == r
  {
  }

  lemma PartsJoin(x: bv64)
    ensures Join(Left(x), Right(x)) == x
  {
  }

  function Xor(a: bv32, b: bv32): bv32 {
    a ^ b
  }

  lemma XorTwice(a: bv32, b: bv32)
    ensures Xor(Xor(a, b), b) == a
  {
  }

  // a ^ ((a ^ b) ^ c) == b ^ c
  lemma XorCancels(a: bv32, b: bv32, c: bv32)
    ensures Xor(a, Xor(Xor(a, b), c)) == Xor(b, c)
  {
    hide Xor;
    XorAssociative(a, b, c);
    XorSame(a, Xor(b, c));
  }

  lemma XorAssociative(a: bv32, b: bv32, c: bv32)
    ensures Xor(Xor(a, b), c) == Xor(a, Xor(b, c))
  {
  }

  lemma XorSame(a: bv32, b: bv32)
    ensures Xor(a, Xor(a, b)) == b
  {
  }

  function ByteOf(x: bv32, i: nat): nat
    requires i < 4
  {
    ((x >> (8 * (3 - i))) & 0xff) as bv8 as int
  }

  function F(t: Tables, x: bv32): bv32
    requires ValidTables(t)
  {
    ((t.s[0][ByteOf(x, 0)] + t.s[1][ByteOf(x, 1)]) ^ t.s[2][ByteOf(x, 2)]) + t.s[3][ByteOf(x, 3)]
  }

  // ---------- the Feistel network ----------

  // the two halves between two rounds
  datatype Halves = Halves(l: bv32, r: bv32)

  // one round, and its final swap
  function Round(t: Tables, h: Halves, k: bv32): Halves
    requires ValidTables(t)
  {
    var l := Xor(h.l, k);
    Halves(Xor(F(t, l), h.r), l)
  }

  /** The halves after i rounds of encryption. */
  function Forward(t: Tables, h: Halves, i: nat): Halves
    requires ValidTables(t) && i <= 16
  {
    if i == 0 then h else Round(t, Forward(t, h, i - 1), t.p[i - 1])
  }

  /** The halves after i rounds of decryption, which uses the P-array from its end. */
  function Backward(t: Tables, h: Halves, i: nat): Halves
    requires ValidTables(t) && i <= 16
  {
    if i == 0 then h else Round(t, Backward(t, h, i - 1), t.p[18 - i])
  }

  function Encipher(t: Tables, x: bv64): bv64
    requires ValidTables(t)
  {
    var h := Forward(t, Halves(Left(x), Right(x)), 16);
    Join(Xor(h.r, t.p[17]), Xor(h.l, t.p[16]))
  }

  function Decipher(t: Tables, x: bv64): bv64
    requires ValidTables(t)
  {
    var h := Backward(t, Halves(Left(x), Right(x)), 16);
    Join(Xor(h.r, t.p[0]), Xor(h.l, t.p[1]))
  }

  /** After i rounds, decryption is back at the halves encryption had 16 - i rounds in, up to two keys. */
  lemma {:induction false} BackwardUndoesForward(t: Tables, h: Halves, i: nat)
    requires ValidTables(t) && i <= 16
    ensures var e, f := Forward(t, h, 16), Forward(t, h, 16 - i);
            Backward(t, Halves(Xor(e.r, t.p[17]), Xor(e.l, t.p[16])), i)
              == Halves(Xor(f.r, t.p[17 - i]), Xor(f.l, t.p[16 - i]))
  {
    hide F, Round, Xor;
    if i > 0 {
      BackwardUndoesForward(t, h, i - 1);
      var f := Forward(t, h, 16 - i);
      UndoRound(t, f, t.p[16 - i], t.p[18 - i], t.p[17 - i]);
    }
  }

  // with the keys of the two rounds around it, a round of decryption undoes one of encryption
  lemma UndoRound(t: Tables, f: Halves, k: bv32, k2: bv32, k1: bv32)
    requires ValidTables(t)
    ensures var g := Round(t, f, k);
            Round(t, Halves(Xor(g.r, k2), Xor(g.l, k1)), k2) == Halves(Xor(f.r, k1), Xor(f.l, k))
  {
    hide F, Xor;
    var g := Round(t, f, k);
    XorTwice(g.r, k2);
    XorCancels(F(t, g.r), f.r, k1);
  }

  /** For any P-array and S-boxes, decryption undoes encryption of a block. */
  lemma DecipherUndoesEncipher(t: Tables, x: bv64)
    requires ValidTables(t)
    ensures Decipher(t, Encipher(t, x)) == x
  {
    hide F, Round, Xor, Forward, Backward, Left, Right, Join;
    var h := Halves(Left(x), Right(x));
    var e := Forward(t, h, 16);
    assert Forward(t, h, 0) == h by { NoRound(t, h); }
    JoinParts(Xor(e.r, t.p[17]), Xor(e.l, t.p[16]));
    BackwardUndoesForward(t, h, 16);
    XorTwice(h.r, t.p[1]);
    XorTwice(h.l, t.p[0]);
    PartsJoin(x);
  }

  lemma NoRound(t: Tables, h: Halves)
    requires ValidTables(t)
    ensures Forward(t, h, 0) == h
  {
  }

  // ---------- bytes ----------

  function MkChunk(b: seq<Byte>): bv64
    requires |b| == 8
  {
    (b[0] as bv64 << 56) | (b[1] as bv64 << 48) | (b[2] as bv64 << 40) | (b[3] as bv64 << 32)
    | (b[4] as bv64 << 24) | (b[5] as bv64 << 16) | (b[6] as bv64 << 8) | b[7] as bv64
  }

  function MkBytes(x: bv64): (b: seq<Byte>)
    ensures |b| == 8
  {
    [((x >> 56) & 0xff) as bv8, ((x >> 48) & 0xff) as bv8, ((x >> 40) & 0xff) as bv8, ((x >> 32) & 0xff) as bv8,
     ((x >> 24) & 0xff) as bv8, ((x >> 16) & 0xff) as bv8, ((x >> 8) & 0xff) as bv8, (x & 0xff) as bv8]
  }

  lemma ChunkOfBytes(x: bv64)
    ensures MkChunk(MkBytes(x)) == x
  {
  }

  lemma BytesOfChunk(b: seq<Byte>)
    requires |b| == 8
    ensures MkBytes(MkChunk(b)) == b
  {
  }

  // ---------- messages ----------

  /** Block by block; a last incomplete block is ignored. */
  function EncipherAll(t: Tables, b: seq<Byte>): (c: seq<Byte>)
    requires ValidTables(t)
    ensures |c| == |b| / 8 * 8
    decreases |b|
  {
    if |b| < 8 then [] else MkBytes(Encipher(t, MkChunk(b[..8]))) + EncipherAll(t, b[8..])
  }

  function DecipherAll(t: Tables, b: seq<Byte>): (c: seq<Byte>)
    requires ValidTables(t)
    ensures |c| == |b| / 8 * 8
    decreases |b|
  {
    if |b| < 8 then [] else MkBytes(Decipher(t, MkChunk(b[..8]))) + DecipherAll(t, b[8..])
  }

  lemma {:induction false} DecipherAllUndoes(t: Tables, b: seq<Byte>)
    requires ValidTables(t) && |b| % 8 == 0
    ensures DecipherAll(t, EncipherAll(t, b)) == b
    decreases |b|
  {
    hide Encipher, Decipher, MkChunk, MkBytes;
    if |b| >= 8 {
      var x := MkChunk(b[..8]);
      var c := EncipherAll(t, b);
      assert c[..8] == MkBytes(Encipher(t, x)) && c[8..] == EncipherAll(t, b[8..]);
      ChunkOfBytes(Encipher(t, x));
      DecipherUndoesEncipher(t, x);
      BytesOfChunk(b[..8]);
      DecipherAllUndoes(t, b[8..]);
    } else {
      assert b == [];
    }
  }

  /** 1 to 8 bytes, each holding their number, up to a multiple of 8 (section 6.1.1 of RFC 8018). */
  function Padded(b: seq<Byte>): (r: seq<Byte>)
    ensures |r| % 8 == 0 && |b| < |r| <= |b| + 8
    ensures r[..|b|] == b && forall k :: |b| <= k < |r| ==> r[k] as int == |r| - |b|
  {
    var n := (|b| / 8 + 1) * 8 - |b|;
    b + seq(n, _ => n as bv8)
  }

  function Encrypted(t: Tables, b: seq<Byte>): seq<Byte>
    requires ValidTables(t)
  {
    EncipherAll(t, Padded(b))
  }

  // IndexError on an empty input, UnicodeEncodeError and UnicodeDecodeError
  datatype Error = NoBlock | NotEncodable | NotDecodable

  // the last byte says how many bytes to drop; dropping 0, or more than there are, leaves nothing
  function Unpadded(b: seq<Byte>): Result<seq<Byte>, Error> {
    if b == [] then Err(NoBlock)
    else
      var n := b[|b| - 1] as int;
      Ok(if n == 0 || n > |b| then [] else b[..|b| - n])
  }

  function Decrypted(t: Tables, b: seq<Byte>): Result<seq<Byte>, Error>
    requires ValidTables(t)
  {
    Unpadded(DecipherAll(t, b))
  }

  /** Every byte string comes back, whatever the tables. */
  lemma DecryptUndoesEncrypt(t: Tables, b: seq<Byte>)
    requires ValidTables(t)
    ensures Decrypted(t, Encrypted(t, b)) == Ok(b)
  {
    hide EncipherAll, DecipherAll;
    DecipherAllUndoes(t, Padded(b));
    var r := Padded(b);
    assert r[|r| - 1] as int == |r| - |b|;
  }

  function EncryptedText(t: Tables, text: seq<Utf8.CodePoint>): Result<seq<Byte>, Error>
    requires ValidTables(t)
  {
    if Utf8.Encodable(text) then Ok(Encrypted(t, Utf8.Bytes(Utf8.Encode(text)))) else Err(NotEncodable)
  }

  function DecryptedText(t: Tables, c: seq<Byte>): Result<seq<Utf8.CodePoint>, Error>
    requires ValidTables(t)
  {
    var b := Decrypted(t, c);
    if b.Err? then Err(b.error)
    else
      var text := Utf8.Decode(Utf8.Octets(b.value));
      if text.None? then Err(NotDecodable) else Ok(text.value)
  }

  /** Every text that can be encoded comes back, whatever the tables. */
  lemma TextRoundTrip(t: Tables, text: seq<Utf8.CodePoint>)
    requires ValidTables(t) && Utf8.Encodable(text)
    ensures EncryptedText(t, text).Ok? && DecryptedText(t, EncryptedText(t, text).value) == Ok(text)
  {
    hide Encrypted, Decrypted;
    var bytes := Utf8.Bytes(Utf8.Encode(text));
    DecryptUndoesEncrypt(t, bytes);
    Utf8.OctetsOfBytes(Utf8.Encode(text));
    Utf8.DecodeEncode(text);
  }

  // ---------- the key schedule ----------

  // the n lowest hexadecimal digits of a number, highest first
  function HexDigits(key: nat, n: nat): (d: seq<nat>)
    ensures |d| == n && forall k :: 0 <= k < n ==> d[k] < 16
  {
    if n == 0 then [] else HexDigits(key / 16, n - 1) + [key % 16]
  }

  // int(..., 16)
  function HexValue(d: seq<nat>): (x: nat) {
    if d == [] then 0 else HexValue(d[..|d| - 1]) * 16 + d[|d| - 1]
  }

  // the key is truncated, or padded with zeros, to this number of hexadecimal digits
  function HexLength(bitlength: int): (n: nat)
    ensures 8 <= n <= 112
  {
    (if bitlength < 32 then 32 else if bitlength > 448 then 448 else bitlength) / 4
  }

  function Subkey(key: nat, bitlength: int, i: nat): bv32 {
    var n := HexLength(bitlength);
    var pos := i % (n / 8) * 8;
    var digits := HexDigits(key, n)[pos..pos + 8];
    EightDigits(digits);
    HexValue(digits) as bv32
  }

  lemma EightDigits(d: seq<nat>)
    requires |d| == 8 && forall k :: 0 <= k < |d| ==> d[k] < 16
    ensures HexValue(d) < 0x1_0000_0000
  {
    HexValueBound(d);
    assert Power16(8) == 0x1_0000_0000;
  }

  function Power16(n: nat): (p: nat)
    ensures p > 0
  {
    if n == 0 then 1 else 16 * Power16(n - 1)
  }

  lemma {:induction false} HexValueBound(d: seq<nat>)
    requires forall k :: 0 <= k < |d| ==> d[k] < 16
    ensures HexValue(d) < Power16(|d|)
  {
    if d != [] {
      HexValueBound(d[..|d| - 1]);
    }
  }

  lemma LastDigit(x: nat, p: nat)
    requires p > 0
    ensures x / 16 % p * 16 + x % 16 == x % (16 * p)
  {
    var q, y := x / 16 / p, x / 16 % p;
    var w := q * p;
    assert x / 16 == w + y;
    assert x == 16 * w + 16 * y + x % 16;
    assert 16 * w == q * (16 * p);
    RemainderUnique(x, q, y * 16 + x % 16, 16 * p);
  }

  /** The digits of a number have its value, but for what does not fit. */
  lemma {:induction false} ValueOfDigits(x: nat, n: nat)
    ensures HexValue(HexDigits(x, n)) == x % Power16(n)
  {
    if n > 0 {
      ValueOfDigits(x / 16, n - 1);
      assert HexDigits(x, n)[..n - 1] == HexDigits(x / 16, n - 1);
      LastDigit(x, Power16(n - 1));
    } else {
      assert HexDigits(x, 0) == [];
    }
  }

  /** Without its m lowest digits. */
  lemma {:induction false} HighDigits(x: nat, n: nat, m: nat)
    requires m <= n
    ensures HexDigits(x, n)[..n - m] == HexDigits(x / Power16(m), n - m)
  {
    if m > 0 {
      HighDigits(x / 16, n - 1, m - 1);
      assert HexDigits(x, n)[..n - 1] == HexDigits(x / 16, n - 1);
      assert HexDigits(x, n)[..n - m] == HexDigits(x / 16, n - 1)[..n - m];
      DivideTwice(x, 16, Power16(m - 1));
    } else {
      assert x / 1 == x;
    }
  }

  lemma DivideTwice(x: nat, a: nat, b: nat)
    requires a > 0 && b > 0
    ensures x / a / b == x / (a * b)
  {
    var q, r, s := x / a / b, x / a % b, x % a;
    assert x == (q * b + r) * a + s;
    assert x == q * (a * b) + (r * a + s) by {
      assert (q * b) * a == q * (a * b);
    }
    assert 0 <= r * a + s < a * b by {
      MulMonotone(r + 1, b, a);
    }
    assert q * (a * b) <= x < q * (a * b) + a * b;
    QuotientUnique(x, q, a * b);
  }

  /** The last 8 digits do not depend on those before. */
  lemma {:induction false} LowDigits(x: nat, n: nat, m: nat)
    requires m <= n
    ensures HexDigits(x, n)[n - m..] == HexDigits(x, m)
  {
    if m > 0 {
      LowDigits(x / 16, n - 1, m - 1);
      assert HexDigits(x, n)[n - m..] == HexDigits(x / 16, n - 1)[n - m..] + [x % 16];
    }
  }

  /** Word j of a key of n hexadecimal digits, from its highest one. */
  function KeyWord(key: nat, n: nat, j: nat): nat
    requires 8 * j + 8 <= n
  {
    key / Power16(n - 8 * j - 8) % 0x1_0000_0000
  }

  lemma SubkeyIsKeyWord(key: nat, bitlength: int, i: nat)
    ensures var n := HexLength(bitlength);
            8 * (i % (n / 8)) + 8 <= n && Subkey(key, bitlength, i) == KeyWord(key, n, i % (n / 8)) as bv32
  {
    hide HexDigits, HexValue, Power16;
    var n := HexLength(bitlength);
    var j := i % (n / 8);
    EightOfDigits(key, n, 8 * j);
  }

  lemma EightOfPower()
    ensures Power16(8) == 0x1_0000_0000
  {
  }

  lemma EightOfDigits(key: nat, n: nat, pos: nat)
    requires pos + 8 <= n
    ensures HexValue(HexDigits(key, n)[pos..pos + 8]) == key / Power16(n - pos - 8) % 0x1_0000_0000
  {
    hide HexDigits, HexValue, Power16;
    var m := n - pos - 8;
    var x := key / Power16(m);
    EightOfPower();
    HighDigits(key, n, m);
    LowDigits(x, n - m, 8);
    assert HexDigits(key, n)[pos..pos + 8] == HexDigits(key, n)[..n - m][pos..];
    ValueOfDigits(x, 8);
  }

  function KeyedP(p: seq<bv32>, key: nat, bitlength: int, i: nat): (p': seq<bv32>)
    requires |p| == 18 && i <= 18
    ensures |p'| == 18
  {
    if i == 0 then p
    else
      var q := KeyedP(p, key, bitlength, i - 1);
      q[i - 1 := Xor(q[i - 1], Subkey(key, bitlength, i - 1))]
  }

  /** Each P-box is combined with a 32-bit word of the key, the words being used in turn. */
  lemma {:induction false} KeyedByWords(p: seq<bv32>, key: nat, bitlength: int, i: nat, k: nat)
    requires |p| == 18 && i <= 18 && k < 18
    ensures var n := HexLength(bitlength);
            && 8 * (k % (n / 8)) + 8 <= n
            && KeyedP(p, key, bitlength, i)[k]
               == if k < i then Xor(p[k], KeyWord(key, n, k % (n / 8)) as bv32) else p[k]
  {
    hide Subkey, KeyWord;
    SubkeyIsKeyWord(key, bitlength, k);
    if i > 0 {
      KeyedByWords(p, key, bitlength, i - 1, k);
    }
  }

  // the tables, and the last block enciphered
  datatype Schedule = Schedule(t: Tables, output: bv64)

  /** i pairs of P-boxes are replaced, each by the encryption of the previous pair under the tables so far. */
  function ScheduledP(s: Schedule, i: nat): (s': Schedule)
    requires ValidTables(s.t) && i <= 9
    ensures ValidTables(s'.t)
  {
    if i == 0 then s
    else
      var r := ScheduledP(s, i - 1);
      var o := Encipher(r.t, r.output);
      Schedule(r.t.(p := r.t.p[2 * i - 2 := Left(o)][2 * i - 1 := Right(o)]), o)
  }

  /** The same for j pairs of S-box i. */
  function ScheduledBox(s: Schedule, i: nat, j: nat): (s': Schedule)
    requires ValidTables(s.t) && i < 4 && j <= 128
    ensures ValidTables(s'.t)
  {
    if j == 0 then s
    else
      var r := ScheduledBox(s, i, j - 1);
      var o := Encipher(r.t, r.output);
      Schedule(r.t.(s := r.t.s[i := r.t.s[i][2 * j - 2 := Left(o)][2 * j - 1 := Right(o)]]), o)
  }

  function ScheduledBoxes(s: Schedule, i: nat): (s': Schedule)
    requires ValidTables(s.t) && i <= 4
    ensures ValidTables(s'.t)
  {
    if i == 0 then s else ScheduledBox(ScheduledBoxes(s, i - 1), i - 1, 128)
  }

  /** Pair k of the P-array, as a block. */
  function PairOfP(t: Tables, k: nat): bv64
    requires ValidTables(t) && k < 9
  {
    Join(t.p[2 * k], t.p[2 * k + 1])
  }

  function PairOfBox(t: Tables, i: nat, k: nat): bv64
    requires ValidTables(t) && i < 4 && k < 128
  {
    Join(t.s[i][2 * k], t.s[i][2 * k + 1])
  }

  lemma NoPairOfP(s: Schedule)
    requires ValidTables(s.t)
    ensures ScheduledP(s, 0) == s
  {
  }

  lemma NextPairOfP(s: Schedule, i: nat)
    requires ValidTables(s.t) && 0 < i <= 9
    ensures var r, r' := ScheduledP(s, i - 1), ScheduledP(s, i);
            && PairOfP(r'.t, i - 1) == r'.output == Encipher(r.t, r.output)
            && forall k :: 0 <= k < i - 1 ==> PairOfP(r'.t, k) == PairOfP(r.t, k)
  {
    hide Encipher, Left, Right, Join;
    PartsJoin(ScheduledP(s, i).output);
  }

  /** Each pair of P-boxes is the encryption of the pair before it, under the tables at that moment. */
  lemma {:induction false} ScheduleChainsP(s: Schedule, i: nat, k: nat)
    requires ValidTables(s.t) && k < i <= 9
    ensures var r := ScheduledP(s, i);
            && r.output == PairOfP(r.t, i - 1)
            && PairOfP(r.t, k)
               == Encipher(ScheduledP(s, k).t, if k == 0 then s.output else PairOfP(r.t, k - 1))
  {
    hide ScheduledP, PairOfP, Encipher;
    NextPairOfP(s, i);
    NoPairOfP(s);
    if k < i - 1 {
      ScheduleChainsP(s, i - 1, k);
    } else if k > 0 {
      ScheduleChainsP(s, i - 1, k - 1);
    }
  }

  lemma NoPairOfBox(s: Schedule, i: nat)
    requires ValidTables(s.t) && i < 4
    ensures ScheduledBox(s, i, 0) == s
  {
  }

  lemma NextPairOfBox(s: Schedule, i: nat, j: nat)
    requires ValidTables(s.t) && i < 4 && 0 < j <= 128
    ensures var r, r' := ScheduledBox(s, i, j - 1), ScheduledBox(s, i, j);
            && PairOfBox(r'.t, i, j - 1) == r'.output == Encipher(r.t, r.output)
            && forall k :: 0 <= k < j - 1 ==> PairOfBox(r'.t, i, k) == PairOfBox(r.t, i, k)
  {
    hide Encipher, Left, Right, Join;
    PartsJoin(ScheduledBox(s, i, j).output);
  }

  /** The same for the pairs of an S-box. */
  lemma {:induction false} ScheduleChainsBox(s: Schedule, i: nat, j: nat, k: nat)
    requires ValidTables(s.t) && i < 4 && k < j <= 128
    ensures var r := ScheduledBox(s, i, j);
            && r.output == PairOfBox(r.t, i, j - 1)
            && PairOfBox(r.t, i, k)
               == Encipher(ScheduledBox(s, i, k).t, if k == 0 then s.output else PairOfBox(r.t, i, k - 1))
  {
    hide ScheduledBox, PairOfBox, Encipher;
    NextPairOfBox(s, i, j);
    NoPairOfBox(s, i);
    if k < j - 1 {
      ScheduleChainsBox(s, i, j - 1, k);
    } else if k > 0 {
      ScheduleChainsBox(s, i, j - 1, k - 1);
    }
  }

  /** The tables of a key. */
  function KeyTables(initial: Tables, key: nat, bitlength: int): (t: Tables)
    requires ValidTables(initial)
    ensures ValidTables(t)
  {
    var keyed := initial.(p := KeyedP(initial.p, key, bitlength, 18));
    ScheduledBoxes(ScheduledP(Schedule(keyed, 0), 9), 4).t
  }

  // ---------- the cipher object ----------

  class BlowFish {
    var parray: seq<bv32>
    var sbox: seq<seq<bv32>>

    function Current(): Tables
      reads this
    {
      Tables(parray, sbox)
    }

    /** The key schedule rewrites the initial tables in place. */
    constructor (initial: Tables, key: nat, bitlength: int)
      requires ValidTables(initial)
      ensures Current() == KeyTables(initial, key, bitlength)
    {
      hide Encipher, Xor, Left, Right, Subkey, ScheduledBox;
      parray, sbox := initial.p, initial.s;
      new;
      for i := 0 to 18
        invariant sbox == initial.s && parray == KeyedP(initial.p, key, bitlength, i)
      {
        parray := parray[i := Xor(parray[i], Subkey(key, bitlength, i))];
      }
      ghost var start := Schedule(Current(), 0);
      var output: bv64 := 0;
      for i := 0 to 9
        invariant Schedule(Current(), output) == ScheduledP(start, i)
      {
        output := BfEncrypt(output);
        parray := parray[2 * i := Left(output)][2 * i + 1 := Right(output)];
      }
      ghost var boxes := Schedule(Current(), output);
      for i := 0 to 4
        invariant Schedule(Current(), output) == ScheduledBoxes(boxes, i)
      {
        output := RewriteBox(i, output);
      }
    }

    method RewriteBox(i: nat, start: bv64) returns (output: bv64)
      requires ValidTables(Current()) && i < 4
      modifies this
      ensures Schedule(Current(), output) == ScheduledBox(Schedule(old(Current()), start), i, 128)
    {
      hide Encipher, Left, Right;
      output := start;
      for j := 0 to 128
        invariant Schedule(Current(), output) == ScheduledBox(Schedule(old(Current()), start), i, j)
      {
        output := BfEncrypt(output);
        sbox := sbox[i := sbox[i][2 * j := Left(output)][2 * j + 1 := Right(output)]];
      }
    }

    method BfEncrypt(x: bv64) returns (y: bv64)
      requires ValidTables(Current())
      ensures y == Encipher(Current(), x)
    {
      hide F, Xor, Left, Right, Join;
      var h := Halves(Left(x), Right(x));
      for i := 0 to 16
        invariant h == Forward(Current(), Halves(Left(x), Right(x)), i)
      {
        h := Round(Current(), h, parray[i]);
      }
      y := Join(Xor(h.r, parray[17]), Xor(h.l, parray[16]));
    }

    method BfDecrypt(x: bv64) returns (y: bv64)
      requires ValidTables(Current())
      ensures y == Decipher(Current(), x)
    {
      hide F, Xor, Left, Right, Join;
      var h := Halves(Left(x), Right(x));
      for k := 0 to 16
        invariant h == Backward(Current(), Halves(Left(x), Right(x)), k)
      {
        h := Round(Current(), h, parray[17 - k]);
      }
      y := Join(Xor(h.r, parray[0]), Xor(h.l, parray[1]));
    }

    method Encrypt(text: seq<Utf8.CodePoint>) returns (r: Result<seq<Byte>, Error>)
      requires ValidTables(Current())
      ensures r == EncryptedText(Current(), text)
    {
      hide Encrypted;
      if !Utf8.Encodable(text) {
        return Err(NotEncodable);
      }
      var c := EncryptBytes(Utf8.Bytes(Utf8.Encode(text)));
      r := Ok(c);
    }

    method Decrypt(c: seq<Byte>) returns (r: Result<seq<Utf8.CodePoint>, Error>)
      requires ValidTables(Current())
      ensures r == DecryptedText(Current(), c)
    {
      hide Decrypted;
      var b := DecryptBytes(c);
      if b.Err? {
        return Err(b.error);
      }
      var text := Utf8.Decode(Utf8.Octets(b.value));
      r := if text.None? then Err(NotDecodable) else Ok(text.value);
    }

    method EncryptBytes(b: seq<Byte>) returns (c: seq<Byte>)
      requires ValidTables(Current())
      ensures c == Encrypted(Current(), b)
    {
      hide Encipher, MkChunk, MkBytes;
      var padded := Padded(b);
      c := [];
      for i := 0 to |b| / 8 + 1
        invariant |padded| == (|b| / 8 + 1) * 8
        invariant c + EncipherAll(Current(), padded[8 * i..]) == EncipherAll(Current(), padded)
      {
        var cipher := BfEncrypt(MkChunk(padded[8 * i..8 * i + 8]));
        assert padded[8 * i..][..8] == padded[8 * i..8 * i + 8] && padded[8 * i..][8..] == padded[8 * (i + 1)..];
        c := c + MkBytes(cipher);
      }
    }

    method DecryptBytes(c: seq<Byte>) returns (r: Result<seq<Byte>, Error>)
      requires ValidTables(Current())
      ensures r == Decrypted(Current(), c)
    {
      hide Decipher, MkChunk, MkBytes;
      var b: seq<Byte> := [];
      for i := 0 to |c| / 8
        invariant b + DecipherAll(Current(), c[8 * i..]) == DecipherAll(Current(), c)
      {
        var plain := BfDecrypt(MkChunk(c[8 * i..8 * i + 8]));
        assert c[8 * i..][..8] == c[8 * i..8 * i + 8] && c[8 * i..][8..] == c[8 * (i + 1)..];
        b := b + MkBytes(plain);
      }
      assert b == DecipherAll(Current(), c);
      r := Unpadded(b);
    }
  }
}
