/**
 The words of a trace block and the instructions they encode
 (trackexec/const.py, and the encoding halves of recorder.py and fast.py).
 */
module TraceFormat {
  import opened Wrappers

  // an unsigned 16-bit word
  type Word = w: int | 0 <= w < 0x1_0000

  const CALL: Word := 65535
  const RETURN: Word := 65534
  const TIMESTAMP: Word := 65533
  const END: Word := 0

  // a timestamp offset is cut in four 15-bit digits
  const STAMP_LIMIT := 0x1000_0000_0000_0000

  datatype Instr =
    | Call(fileId: Word)
    | Ret
    | Stamp(offset: nat)
    | Line(lineno: Word)

  predicate ValidInstr(i: Instr) {
    match i
    case Call(f) => f < TIMESTAMP
    case Ret => true
    case Stamp(o) => o < STAMP_LIMIT
    case Line(n) => 0 < n < TIMESTAMP
  }

  predicate ValidCode(code: seq<Instr>) {
    forall k :: 0 <= k < |code| ==> ValidInstr(code[k])
  }

  function InstrSize(i: Instr): nat {
    match i
    case Call(_) => 2
    case Ret => 1
    case Stamp(_) => 5
    case Line(_) => 1
  }

  // ---------- timestamp offsets ----------

  /** The n lowest base-2^15 digits of o, lowest first, each shifted by one so that none is an opcode. */
  function Digits(o: nat, n: nat): (ws: seq<Word>)
    ensures |ws| == n
    ensures forall k :: 0 <= k < n ==> END < ws[k] < TIMESTAMP
  {
    if n == 0 then [] else [o % 0x8000 + 1] + Digits(o / 0x8000, n - 1)
  }

  function StampWords(o: nat): (ws: seq<Word>)
    ensures |ws| == 4
    ensures forall k :: 0 <= k < 4 ==> END < ws[k] < TIMESTAMP
  {
    Digits(o, InstrSize(Stamp(o)) - 1)
  }

  // sum of the four decremented digits, shifted by 0, 15, 30 and 45 bits
  function StampValue(d0: int, d1: int, d2: int, d3: int): int {
    (d0 - 1) + (d1 - 1) * 0x8000 + (d2 - 1) * 0x4000_0000 + (d3 - 1) * 0x2000_0000_0000
  }

  /** Four digits keep exactly the low 60 bits of the offset. */
  lemma StampRoundTrip(o: nat)
    ensures var ws := StampWords(o); StampValue(ws[0], ws[1], ws[2], ws[3]) == o % STAMP_LIMIT
    ensures var ws := StampWords(o); StampValue(ws[0], ws[1], ws[2], ws[3]) == o <==> o < STAMP_LIMIT
  {
    var o1 := o / 0x8000;
    var o2 := o1 / 0x8000;
    var o3 := o2 / 0x8000;
    assert Digits(o, 4) == [o % 0x8000 + 1] + Digits(o1, 3);
    assert Digits(o1, 3) == [o1 % 0x8000 + 1] + Digits(o2, 2);
    assert Digits(o2, 2) == [o2 % 0x8000 + 1] + Digits(o3, 1);
    assert Digits(o3, 1) == [o3 % 0x8000 + 1] + Digits(o3 / 0x8000, 0);
    DigitsOf60Bits(o, o1, o2, o3);
  }

  lemma DigitsOf60Bits(o: nat, o1: nat, o2: nat, o3: nat)
    requires o1 == o / 0x8000 && o2 == o1 / 0x8000 && o3 == o2 / 0x8000
    ensures o % 0x8000 + o1 % 0x8000 * 0x8000 + o2 % 0x8000 * 0x4000_0000 + o3 % 0x8000 * 0x2000_0000_0000
         == o % STAMP_LIMIT
  {
    var o4 := o3 / 0x8000;
    var low := o % 0x8000 + o1 % 0x8000 * 0x8000 + o2 % 0x8000 * 0x4000_0000 + o3 % 0x8000 * 0x2000_0000_0000;
    assert o == low + o4 * STAMP_LIMIT;
    assert 0 <= low < STAMP_LIMIT;
  }

  // ---------- instructions ----------

  function EncodeInstr(i: Instr): (ws: seq<Word>)
    ensures |ws| == InstrSize(i)
  {
    match i
    case Call(f) => [CALL, f]
    case Ret => [RETURN]
    case Stamp(o) => [TIMESTAMP] + StampWords(o)
    case Line(n) => [n]
  }

  function Encode(code: seq<Instr>): seq<Word> {
    if code == [] then [] else Encode(code[..|code| - 1]) + EncodeInstr(code[|code| - 1])
  }

  function Padding(n: nat): seq<Word> {
    seq(n, _ => END)
  }

  /** Reads instructions up to the first END marker; None when the words run out or are malformed. */
  function Parse(ws: seq<Word>): Option<seq<Instr>> {
    if ws == [] then None
    else if ws[0] == END then Some([])
    else if ws[0] == CALL then
      if |ws| < 2 then None else Prepend(Call(ws[1]), Parse(ws[2..]))
    else if ws[0] == RETURN then Prepend(Ret, Parse(ws[1..]))
    else if ws[0] == TIMESTAMP then
      if |ws| < 5 || ws[1] == END || ws[2] == END || ws[3] == END || ws[4] == END then None
      else
        var o := StampValue(ws[1], ws[2], ws[3], ws[4]);
        Prepend(Stamp(o), Parse(ws[5..]))
    else Prepend(Line(ws[0]), Parse(ws[1..]))
  }

  function Prepend(i: Instr, rest: Option<seq<Instr>>): Option<seq<Instr>> {
    if rest.None? then None else Some([i] + rest.value)
  }

  lemma {:induction false} EncodeAppend(code: seq<Instr>, i: Instr)
    ensures Encode(code + [i]) == Encode(code) + EncodeInstr(i)
  {
    assert (code + [i])[..|code|] == code;
  }

  lemma {:induction false} EncodeConcat(a: seq<Instr>, b: seq<Instr>)
    ensures Encode(a + b) == Encode(a) + Encode(b)
  {
    if b == [] {
      assert a + b == a;
    } else {
      var n := |b| - 1;
      EncodeConcat(a, b[..n]);
      assert (a + b)[..|a + b| - 1] == a + b[..n];
      assert Encode(a + b) == Encode(a + b[..n]) + EncodeInstr(b[n]);
      Associative(Encode(a), Encode(b[..n]), EncodeInstr(b[n]));
    }
  }

  lemma Associative<T>(a: seq<T>, b: seq<T>, c: seq<T>)
    ensures (a + b) + c == a + (b + c)
  {
  }

  lemma EncodeFirst(i: Instr, rest: seq<Instr>)
    ensures Encode([i] + rest) == EncodeInstr(i) + Encode(rest)
  {
    EncodeConcat([i], rest);
    assert [i][..0] == [];
    assert Encode([]) + EncodeInstr(i) == EncodeInstr(i);
  }

  /** Reading one encoded instruction leaves the words that follow it. */
  lemma ParseOne(i: Instr, tail: seq<Word>)
    requires ValidInstr(i)
    ensures Parse(EncodeInstr(i) + tail) == Prepend(i, Parse(tail))
  {
    var ws := EncodeInstr(i) + tail;
    assert ws[|EncodeInstr(i)|..] == tail;
    if i.Stamp? {
      StampRoundTrip(i.offset);
      assert forall k :: 0 <= k < 4 ==> ws[1 + k] == StampWords(i.offset)[k];
    }
  }

  /** Decoding the words of a padded block gives back the instructions recorded in it. */
  lemma {:induction false} ParseEncode(code: seq<Instr>, pad: nat)
    requires ValidCode(code)
    requires pad > 0
    ensures Parse(Encode(code) + Padding(pad)) == Some(code)
  {
    if code == [] {
      assert Encode(code) + Padding(pad) == Padding(pad);
    } else {
      var i, rest := code[0], code[1..];
      assert code == [i] + rest;
      EncodeFirst(i, rest);
      ParseEncode(rest, pad);
      Associative(EncodeInstr(i), Encode(rest), Padding(pad));
      ParseOne(i, Encode(rest) + Padding(pad));
    }
  }

  /** The peephole test of the recorder on raw words: the word before the last one is the CALL
      opcode exactly when the last instruction is a CALL. */
  lemma {:induction false} CallIsVisible(code: seq<Instr>)
    requires ValidCode(code)
    ensures |Encode(code)| >= 2 && Encode(code)[|Encode(code)| - 2] == CALL <==> code != [] && code[|code| - 1].Call?
  {
    hide StampWords;
    if code != [] {
      var n := |code| - 1;
      var init, i := Encode(code[..n]), code[n];
      if i.Stamp? {
        assert Encode(code)[|Encode(code)| - 2] == StampWords(i.offset)[2];
      } else if !i.Call? && n > 0 {
        LastWordIsNotCall(code[..n]);
        assert Encode(code)[|Encode(code)| - 2] == init[|init| - 1];
      }
    }
  }

  lemma {:induction false} LastWordIsNotCall(code: seq<Instr>)
    requires ValidCode(code) && code != []
    ensures |Encode(code)| > 0 && Encode(code)[|Encode(code)| - 1] != CALL
  {
    hide StampWords;
    var i := code[|code| - 1];
    if i.Stamp? {
      assert Encode(code)[|Encode(code)| - 1] == StampWords(i.offset)[3];
    }
  }
}
