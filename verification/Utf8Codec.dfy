/** UTF-8 encoding of numeric references (drivers/Mach3/tinyxml2.cpp:403-453). */
module Utf8Codec {
  import opened XmlUtil

  function Byte(n: int): char
    requires 0 <= n < 256
  {
    n as char
  }

  /** The low six bits under the mark 10xxxxxx. */
  function Continuation(v: nat): (c: char)
    ensures 0x80 <= c as int < 0xC0
  {
    Byte(0x80 + v % 64)
  }

  /** The bytes ConvertUTF32ToUTF8 writes; nothing from 0x200000 up. */
  function Utf8(v: nat): (s: string)
    ensures |s| <= 4
  {
    if v < 0x80 then [Byte(v)]
    else if v < 0x800 then [Byte(0xC0 + v / 64), Continuation(v)]
    else if v < 0x10000 then [Byte(0xE0 + v / 4096), Continuation(v / 64), Continuation(v)]
    else if v < 0x200000 then
      [Byte(0xF0 + v / 262144), Continuation(v / 4096), Continuation(v / 64), Continuation(v)]
    else []
  }

  // ---------- the bits ----------

  /** `a | b` and `a & b`, bit by bit. */
  function BitOr(a: nat, b: nat): nat {
    if a == 0 && b == 0 then 0 else 2 * BitOr(a / 2, b / 2) + if a % 2 == 1 || b % 2 == 1 then 1 else 0
  }

  function BitAnd(a: nat, b: nat): nat {
    if a == 0 || b == 0 then 0 else 2 * BitAnd(a / 2, b / 2) + if a % 2 == 1 && b % 2 == 1 then 1 else 0
  }

  const BYTE_MASK: nat := 0xBF
  const BYTE_MARK: nat := 0x80

  /** A bit that the mark leaves alone and the mask keeps. */
  lemma KeptBit(v: nat, mark: nat, mask: nat)
    ensures BitAnd(BitOr(v, 2 * mark), 2 * mask + 1) == 2 * BitAnd(BitOr(v / 2, mark), mask) + v % 2
  {
    hide BitAnd, BitOr;
    OrBit(v, 2 * mark);
    AndBit(BitOr(v, 2 * mark), 2 * mask + 1);
  }

  lemma OrBit(a: nat, b: nat)
    ensures BitOr(a, b) == 2 * BitOr(a / 2, b / 2) + if a % 2 == 1 || b % 2 == 1 then 1 else 0
  {
  }

  lemma AndBit(a: nat, b: nat)
    ensures BitAnd(a, b) == 2 * BitAnd(a / 2, b / 2) + if a % 2 == 1 && b % 2 == 1 then 1 else 0
  {
  }

  /** Every byte but the first: six bits under the mark. */
  lemma ContinuationBits(v: nat)
    ensures BitAnd(BitOr(v, BYTE_MARK), BYTE_MASK) == Continuation(v) as int
  {
    hide BitAnd, BitOr;
    TwoKeptBits(v, 0x20, 0x2F);
    TwoKeptBits(v / 4, 0x08, 0x0B);
    TwoKeptBits(v / 4 / 4, 0x02, 0x02);
    OnlyTheMark(v / 4 / 4 / 4);
    SixBits(v);
  }

  lemma TwoKeptBits(v: nat, mark: nat, mask: nat)
    ensures BitAnd(BitOr(v, 4 * mark), 4 * mask + 3) == 4 * BitAnd(BitOr(v / 4, mark), mask) + v % 4
  {
    hide BitAnd, BitOr;
    KeptBit(v, 2 * mark, 2 * mask + 1);
    KeptBit(v / 2, mark, mask);
    assert v / 2 / 2 == v / 4;
  }

  lemma SixBits(v: nat)
    ensures v % 64 == 16 * (v / 4 / 4 % 4) + 4 * (v / 4 % 4) + v % 4
  {
    var a := v / 4;
    var b := a / 4;
    Digits4(b / 4, b % 4, a % 4, v % 4);
  }

  lemma Digits4(c: nat, z: nat, y: nat, x: nat)
    requires z < 4 && y < 4 && x < 4
    ensures (4 * (4 * (4 * c + z) + y) + x) % 64 == 16 * z + 4 * y + x
  {
  }

  lemma OnlyTheMark(v: nat)
    ensures BitAnd(BitOr(v, 2), 2) == 2
  {
    hide BitAnd, BitOr;
    OrBit(v, 2);
    OrBit(v / 2, 1);
    AndBit(BitOr(v, 2), 2);
    AndBit(BitOr(v, 2) / 2, 1);
    NoBits(BitOr(v, 2) / 2 / 2);
  }

  lemma NoBits(a: nat)
    ensures BitAnd(a, 0) == 0
  {
  }

  lemma {:induction false} OrNothing(b: nat)
    ensures BitOr(0, b) == b && BitOr(b, 0) == b
  {
    if b > 0 {
      OrNothing(b / 2);
    }
  }

  /** The first byte: what is left of the value under the mark of its length. */
  lemma LeadBits(v: nat, length: nat)
    requires 1 <= length <= 4
    requires v < if length == 1 then 0x80 else if length == 2 then 0x20 else if length == 3 then 0x10 else 0x08
    ensures BitOr(v, FirstByteMark(length)) == v + FirstByteMark(length)
  {
    hide BitOr;
    OrNothing(v);
    if length == 2 {
      ThreeBits(v, 0x18);
      OrBit(v / 8, 0x18);
      OrBit(v / 8 / 2, 0x0C);
      OrNothing(0x06);
    } else if length == 3 {
      ThreeBits(v, 0x1C);
      OrBit(v / 8, 0x1C);
      OrNothing(0x0E);
    } else if length == 4 {
      ThreeBits(v, 0x1E);
      OrNothing(0x1E);
    }
  }

  lemma ThreeBits(v: nat, mark: nat)
    ensures BitOr(v, 8 * mark) == 8 * BitOr(v / 8, mark) + v % 8
  {
    hide BitOr;
    var a := v / 2;
    var b := a / 2;
    EvenMark(v, 4 * mark);
    EvenMark(a, 2 * mark);
    EvenMark(b, mark);
    Eighths(v, a, b, b / 2);
  }

  lemma EvenMark(v: nat, mark: nat)
    ensures BitOr(v, 2 * mark) == 2 * BitOr(v / 2, mark) + v % 2
  {
    hide BitOr;
    OrBit(v, 2 * mark);
  }

  lemma Eighths(v: nat, a: nat, b: nat, c: nat)
    requires a == v / 2 && b == a / 2 && c == b / 2
    ensures c == v / 8 && v % 8 == 4 * (b % 2) + 2 * (a % 2) + v % 2
  {
  }

  /** The conversion as written: the length from the ranges, then the bytes from the last to the first, six bits at
      a time, through the fall-through cases. */
  method ConvertUTF32ToUTF8(input: nat, output: array<char>) returns (length: nat)
    requires output.Length >= 4
    modifies output
    ensures length == |Utf8(input)|
    ensures output[..length] == Utf8(input)
    ensures forall k :: length <= k < output.Length ==> output[k] == old(output[k])
  {
    hide BitOr, BitAnd;
    var v := input;
    if v < 0x80 {
      length := 1;
    } else if v < 0x800 {
      length := 2;
    } else if v < 0x10000 {
      length := 3;
    } else if v < 0x200000 {
      length := 4;
    } else {
      return 0;
    }
    var at := length;
    if length == 4 {
      at := at - 1;
      output[at] := MarkedByte(v);
      v := v / 64;
    }
    if length >= 3 {
      at := at - 1;
      output[at] := MarkedByte(v);
      v := v / 64;
    }
    if length >= 2 {
      at := at - 1;
      output[at] := MarkedByte(v);
      v := v / 64;
    }
    at := at - 1;
    LeadBits(v, length);
    output[at] := Byte(BitOr(v, FirstByteMark(length)));
  }

  /** The conversion's byte for the low six bits. */
  function MarkedByte(v: nat): (c: char)
    ensures c == Continuation(v)
  {
    ContinuationBits(v);
    Byte(BitAnd(BitOr(v, BYTE_MARK), BYTE_MASK))
  }

  function FirstByteMark(length: nat): nat
    requires 1 <= length <= 4
  {
    if length == 1 then 0 else if length == 2 then 0xC0 else if length == 3 then 0xE0 else 0xF0
  }

  predicate IsContinuation(c: char) {
    0x80 <= c as int < 0xC0
  }

  /** A reference decoder of one UTF-8 sequence at the head of `s`: the lead byte gives the length, every other byte
      must be a continuation, and a sequence longer than needed is refused. Gives the value and its length. */
  function DecodeUtf8(s: string): Option<(nat, nat)> {
    if s == [] then None
    else
      var b := s[0] as int;
      if b < 0x80 then Some((b, 1))
      else if 0xC0 <= b < 0xE0 && |s| >= 2 && IsContinuation(s[1]) then
        Shortest((b - 0xC0) * 64 + Low(s[1]), 2, 0x80)
      else if 0xE0 <= b < 0xF0 && |s| >= 3 && IsContinuation(s[1]) && IsContinuation(s[2]) then
        Shortest((b - 0xE0) * 4096 + Low(s[1]) * 64 + Low(s[2]), 3, 0x800)
      else if 0xF0 <= b < 0xF8 && |s| >= 4 && IsContinuation(s[1]) && IsContinuation(s[2]) && IsContinuation(s[3]) then
        Shortest((b - 0xF0) * 262144 + Low(s[1]) * 4096 + Low(s[2]) * 64 + Low(s[3]), 4, 0x10000)
      else None
  }

  function Low(c: char): nat
    requires IsContinuation(c)
  {
    c as int - 0x80
  }

  function Shortest(v: nat, length: nat, least: nat): Option<(nat, nat)> {
    if v < least then None else Some((v, length))
  }

  /** The reference decoder inverts the conversion, whatever follows. */
  lemma DecodeInvertsUtf8(v: nat, rest: string)
    requires v < 0x200000
    ensures Utf8(v) != []
    ensures DecodeUtf8(Utf8(v) + rest) == Some((v, |Utf8(v)|))
  {
    if v >= 0x10000 {
      DecodeInvertsFourBytes(v, rest);
    } else if v >= 0x800 {
      Split(v);
    }
  }

  lemma DecodeInvertsFourBytes(v: nat, rest: string)
    requires 0x10000 <= v < 0x200000
    ensures DecodeUtf8(Utf8(v) + rest) == Some((v, 4))
  {
    var a, b, c, d := v / 262144, v / 4096 % 64, v / 64 % 64, v % 64;
    Split(v);
    Split(v / 64);
    DecodesFourBytes(a, b, c, d, rest);
    assert Utf8(v) == [Byte(0xF0 + a), Byte(0x80 + b), Byte(0x80 + c), Byte(0x80 + d)];
  }

  lemma DecodesFourBytes(a: nat, b: nat, c: nat, d: nat, rest: string)
    requires a < 8 && b < 64 && c < 64 && d < 64 && a * 262144 + b * 4096 + c * 64 + d >= 0x10000
    ensures DecodeUtf8([Byte(0xF0 + a), Byte(0x80 + b), Byte(0x80 + c), Byte(0x80 + d)] + rest)
         == Some((a * 262144 + b * 4096 + c * 64 + d, 4))
  {
  }

  lemma Split(v: nat)
    ensures v == v / 4096 * 4096 + v / 64 % 64 * 64 + v % 64
    ensures v / 64 / 64 == v / 4096
  {
    assert v / 64 == v / 4096 * 64 + v / 64 % 64;
  }

  /** No code is a prefix of another one. */
  lemma Utf8PrefixFree(v: nat, w: nat)
    requires v < 0x200000 && w < 0x200000
    requires Utf8(v) <= Utf8(w)
    ensures v == w
  {
    var rest := Utf8(w)[|Utf8(v)|..];
    assert Utf8(w) == Utf8(v) + rest && Utf8(w) == Utf8(w) + [];
    DecodeInvertsUtf8(v, rest);
    DecodeInvertsUtf8(w, []);
  }

  predicate IsScalarValue(v: nat) {
    v < 0xD800 || 0xE000 <= v < 0x110000
  }

  predicate In(c: char, lo: int, hi: int) {
    lo <= c as int <= hi
  }

  /** The productions UTF8-1 to UTF8-4 of section 4 of RFC 3629. */
  predicate RfcWellFormed(s: string) {
    match |s|
    case 1 => In(s[0], 0x00, 0x7F)
    case 2 => In(s[0], 0xC2, 0xDF) && In(s[1], 0x80, 0xBF)
    case 3 =>
      && In(s[2], 0x80, 0xBF)
      && (|| (In(s[0], 0xE0, 0xE0) && In(s[1], 0xA0, 0xBF))
          || (In(s[0], 0xE1, 0xEC) && In(s[1], 0x80, 0xBF))
          || (In(s[0], 0xED, 0xED) && In(s[1], 0x80, 0x9F))
          || (In(s[0], 0xEE, 0xEF) && In(s[1], 0x80, 0xBF)))
    case 4 =>
      && In(s[2], 0x80, 0xBF) && In(s[3], 0x80, 0xBF)
      && (|| (In(s[0], 0xF0, 0xF0) && In(s[1], 0x90, 0xBF))
          || (In(s[0], 0xF1, 0xF3) && In(s[1], 0x80, 0xBF))
          || (In(s[0], 0xF4, 0xF4) && In(s[1], 0x80, 0x8F)))
    case _ => false
  }

  /** On the values it converts, the output is well formed under RFC 3629 exactly for the Unicode scalar values. */
  lemma Utf8IsRfcExactlyOnScalarValues(v: nat)
    requires v < 0x200000
    ensures RfcWellFormed(Utf8(v)) <==> IsScalarValue(v)
  {
    if v >= 0x10000 {
      FourBytesAreRfc(v);
    } else if v >= 0x800 {
      ThreeBytesAreRfc(v);
    }
  }

  lemma ThreeBytesAreRfc(v: nat)
    requires 0x800 <= v < 0x10000
    ensures RfcWellFormed(Utf8(v)) <==> IsScalarValue(v)
  {
    Split(v);
  }

  lemma FourBytesAreRfc(v: nat)
    requires 0x10000 <= v < 0x200000
    ensures RfcWellFormed(Utf8(v)) <==> IsScalarValue(v)
  {
    Split(v / 64);
  }

  /** Every well-formed sequence is the output for some scalar value. */
  lemma RfcSequencesAreOutputs(s: string) returns (v: nat)
    requires RfcWellFormed(s)
    ensures IsScalarValue(v) && Utf8(v) == s
  {
    v := DecodeUtf8(s).value.0;
    if |s| == 2 {
      Digits64(s[0] as int - 0xC0, Low(s[1]));
    } else if |s| == 3 {
      Digits64(s[0] as int - 0xE0, Low(s[1]));
      Digits64((s[0] as int - 0xE0) * 64 + Low(s[1]), Low(s[2]));
    } else if |s| == 4 {
      FourBytesAreOutput(s);
    }
  }

  lemma FourBytesAreOutput(s: string)
    requires |s| == 4 && RfcWellFormed(s)
    ensures DecodeUtf8(s).Some? && IsScalarValue(DecodeUtf8(s).value.0)
    ensures Utf8(DecodeUtf8(s).value.0) == s
  {
    var a, b, c, d := s[0] as int - 0xF0, Low(s[1]), Low(s[2]), Low(s[3]);
    var v := a * 262144 + b * 4096 + c * 64 + d;
    Digits64((a * 64 + b) * 64 + c, d);
    Digits64(a * 64 + b, c);
    Digits64(a, b);
    assert v / 64 == (a * 64 + b) * 64 + c;
    Split(v);
    Split(v / 64);
    assert v / 4096 == a * 64 + b && v / 262144 == a;
  }

  lemma Digits64(hi: nat, lo: nat)
    requires lo < 64
    ensures (hi * 64 + lo) / 64 == hi && (hi * 64 + lo) % 64 == lo
  {
  }
}
