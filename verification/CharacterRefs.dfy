/** Numeric character references (drivers/Mach3/tinyxml2.cpp:456-549). `unsigned` and `unsigned long` are 32 bits
    wide, as on Windows, where the Mach3 driver is built. */
module CharacterRefs {
  import opened XmlUtil
  import opened Utf8Codec

  const WORD := 0x1_0000_0000

  function Digit(c: char, base: nat): (d: Option<nat>)
    ensures d.Some? ==> d.value < 16
  {
    if IsDigit(c) then Some(c as int - '0' as int)
    else if base == 16 && 'a' <= c <= 'f' then Some(c as int - 'a' as int + 10)
    else if base == 16 && 'A' <= c <= 'F' then Some(c as int - 'A' as int + 10)
    else None
  }

  predicate AllDigits(s: string, base: nat) {
    forall i :: 0 <= i < |s| ==> Digit(s[i], base).Some?
  }

  /** The number a digit string denotes, read from the left. */
  function Positional(s: string, base: nat): nat
    requires AllDigits(s, base)
  {
    if s == [] then 0
    else Positional(s[..|s| - 1], base) * base + Digit(s[|s| - 1], base).value
  }

  /** The accumulation of GetCharacterRef: from index `i` down to the nearest `stop`, adding `mult * digit` and
      scaling `mult` by the base, all in 32-bit unsigned words. */
  function ScanBack(s: string, i: nat, stop: char, base: nat, mult: nat, ucs: nat): Option<nat>
    requires i < |s| && exists j :: 0 <= j <= i && s[j] == stop
  {
    if s[i] == stop then Some(ucs)
    else
      match Digit(s[i], base)
      case None => None
      case Some(d) => ScanBack(s, i - 1, stop, base, mult * base % WORD, (ucs + mult * d % WORD) % WORD)
  }

  function Pow(base: nat, n: nat): nat {
    if n == 0 then 1 else Pow(base, n - 1) * base
  }

  /** The number of a reference and how many characters it takes up, up to and with its semicolon. */
  function RefNumber(s: string): (r: Option<(nat, nat)>)
    requires |s| >= 3 && s[1] == '#'
    ensures r.Some? ==> 3 <= r.value.1 <= |s| && (r.value.1 == 3 ==> r.value.0 == 0)
  {
    var (stop, base, from) := RefForm(s);
    match IndexOf(s[from..], ';')
    case None => None
    case Some(k) =>
      assert s[from - 1] == stop && from - 1 <= from + k - 1;
      match ScanBack(s, from + k - 1, stop, base, 1, 0)
      case None => None
      case Some(ucs) => Some((ucs, from + k + 1))
  }

  /** GetCharacterRef at the head of `s`, which begins with an ampersand and a hash: how many characters it consumes
      and the bytes it yields, or None when the text is not a reference. "&#" with nothing after it consumes one
      character and yields none. What it yields is never longer than what it consumes. */
  function CharacterRef(s: string): (r: Option<(nat, string)>)
    requires |s| >= 2 && s[1] == '#'
    ensures r.Some? ==> |r.value.1| <= r.value.0 <= |s| && r.value.0 >= 1
  {
    if |s| == 2 then Some((1, ""))
    else
      match RefNumber(s)
      case None => None
      case Some((ucs, used)) => Some((used, Utf8(ucs)))
  }

  /** Where the digits start: the character that ends the backward scan, the base, the index after that character. */
  function RefForm(s: string): (r: (char, nat, nat))
    requires |s| >= 3 && s[1] == '#'
    ensures 2 <= r.2 <= |s| && s[r.2 - 1] == r.0
  {
    if s[2] == 'x' then ('x', 16, 3) else ('#', 10, 2)
  }

  // ---------- what the scan computes ----------

  lemma ModProduct(a: nat, b: nat)
    ensures a % WORD * b % WORD == a * b % WORD
  {
    var k := a / WORD;
    assert a * b == a % WORD * b + k * b * WORD;
    ModShift(a % WORD * b, k * b);
  }

  lemma ModShift(a: int, k: int)
    ensures (a + k * WORD) % WORD == a % WORD
  {
  }

  lemma ModSum(a: nat, b: nat)
    ensures (a % WORD + b % WORD) % WORD == (a + b) % WORD
  {
  }

  /** Scanning back over digits, whatever their number, gives their positional value in 32-bit arithmetic. */
  lemma {:induction false} ScanIsPositional(s: string, j: nat, i: nat, stop: char, base: nat, mult: nat, ucs: nat)
    requires j <= i < |s| && s[j] == stop && Digit(stop, base).None?
    requires AllDigits(s[j + 1..i + 1], base)
    ensures ScanBack(s, i, stop, base, mult, ucs % WORD)
         == Some((ucs + mult * Positional(s[j + 1..i + 1], base)) % WORD)
  {
    hide Positional, AllDigits, Digit, ScanBack;
    LastDigit(s, j, i, base);
    StopTurn(s, j, stop, base, mult, ucs % WORD);
    if i > j {
      var d, high := Digit(s[i], base).value, Positional(s[j + 1..i], base);
      ScanTurn(s, i, stop, base, mult, ucs % WORD);
      ScanIsPositional(s, j, i - 1, stop, base, mult * base % WORD, ucs + mult * d);
      ScanStep(mult, base, d, high, ucs);
    }
  }

  lemma ScanTurn(s: string, i: nat, stop: char, base: nat, mult: nat, ucs: nat)
    requires 0 < i < |s| && Digit(stop, base).None? && Digit(s[i], base).Some? && exists j :: 0 <= j < i && s[j] == stop
    ensures ScanBack(s, i, stop, base, mult, ucs)
         == ScanBack(s, i - 1, stop, base, mult * base % WORD, (ucs + mult * Digit(s[i], base).value % WORD) % WORD)
  {
    hide Digit;
  }

  lemma StopTurn(s: string, j: nat, stop: char, base: nat, mult: nat, ucs: nat)
    requires j < |s| && s[j] == stop
    ensures ScanBack(s, j, stop, base, mult, ucs) == Some(ucs)
  {
  }

  lemma LastDigit(s: string, j: nat, i: nat, base: nat)
    requires j <= i < |s| && AllDigits(s[j + 1..i + 1], base)
    ensures i == j ==> Positional(s[j + 1..i + 1], base) == 0
    ensures i > j ==>
      && Digit(s[i], base).Some? && AllDigits(s[j + 1..i], base)
      && Positional(s[j + 1..i + 1], base) == Positional(s[j + 1..i], base) * base + Digit(s[i], base).value
  {
    hide Digit;
    var ds := s[j + 1..i + 1];
    if i > j {
      assert ds[|ds| - 1] == s[i] && ds[..|ds| - 1] == s[j + 1..i];
    } else {
      assert ds == [];
    }
  }

  lemma ScanStep(mult: nat, base: nat, d: nat, high: nat, ucs: nat)
    ensures (ucs % WORD + mult * d % WORD) % WORD == (ucs + mult * d) % WORD
    ensures (ucs + mult * d + mult * base % WORD * high) % WORD == (ucs + mult * (high * base + d)) % WORD
  {
    ModSum(ucs, mult * d);
    ModProduct(mult * base, high);
    ModSum(ucs + mult * d, mult * base % WORD * high);
    ModSum(ucs + mult * d, mult * base * high);
    assert mult * (high * base + d) == mult * base * high + mult * d;
  }

  function Reference(hex: bool, digits: string): string {
    (if hex then "&#x" else "&#") + digits + ";"
  }

  function Base(hex: bool): nat {
    if hex then 16 else 10
  }

  lemma DigitsAreNotStops(digits: string, hex: bool)
    requires AllDigits(digits, Base(hex))
    ensures forall i :: 0 <= i < |digits| ==> digits[i] != ';' && digits[i] != '#' && digits[i] != 'x'
  {
    assert forall i :: 0 <= i < |digits| ==> Digit(digits[i], Base(hex)).Some?;
  }

  /** How a reference lies in the text: the scan starts at its semicolon and stops right before its digits. */
  lemma ReferenceLayout(hex: bool, digits: string, rest: string) returns (from: nat)
    requires AllDigits(digits, Base(hex))
    ensures var s := Reference(hex, digits) + rest;
      && |s| >= 3 && s[1] == '#' && from == |Reference(hex, digits)| - |digits| - 1
      && RefForm(s) == (if hex then 'x' else '#', Base(hex), from)
      && from + |digits| < |s| && s[from..from + |digits|] == digits
      && s[from..] == digits + ([';'] + rest)
  {
    var s := Reference(hex, digits) + rest;
    DigitsAreNotStops(digits, hex);
    from := if hex then 3 else 2;
    assert s[2] == if hex then 'x' else (digits + ";")[0];
    assert s[from..] == digits + ([';'] + rest);
  }

  /** A reference made of digits, of any length, is consumed whole and yields the UTF-8 form of its value in 32-bit
      arithmetic. */
  lemma ReferenceIsRead(hex: bool, digits: string, rest: string)
    requires AllDigits(digits, Base(hex))
    ensures CharacterRef(Reference(hex, digits) + rest)
         == Some((|Reference(hex, digits)|, Utf8(Positional(digits, Base(hex)) % WORD)))
  {
    hide ScanBack, Positional, Utf8, Reference, AllDigits, Digit, IndexOf;
    var s := Reference(hex, digits) + rest;
    var from := ReferenceLayout(hex, digits, rest);
    DigitsAreNotStops(digits, hex);
    SemicolonAfter(digits, rest);
    StopsAreNoDigits();
    var (stop, base, _) := RefForm(s);
    ScanIsPositional(s, from - 1, from + |digits| - 1, stop, base, 1, 0);
  }

  lemma StopsAreNoDigits()
    ensures Digit('x', 16).None? && Digit('#', 10).None?
  {
  }

  lemma SemicolonAfter(digits: string, rest: string)
    requires forall i :: 0 <= i < |digits| ==> digits[i] != ';'
    ensures IndexOf(digits + ([';'] + rest), ';') == Some(|digits|)
  {
    var s := digits + ([';'] + rest);
    assert s[|digits|] == ';';
    var r := IndexOf(s, ';');
    assert forall i :: 0 <= i < |digits| ==> s[i] == digits[i];
  }

  lemma {:induction false} PositionalBound(digits: string, base: nat)
    requires AllDigits(digits, base) && base in {10, 16}
    ensures Positional(digits, base) < Pow(base, |digits|)
  {
    if digits != [] {
      PositionalBound(digits[..|digits| - 1], base);
    }
  }

  lemma PowBound(hex: bool, n: nat)
    requires n <= if hex then 7 else 9
    ensures Pow(Base(hex), n) < WORD
  {
    var b := Base(hex);
    assert Pow(b, 0) == 1 && Pow(b, 1) == b && Pow(b, 2) == b * b;
    assert Pow(b, 3) == Pow(b, 2) * b && Pow(b, 4) == Pow(b, 3) * b && Pow(b, 5) == Pow(b, 4) * b;
    assert Pow(b, 6) == Pow(b, 5) * b && Pow(b, 7) == Pow(b, 6) * b;
    assert !hex ==> Pow(b, 8) == Pow(b, 7) * b && Pow(b, 9) == Pow(b, 8) * b;
  }

  /** Up to seven hexadecimal or nine decimal digits nothing wraps: the reference stands for its value. */
  lemma ShortReferenceIsExact(hex: bool, digits: string, rest: string)
    requires AllDigits(digits, Base(hex)) && |digits| <= if hex then 7 else 9
    ensures CharacterRef(Reference(hex, digits) + rest)
         == Some((|Reference(hex, digits)|, Utf8(Positional(digits, Base(hex)))))
  {
    ReferenceIsRead(hex, digits, rest);
    NoWrap(hex, digits);
  }

  lemma NoWrap(hex: bool, digits: string)
    requires AllDigits(digits, Base(hex)) && |digits| <= if hex then 7 else 9
    ensures Positional(digits, Base(hex)) % WORD == Positional(digits, Base(hex))
  {
    PositionalBound(digits, Base(hex));
    PowBound(hex, |digits|);
  }
}
