/** Which characters references and entities stand for (drivers/Mach3/tinyxml2.cpp:44-65, 300-346, 456-549). */
module XmlReferences {
  import opened XmlUtil
  import opened CharacterRefs
  import opened Utf8Codec
  import opened XmlText
  import opened XmlEscape
  import opened XmlRoundTrip

  // ---------- numbers ----------

  const LOWER := "0123456789abcdef"
  const UPPER := "0123456789ABCDEF"

  /** `n` as it is written in base 10, and in base 16. */
  function Decimal(n: nat): string {
    (if n < 10 then "" else Decimal(n / 10)) + [LOWER[n % 10]]
  }

  function Hexadecimal(n: nat, digits: string): string
    requires |digits| == 16
  {
    (if n < 16 then "" else Hexadecimal(n / 16, digits)) + [digits[n % 16]]
  }

  /** The sixteen digits, from 0 on. */
  predicate Digits(digits: string) {
    |digits| == 16 && forall d :: 0 <= d < 16 ==> Digit(digits[d], 16) == Some(d)
  }

  lemma DigitsAre(d: nat)
    ensures d < 10 ==> Digit(LOWER[d], 10) == Some(d)
    ensures d < 16 ==> Digit(LOWER[d], 16) == Some(d) && Digit(UPPER[d], 16) == Some(d)
  {
  }

  lemma SmallAndCapitalDigits()
    ensures Digits(LOWER) && Digits(UPPER)
  {
    hide Digit;
    forall d: nat | d < 16
      ensures Digit(LOWER[d], 16) == Some(d) && Digit(UPPER[d], 16) == Some(d)
    {
      DigitsAre(d);
    }
  }

  lemma {:induction false} DecimalIsPositional(n: nat)
    ensures AllDigits(Decimal(n), 10) && Positional(Decimal(n), 10) == n
  {
    hide Digit, Positional, AllDigits;
    var q, d := n / 10, n % 10;
    assert n == q * 10 + d && (n < 10 ==> q == 0);
    var high := if n < 10 then "" else Decimal(q);
    DigitsAre(d);
    NoDigits(10);
    if n >= 10 {
      DecimalIsPositional(q);
    }
    OneDigitMore(high, LOWER[d], 10);
  }

  lemma {:induction false} HexadecimalIsPositional(n: nat, digits: string)
    requires Digits(digits)
    ensures AllDigits(Hexadecimal(n, digits), 16) && Positional(Hexadecimal(n, digits), 16) == n
  {
    hide Digit, Positional, AllDigits;
    var high := if n < 16 then "" else Hexadecimal(n / 16, digits);
    NoDigits(16);
    if n >= 16 {
      HexadecimalIsPositional(n / 16, digits);
    }
    OneDigitMore(high, digits[n % 16], 16);
  }

  lemma NoDigits(base: nat)
    ensures AllDigits("", base) && Positional("", base) == 0
  {
  }

  lemma OneDigitMore(high: string, c: char, base: nat)
    requires AllDigits(high, base) && Digit(c, base).Some?
    ensures AllDigits(high + [c], base)
    ensures Positional(high + [c], base) == Positional(high, base) * base + Digit(c, base).value
  {
    hide Digit;
    var s := high + [c];
    assert s[..|s| - 1] == high && s[|s| - 1] == c;
  }

  /** Every number is read in decimal, and in hexadecimal with letters of either case, as its UTF-8 form, in 32 bits. */
  lemma NumberIsRead(n: nat, rest: string)
    ensures var d := Decimal(n);
      CharacterRef("&#" + d + ";" + rest) == Some((|d| + 3, Utf8(n % 0x1_0000_0000)))
    ensures var x := Hexadecimal(n, LOWER);
      CharacterRef("&#x" + x + ";" + rest) == Some((|x| + 4, Utf8(n % 0x1_0000_0000)))
    ensures var x := Hexadecimal(n, UPPER);
      CharacterRef("&#x" + x + ";" + rest) == Some((|x| + 4, Utf8(n % 0x1_0000_0000)))
  {
    hide CharacterRef, Utf8, Positional, Decimal, Hexadecimal;
    DecimalIsPositional(n);
    SmallAndCapitalDigits();
    HexadecimalIsPositional(n, LOWER);
    HexadecimalIsPositional(n, UPPER);
    ReferenceIsRead(false, Decimal(n), rest);
    ReferenceIsRead(true, Hexadecimal(n, LOWER), rest);
    ReferenceIsRead(true, Hexadecimal(n, UPPER), rest);
  }

  /** What begins a reference, and the character a number is read back to. */
  function Lead(hex: bool): string {
    if hex then "&#x" else "&#"
  }

  function StopOf(hex: bool): char {
    if hex then 'x' else '#'
  }

  /** A reference with something before its number. */
  function Odd(hex: bool, junk: string, c: char, digits: string, rest: string): string {
    Lead(hex) + junk + [c] + digits + ";" + rest
  }

  /** The places in it: the semicolon, the character before the digits, and where the scan may begin. */
  lemma OddLayout(hex: bool, junk: string, c: char, digits: string, rest: string) returns (j: nat, i: nat)
    requires Lacks(junk + [c] + digits, ';') && (!hex ==> (junk + [c])[0] != 'x')
    ensures var s := Odd(hex, junk, c, digits, rest);
      && j == |Lead(hex)| + |junk| && i == j + |digits| && 2 <= j <= i < |s| - 1 && s[1] == '#' && |s| >= 3
      && s[j] == c && s[j + 1..i + 1] == digits
      && RefForm(s) == (StopOf(hex), Base(hex), |Lead(hex)|)
      && IndexOf(s[|Lead(hex)|..], ';') == Some(i + 1 - |Lead(hex)|)
  {
    var s := Odd(hex, junk, c, digits, rest);
    j := |Lead(hex)| + |junk|;
    i := j + |digits|;
    var text := junk + [c] + digits;
    assert s == Lead(hex) + (text + (";" + rest));
    assert s[|Lead(hex)|..] == text + ([';'] + rest);
    SemicolonAfter(text, rest);
    assert s[2] == if hex then 'x' else (junk + [c])[0];
    OddDigits(hex, junk, c, digits, rest);
  }

  lemma OddDigits(hex: bool, junk: string, c: char, digits: string, rest: string)
    ensures var s, j := Odd(hex, junk, c, digits, rest), |Lead(hex)| + |junk|;
      j + 1 + |digits| < |s| && s[j] == c && s[j + 1..j + 1 + |digits|] == digits
  {
    hide Lead;
    var before := Lead(hex) + junk + [c];
    assert Odd(hex, junk, c, digits, rest) == before + digits + (";" + rest);
    assert before[|before| - 1] == c;
  }

  /** The scan goes back to the nearest mark: only the digits after it count, and what is before them is passed over. */
  lemma LastNumberIsRead(hex: bool, junk: string, digits: string, rest: string)
    requires AllDigits(digits, Base(hex)) && Lacks(junk, ';') && (!hex && junk != "" ==> junk[0] != 'x')
    ensures var s := Odd(hex, junk, StopOf(hex), digits, rest);
      |s| >= 2 && s[1] == '#'
      && CharacterRef(s) == Some((|s| - |rest|, Utf8(Positional(digits, Base(hex)) % 0x1_0000_0000)))
  {
    hide Utf8, ScanBack, Positional, Digit, IndexOf, RefForm, Odd;
    DigitsAreNotStops(digits, hex);
    var s := Odd(hex, junk, StopOf(hex), digits, rest);
    LacksAll(junk, StopOf(hex), digits);
    var j, i := OddLayout(hex, junk, StopOf(hex), digits, rest);
    OddLength(hex, junk, StopOf(hex), digits, rest);
    StopsAreNoDigits();
    ScanIsPositional(s, j, i, StopOf(hex), Base(hex), 1, 0);
  }

  lemma OddLength(hex: bool, junk: string, c: char, digits: string, rest: string)
    ensures |Odd(hex, junk, c, digits, rest)| == |Lead(hex)| + |junk| + 1 + |digits| + 1 + |rest|
  {
  }

  lemma LacksAll(junk: string, c: char, digits: string)
    requires Lacks(junk, ';') && c != ';' && (forall i :: 0 <= i < |digits| ==> digits[i] != ';')
    ensures Lacks(junk + [c] + digits, ';')
  {
  }

  /** A character that is no digit stops the scan. */
  lemma {:induction false} ScanRefuses(s: string, j: nat, i: nat, stop: char, base: nat, mult: nat, ucs: nat)
    requires j <= i < |s| && s[j] != stop && Digit(s[j], base).None? && AllDigits(s[j + 1..i + 1], base)
    requires Digit(stop, base).None? && exists k :: 0 <= k <= j && s[k] == stop
    ensures ScanBack(s, i, stop, base, mult, ucs).None?
    decreases i
  {
    hide Digit, Positional;
    if i > j {
      LastDigit(s, j, i, base);
      var d := Digit(s[i], base).value;
      var k :| 0 <= k <= j && s[k] == stop;
      assert 0 <= k < i;
      ScanTurn(s, i, stop, base, mult, ucs);
      ScanRefuses(s, j, i - 1, stop, base, mult * base % WORD, (ucs + mult * d % WORD) % WORD);
    }
  }

  /** A reference with such a character right before its last digits is none, and neither is one without a semicolon. */
  lemma OddIsRefused(hex: bool, junk: string, c: char, digits: string, rest: string)
    requires AllDigits(digits, Base(hex)) && Lacks(junk, ';') && c != ';' && (!hex ==> (junk + [c])[0] != 'x')
    requires c != StopOf(hex) && Digit(c, Base(hex)).None?
    ensures var s := Odd(hex, junk, c, digits, rest); |s| >= 2 && s[1] == '#' && CharacterRef(s).None?
  {
    hide Utf8, ScanBack, Positional, Digit, IndexOf, RefForm, Odd;
    DigitsAreNotStops(digits, hex);
    var s := Odd(hex, junk, c, digits, rest);
    LacksAll(junk, c, digits);
    var j, i := OddLayout(hex, junk, c, digits, rest);
    StopsAreNoDigits();
    StopBefore(hex, junk, c, digits, rest);
    ScanRefuses(s, j, i, StopOf(hex), Base(hex), 1, 0);
  }

  lemma StopBefore(hex: bool, junk: string, c: char, digits: string, rest: string)
    ensures var s := Odd(hex, junk, c, digits, rest);
      |s| > |Lead(hex)| && s[|Lead(hex)| - 1] == StopOf(hex)
  {
  }

  lemma UnendedIsRefused(s: string)
    requires |s| >= 3 && s[1] == '#' && Lacks(s, ';')
    ensures CharacterRef(s).None?
  {
    var from := RefForm(s).2;
    assert forall i :: 0 <= i < |s[from..]| ==> s[from..][i] == s[from + i];
  }

  // ---------- what they decode to ----------

  /** A reference that stands for something, and one that does not: then the ampersand stands for itself. At the very
      end the ampersand before the hash is lost. */
  lemma ReferenceDecodes(s: string)
    requires |s| >= 2 && s[0] == '&' && s[1] == '#'
    ensures var r := CharacterRef(s);
      && (r.Some? ==> Decode(TEXT, s) == r.value.1 + Decode(TEXT, s[r.value.0..]))
      && (r.None? ==> Decode(TEXT, s) == "&" + Decode(TEXT, s[1..]))
    ensures Decode(TEXT, "&#") == "#"
  {
    assert "&#"[1..] == "#" && "#"[1..] == "" && "" + "#" == "#" && "#" + "" == "#";
    assert Decode(TEXT, "") == "";
    assert NextToken(TEXT, "#") == Emit(1, "#");
    assert CharacterRef("&#") == Some((1, ""));
  }

  /** The five named entities. */
  lemma EntitiesDecode(rest: string)
    ensures Decode(TEXT, "&quot;" + rest) == "\"" + Decode(TEXT, rest)
    ensures Decode(TEXT, "&amp;" + rest) == "&" + Decode(TEXT, rest)
    ensures Decode(TEXT, "&apos;" + rest) == "'" + Decode(TEXT, rest)
    ensures Decode(TEXT, "&lt;" + rest) == "<" + Decode(TEXT, rest)
    ensures Decode(TEXT, "&gt;" + rest) == ">" + Decode(TEXT, rest)
  {
    hide Decode;
    EntityDecodes("quot", '\"', rest);
    EntityDecodes("amp", '&', rest);
    EntityDecodes("apos", '\'', rest);
    EntityDecodes("lt", '<', rest);
    EntityDecodes("gt", '>', rest);
    assert "&" + "quot" + ";" == "&quot;" && "&" + "amp" + ";" == "&amp;" && "&" + "apos" + ";" == "&apos;";
    assert "&" + "lt" + ";" == "&lt;" && "&" + "gt" + ";" == "&gt;";
  }

  lemma EntityDecodes(name: string, c: char, rest: string)
    requires (name, c) in [("quot", '\"'), ("amp", '&'), ("apos", '\''), ("lt", '<'), ("gt", '>')]
    ensures Decode(TEXT, "&" + name + ";" + rest) == [c] + Decode(TEXT, rest)
  {
    hide NextToken;
    EntityIsToken(name, c, rest);
    var s := "&" + name + ";" + rest;
    assert s[|name| + 2..] == rest;
  }

  lemma EntityIsToken(name: string, c: char, rest: string)
    requires (name, c) in [("quot", '\"'), ("amp", '&'), ("apos", '\''), ("lt", '<'), ("gt", '>')]
    ensures NextToken(TEXT, "&" + name + ";" + rest) == Emit(|name| + 2, [c])
  {
    hide NamedEntity, CharacterRef;
    var s := "&" + name + ";" + rest;
    assert s[1..] == name + ";" + rest && s[1] == name[0];
    assert name == Pattern(c);
    assert s[1..][..|name| + 1] == name + ";";
    EntityOf(c, s[1..]);
  }

  /** Any other ampersand, if no hash follows it, stands for itself. */
  lemma UnknownDecodes(s: string)
    requires s != "" && s[0] == '&' && !("&#" <= s) && forall k :: 0 <= k < 5 ==> !(ENTITIES[k] <= s)
    ensures NextToken(TEXT, s) == Skip && Decode(TEXT, s) == "&" + Decode(TEXT, s[1..])
  {
    if |s| > 1 {
      assert s[..2] == [s[0], s[1]];
    }
    NotThat(s, "quot;", 0);
    NotThat(s, "amp;", 1);
    NotThat(s, "apos;", 2);
    NotThat(s, "lt;", 3);
    NotThat(s, "gt;", 4);
  }

  lemma NotThat(s: string, pattern: string, k: nat)
    requires s != "" && s[0] == '&' && k < 5 && ENTITIES[k] == "&" + pattern && !(ENTITIES[k] <= s)
    ensures !(pattern <= s[1..])
  {
    assert s == "&" + s[1..];
    PrefixCancels("&", pattern, s[1..]);
  }
}
