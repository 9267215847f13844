/** The printer's escaping (drivers/Mach3/tinyxml2.cpp:2494-2546) and its inverse, the decoding of a span. */
module XmlEscape {
  import opened XmlUtil
  import opened XmlText

  /** The entities flagged for escaping: all five in attribute values, three in text (`restricted`). */
  predicate IsFlagged(restricted: bool, c: char) {
    c == '&' || c == '<' || c == '>' || (!restricted && (c == '\"' || c == '\''))
  }

  /** The pattern written for a flagged character, between an ampersand and a semicolon. */
  function Pattern(c: char): string {
    if c == '\"' then "quot"
    else if c == '&' then "amp"
    else if c == '\'' then "apos"
    else if c == '<' then "lt"
    else "gt"
  }

  function EntityText(c: char): (r: string)
    ensures r != []
  {
    "&" + Pattern(c) + ";"
  }

  function EscapeChar(restricted: bool, c: char): (r: string)
    ensures r != []
  {
    if IsFlagged(restricted, c) then EntityText(c) else [c]
  }

  /** What PrintString writes for `s`. */
  function Escape(restricted: bool, s: string): (r: string)
    ensures |r| >= |s|
  {
    if s == [] then [] else EscapeChar(restricted, s[0]) + Escape(restricted, s[1..])
  }

  const TEXT := Flags(true, true, false)

  predicate Lacks(s: string, c: char) {
    forall i :: 0 <= i < |s| ==> s[i] != c
  }

  /** Escaping introduces no character other than those of the five patterns, and leaves no flagged character but the
      ampersand: no `<` ever, and no quote in an attribute value. */
  lemma {:induction false} EscapeLacks(restricted: bool, s: string, c: char)
    requires c == '<' || (!restricted && (c == '\"' || c == '\'')) || (c in [NUL, CR] && Lacks(s, c))
    ensures Lacks(Escape(restricted, s), c)
  {
    if s != [] {
      EscapeLacks(restricted, s[1..], c);
      assert Lacks(EscapeChar(restricted, s[0]), c);
    }
  }

  // ---------- what is written, character by character ----------

  /** The five entities as they are written. */
  const ENTITIES: seq<string> := ["&quot;", "&amp;", "&apos;", "&lt;", "&gt;"]

  /** Each character is written by itself. */
  lemma {:induction false} EscapeJoins(restricted: bool, a: string, b: string)
    ensures Escape(restricted, a + b) == Escape(restricted, a) + Escape(restricted, b)
  {
    hide EscapeChar;
    if a == [] {
      assert a + b == b;
    } else {
      assert (a + b)[1..] == a[1..] + b;
      EscapeJoins(restricted, a[1..], b);
      assert EscapeChar(restricted, a[0]) + (Escape(restricted, a[1..]) + Escape(restricted, b))
          == Escape(restricted, a) + Escape(restricted, b);
    }
  }

  /** The ampersand and the angle brackets are written as entities, quotes only in attribute values, and every other
      character as it is. */
  lemma EscapedOne(restricted: bool, c: char)
    ensures var r := Escape(restricted, [c]);
      && (c == '&' ==> r == "&amp;") && (c == '<' ==> r == "&lt;") && (c == '>' ==> r == "&gt;")
      && (c == '\"' ==> r == if restricted then "\"" else "&quot;")
      && (c == '\'' ==> r == if restricted then "'" else "&apos;")
      && (c !in "&<>\"'" ==> r == [c])
  {
    assert [c][1..] == [] && EscapeChar(restricted, c) + "" == EscapeChar(restricted, c);
  }

  /** Every character stands in the output, between what is written for those before it and after it. */
  lemma EscapedAt(restricted: bool, s: string, i: nat)
    requires i < |s|
    ensures Escape(restricted, s)
         == Escape(restricted, s[..i]) + Escape(restricted, [s[i]]) + Escape(restricted, s[i + 1..])
  {
    hide Escape;
    assert s == s[..i] + [s[i]] + s[i + 1..];
    EscapeJoins(restricted, s[..i] + [s[i]], s[i + 1..]);
    EscapeJoins(restricted, s[..i], [s[i]]);
  }

  /** Neither bracket is ever written as it is, and neither is a quote in an attribute value. */
  lemma {:induction false} MarksAreEscaped(restricted: bool, s: string)
    ensures forall i :: 0 <= i < |Escape(restricted, s)| ==> Escape(restricted, s)[i] !in "<>"
    ensures !restricted ==> forall i :: 0 <= i < |Escape(restricted, s)| ==> Escape(restricted, s)[i] !in "\"'"
  {
    hide EscapeChar;
    if s != [] {
      MarksAreEscaped(restricted, s[1..]);
      OneIsEscaped(restricted, s[0]);
    }
  }

  lemma OneIsEscaped(restricted: bool, c: char)
    ensures forall i :: 0 <= i < |EscapeChar(restricted, c)| ==> EscapeChar(restricted, c)[i] !in "<>"
    ensures !restricted ==> forall i :: 0 <= i < |EscapeChar(restricted, c)| ==> EscapeChar(restricted, c)[i] !in "\"'"
  {
  }

  /** Every ampersand that is written begins one of the five entities. */
  lemma {:induction false} AmpersandsBeginEntities(restricted: bool, s: string, i: nat)
    requires i < |Escape(restricted, s)| && Escape(restricted, s)[i] == '&'
    ensures exists k :: 0 <= k < 5 && ENTITIES[k] <= Escape(restricted, s)[i..]
  {
    hide EscapeChar;
    var head, rest := EscapeChar(restricted, s[0]), Escape(restricted, s[1..]);
    if i >= |head| {
      AmpersandsBeginEntities(restricted, s[1..], i - |head|);
      assert (head + rest)[i..] == rest[i - |head|..];
    } else {
      var k := AmpersandOfOne(restricted, s[0], i);
      assert (head + rest)[i..] == ENTITIES[k] + rest;
    }
  }

  lemma AmpersandOfOne(restricted: bool, c: char, i: nat) returns (k: nat)
    requires i < |EscapeChar(restricted, c)| && EscapeChar(restricted, c)[i] == '&'
    ensures i == 0 && k < 5 && EscapeChar(restricted, c) == ENTITIES[k]
  {
    k := if c == '\"' then 0 else if c == '&' then 1 else if c == '\'' then 2 else if c == '<' then 3 else 4;
  }

  /** The next two characters decide a token at an unflagged character, so escaping what follows changes nothing. */
  lemma EscapedHead(restricted: bool, s: string)
    requires s != []
    ensures |s| > 1 ==> Escape(restricted, s)[1..] != []
    ensures !IsFlagged(restricted, s[0]) ==>
      Escape(restricted, s)[0] == s[0] && Escape(restricted, s)[1..] == Escape(restricted, s[1..])
    ensures |s| > 1 && !IsFlagged(restricted, s[0]) ==>
      (Escape(restricted, s)[1] == LF <==> s[1] == LF) && (Escape(restricted, s)[1] == CR <==> s[1] == CR)
  {
  }

  lemma EscapedEntity(restricted: bool, c: char, rest: string)
    requires IsFlagged(restricted, c)
    ensures EscapeChar(restricted, c) + rest != []
    ensures NextToken(TEXT, EscapeChar(restricted, c) + rest) == Emit(|EscapeChar(restricted, c)|, [c])
  {
    var e := EscapeChar(restricted, c) + rest;
    assert e[0] == '&' && e[1..] == Pattern(c) + ";" + rest;
    assert e[1..][..|Pattern(c)| + 1] == Pattern(c) + ";";
    assert NamedEntity(e[1..]) == Some(Entity(Pattern(c), c)) by {
      EntityOf(c, e[1..]);
    }
  }

  lemma EntityOf(c: char, s: string)
    requires c in ['\"', '&', '\'', '<', '>'] && Pattern(c) + ";" <= s
    ensures NamedEntity(s) == Some(Entity(Pattern(c), c))
  {
    assert s[0] == Pattern(c)[0] && s[1] == Pattern(c)[1] && s[2] == (Pattern(c) + ";")[2];
  }

  /** Decoding what PrintString wrote gives the string back with its line ends normalised, and takes no Skip. */
  lemma {:induction false} DecodeInvertsEscape(restricted: bool, s: string)
    ensures Decode(TEXT, Escape(restricted, s)) == Decode(NEWLINES, s)
    ensures NeverSkips(TEXT, Escape(restricted, s))
  {
    hide NextToken, EscapeChar;
    if s != [] {
      var e := Escape(restricted, s);
      var t := NextToken(TEXT, e);
      EscapedToken(restricted, s);
      DecodeInvertsEscape(restricted, s[NextToken(NEWLINES, s).used..]);
    }
  }

  /** The first token of the escaped text: it yields what the newline token of the plain text yields, and leaves the
      escape of the rest. */
  lemma EscapedToken(restricted: bool, s: string)
    requires s != []
    ensures var t, u := NextToken(TEXT, Escape(restricted, s)), NextToken(NEWLINES, s);
      && t.Emit? && u.Emit? && t.out == u.out
      && Escape(restricted, s)[t.used..] == Escape(restricted, s[u.used..])
  {
    var e := Escape(restricted, s);
    if IsFlagged(restricted, s[0]) {
      EscapedEntity(restricted, s[0], Escape(restricted, s[1..]));
    } else {
      EscapedHead(restricted, s);
      if NextToken(NEWLINES, s).used == 2 {
        EscapedHead(restricted, s[1..]);
        assert e[2..] == e[1..][1..] && s[2..] == s[1..][1..];
      }
    }
  }

  lemma {:induction false} NothingToNormalise(s: string)
    requires NoCR(s)
    ensures Decode(NEWLINES, s) == s && NeverSkips(NEWLINES, s)
  {
    if s != [] {
      NothingToNormalise(s[1..]);
    }
  }

  lemma {:induction false} NormalisedHasNoNul(s: string)
    requires NoNul(s)
    ensures NoNul(Decode(NEWLINES, s))
  {
    if s != [] {
      NormalisedHasNoNul(s[NextToken(NEWLINES, s).used..]);
    }
  }

  /** Text the printer escaped reads back with its line ends normalised, whatever C string it was. */
  lemma EscapedValue(restricted: bool, s: string)
    requires NoNul(s)
    ensures Value(TEXT, Escape(restricted, s)) == Decode(NEWLINES, s)
    ensures NoCR(s) ==> Value(TEXT, Escape(restricted, s)) == s
  {
    DecodeInvertsEscape(restricted, s);
    ValueIsMeaning(TEXT, Escape(restricted, s));
    NormalisedHasNoNul(s);
    if NoCR(s) {
      NothingToNormalise(s);
    }
  }

  /** Text written raw (comments, CDATA, declarations, and everything when entities are off) reads back as itself. */
  lemma RawValue(s: string)
    requires NoNul(s) && NoCR(s)
    ensures Value(NEWLINES, s) == s
  {
    NothingToNormalise(s);
    ValueIsMeaning(NEWLINES, s);
  }
}
