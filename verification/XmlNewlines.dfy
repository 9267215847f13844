/** How line ends are read: carriage return and line feed, in either order, or one of them alone, make one line feed
    (drivers/Mach3/tinyxml2.cpp:276-299). */
module XmlNewlines {
  import opened XmlUtil
  import opened XmlText
  import opened XmlEscape
  import opened XmlTree
  import opened XmlGrammar
  import opened XmlPrint
  import opened XmlRoundTrip
  import opened XmlSpans

  predicate OneLine(s: string) {
    forall i :: 0 <= i < |s| ==> s[i] != '\r' && s[i] != '\n'
  }

  /** A line end, and what follows it is no second half of it. */
  predicate LineEnd(e: string, rest: string) {
    || e == "\r\n" || e == "\n\r"
    || (e == "\r" && (rest == "" || rest[0] != '\n')) || (e == "\n" && (rest == "" || rest[0] != '\r'))
  }

  lemma OrdinaryToken(s: string)
    requires s != [] && s[0] != '\r' && s[0] != '\n'
    ensures NextToken(NEWLINES, s) == Emit(1, [s[0]])
  {
  }

  lemma EndToken(e: string, rest: string)
    requires LineEnd(e, rest)
    ensures e + rest != "" && NextToken(NEWLINES, e + rest) == Emit(|e|, "\n")
  {
    var s := e + rest;
    assert |e| == 1 && rest != "" ==> s[1] == rest[0];
  }

  /** Every line end is read as one line feed, and the lines as they are: with DecodesOneLine, this gives what any
      string decodes to. */
  lemma {:induction false} LineEndIsRead(line: string, e: string, rest: string)
    requires OneLine(line) && LineEnd(e, rest)
    ensures Decode(NEWLINES, line + (e + rest)) == line + ("\n" + Decode(NEWLINES, rest))
  {
    hide NextToken;
    var s := line + (e + rest);
    if line == "" {
      assert s == e + rest;
      EndToken(e, rest);
      assert s[|e|..] == rest;
    } else {
      OrdinaryToken(s);
      assert s[1..] == line[1..] + (e + rest);
      LineEndIsRead(line[1..], e, rest);
      assert [s[0]] + (line[1..] + ("\n" + Decode(NEWLINES, rest))) == line + ("\n" + Decode(NEWLINES, rest));
    }
  }

  lemma {:induction false} DecodesOneLine(line: string)
    requires OneLine(line)
    ensures Decode(NEWLINES, line) == line
  {
    hide NextToken;
    if line != "" {
      OrdinaryToken(line);
      DecodesOneLine(line[1..]);
    }
  }

  /** `s` with each line feed written as `e`. */
  function WithEnds(s: string, e: string): string {
    if s == "" then "" else (if s[0] == '\n' then e else [s[0]]) + WithEnds(s[1..], e)
  }

  /** The rest of such a string begins with no second half of a line end. */
  lemma EndsApart(s: string, e: string)
    requires NoCR(s) && e in ["\r\n", "\r", "\n\r"]
    ensures var w := WithEnds(s, e); w != "" && (e == "\r" || e == "\r\n") ==> w[0] != '\n'
    ensures LineEnd(e, WithEnds(s, e))
  {
  }

  /** Windows line ends, old Macintosh ones, and the reverse of the former are all read as line feeds. */
  lemma {:induction false} AllEndsAreRead(s: string, e: string)
    requires NoCR(s) && e in ["\r\n", "\r", "\n\r"]
    ensures Decode(NEWLINES, WithEnds(s, e)) == s
  {
    hide NextToken, Decode;
    if s == "" {
      DecodesOneLine("");
    } else {
      var rest := WithEnds(s[1..], e);
      AllEndsAreRead(s[1..], e);
      if s[0] == '\n' {
        EndsApart(s[1..], e);
        LineEndIsRead("", e, rest);
        assert "" + (e + rest) == e + rest && "" + ("\n" + s[1..]) == s;
      } else {
        FirstIsRead(s[0], rest);
        assert [s[0]] + s[1..] == s;
      }
    }
  }

  lemma FirstIsRead(c: char, rest: string)
    requires c != '\r' && c != '\n'
    ensures Decode(NEWLINES, [c] + rest) == [c] + Decode(NEWLINES, rest)
  {
    hide NextToken;
    OrdinaryToken([c] + rest);
    assert ([c] + rest)[1..] == rest;
  }

  /** Entities are written over the same line ends. */
  lemma {:induction false} EscapeKeepsEnds(restricted: bool, s: string, e: string)
    requires e in ["\r\n", "\r", "\n\r"]
    ensures Escape(restricted, WithEnds(s, e)) == WithEnds(Escape(restricted, s), e)
  {
    hide Escape;
    if s == "" {
      NothingEscaped(restricted);
    } else {
      var head := if s[0] == '\n' then e else [s[0]];
      EscapeKeepsEnds(restricted, s[1..], e);
      EscapeJoins(restricted, head, WithEnds(s[1..], e));
      assert s == [s[0]] + s[1..];
      EscapeJoins(restricted, [s[0]], s[1..]);
      EndsJoin(Escape(restricted, [s[0]]), Escape(restricted, s[1..]), e);
      HeadKeepsEnds(restricted, s[0], e);
    }
  }

  lemma NothingEscaped(restricted: bool)
    ensures Escape(restricted, "") == ""
  {
  }

  lemma {:induction false} EndsJoin(a: string, b: string, e: string)
    ensures WithEnds(a + b, e) == WithEnds(a, e) + WithEnds(b, e)
  {
    if a == "" {
      assert a + b == b;
    } else {
      assert (a + b)[1..] == a[1..] + b;
      EndsJoin(a[1..], b, e);
      var head := if a[0] == '\n' then e else [a[0]];
      assert head + (WithEnds(a[1..], e) + WithEnds(b, e)) == WithEnds(a, e) + WithEnds(b, e);
    }
  }

  lemma HeadKeepsEnds(restricted: bool, c: char, e: string)
    requires e in ["\r\n", "\r", "\n\r"]
    ensures WithEnds(Escape(restricted, [c]), e) == Escape(restricted, if c == '\n' then e else [c])
  {
    hide Escape;
    if c == '\n' {
      EndEscaped(restricted, e);
      EscapedOne(restricted, c);
      OneEnd(e);
    } else {
      OneLineEscaped(restricted, c);
      NoEnds(Escape(restricted, [c]), e);
    }
  }

  lemma EndEscaped(restricted: bool, e: string)
    requires e in ["\r\n", "\r", "\n\r"]
    ensures Escape(restricted, e) == e
  {
    hide Escape;
    EscapedOne(restricted, '\r');
    EscapedOne(restricted, '\n');
    EscapeJoins(restricted, "\r", "\n");
    EscapeJoins(restricted, "\n", "\r");
    assert "\r" + "\n" == "\r\n" && "\n" + "\r" == "\n\r" && ['\r'] == "\r" && ['\n'] == "\n";
  }

  lemma OneEnd(e: string)
    ensures WithEnds("\n", e) == e
  {
    assert "\n"[1..] == "" && e + "" == e;
    assert WithEnds("", e) == "";
  }

  lemma OneLineEscaped(restricted: bool, c: char)
    requires c != '\n'
    ensures forall i :: 0 <= i < |Escape(restricted, [c])| ==> Escape(restricted, [c])[i] != '\n'
  {
    EscapedOne(restricted, c);
  }

  lemma {:induction false} NoEnds(s: string, e: string)
    requires forall i :: 0 <= i < |s| ==> s[i] != '\n'
    ensures WithEnds(s, e) == s
  {
    if s != "" {
      NoEnds(s[1..], e);
    }
  }

  /** With entities as well: what was printed reads back whatever its line ends have become. */
  lemma EscapedEndsAreRead(restricted: bool, s: string, e: string)
    requires NoCR(s) && NoNul(s) && e in ["\r\n", "\r", "\n\r"]
    ensures Decode(TEXT, WithEnds(Escape(restricted, s), e)) == s
    ensures Value(TEXT, WithEnds(Escape(restricted, s), e)) == s
  {
    hide Escape, Decode, Value;
    EscapeKeepsEnds(restricted, s, e);
    DecodeInvertsEscape(restricted, WithEnds(s, e));
    AllEndsAreRead(s, e);
    EndsHaveNoNul(s, e);
    EscapedValue(restricted, WithEnds(s, e));
  }

  lemma {:induction false} EndsHaveNoNul(s: string, e: string)
    requires NoNul(s) && NoNul(e)
    ensures NoNul(WithEnds(s, e))
  {
    if s != "" {
      EndsHaveNoNul(s[1..], e);
    }
  }

  // ---------- whole files ----------

  /** A text as it is written in a file, with the line ends `e`. */
  function WrittenText(o: Options, v: string, e: string): string {
    WithEnds(PrintString(o.processEntities, true, v), e)
  }

  lemma {:induction false} EndsLack(s: string, e: string, c: char)
    requires Lacks(s, c) && Lacks(e, c)
    ensures Lacks(WithEnds(s, e), c)
  {
    if s != "" {
      EndsLack(s[1..], e, c);
    }
  }

  lemma {:induction false} EndsAreBlank(s: string, e: string)
    requires e in ["\r\n", "\r", "\n\r"]
    ensures XmlText.SkipWhiteSpace(s) != [] ==> XmlText.SkipWhiteSpace(WithEnds(s, e)) != []
  {
    if s != "" {
      var w := WithEnds(s[1..], e);
      EndsAreBlank(s[1..], e);
      if s[0] == '\n' {
        SkipsEnd(e, w);
      } else {
        assert ([s[0]] + w)[1..] == w;
      }
    }
  }

  lemma SkipsEnd(e: string, w: string)
    requires e in ["\r\n", "\r", "\n\r"]
    ensures XmlText.SkipWhiteSpace(e + w) == XmlText.SkipWhiteSpace(w)
  {
    assert (e + w)[1..] == e[1..] + w;
    if |e| == 2 {
      assert (e[1..] + w)[1..] == w && (e[1..] + w)[0] == e[1];
    } else {
      assert e[1..] + w == w;
    }
  }

  /** What is read of it. */
  lemma WrittenValue(o: Options, v: string, e: string)
    requires TextOk(o, v) && e in ["\r\n", "\r", "\n\r"]
    ensures Value(TextFlags(o), WrittenText(o, v, e)) == v
  {
    hide Rewrite, Escape, Decode, Collapse, XmlText.SkipWhiteSpace, WithEnds;
    var w := WrittenText(o, v, e);
    CollapseFlagOnlyCollapses(o.processEntities, w, 0, "");
    if o.processEntities {
      EscapedEndsAreRead(true, v, e);
    } else {
      AllEndsAreRead(v, e);
      EndsNeverSkip(w);
      ValueIsMeaning(NEWLINES, w);
    }
  }

  lemma {:induction false} EndsNeverSkip(s: string)
    ensures NeverSkips(NEWLINES, s)
    decreases |s|
  {
    hide NextToken;
    if s != "" {
      NoSkip(s);
      EndsNeverSkip(s[NextToken(NEWLINES, s).used..]);
    }
  }

  lemma NoSkip(s: string)
    requires s != ""
    ensures NextToken(NEWLINES, s).Emit?
  {
  }

  /** A file holds the same document whichever line ends it was saved with. */
  lemma LineEndsDoNotMatter(o: Options, name: string, v: string, e: string)
    requires IsName(name) && TextOk(o, v) && e in ["\r\n", "\r", "\n\r"]
    ensures Parse(o, Around(name, WrittenText(o, v, e))) == Ok(OneText(name, v))
    ensures Parse(o, Around(name, PrintString(o.processEntities, true, v))) == Ok(OneText(name, v))
  {
    hide Parse, Around, Value, PrintString, XmlText.SkipWhiteSpace, WithEnds, OneText, Collapse, IsPlain, IsName;
    var w := PrintString(o.processEntities, true, v);
    PrintedIsText(o, v);
    TextValue(o, v);
    AroundIsRead(o, name, w);
    EndsLack(w, e, '<');
    EndsAreBlank(w, e);
    WrittenValue(o, v, e);
    AroundIsRead(o, name, WrittenText(o, v, e));
  }

  lemma PrintedIsText(o: Options, v: string)
    requires TextOk(o, v)
    ensures var w := PrintString(o.processEntities, true, v); Lacks(w, '<') && XmlText.SkipWhiteSpace(w) != []
  {
    hide Collapse, Escape;
    var w := PrintString(o.processEntities, true, v);
    if o.processEntities {
      EscapeLacks(true, v, '<');
    }
    SignificantText(o.processEntities, v, "");
    assert w + "" == w;
  }
}
