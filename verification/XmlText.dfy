/** What a string span of the buffer means: entity decoding, newline normalisation and white-space collapsing
    (drivers/Mach3/tinyxml2.cpp:238-365). */
module XmlText {
  import opened XmlUtil
  import opened CharacterRefs

  /** The StrPair flags that change the text of a span. */
  datatype Flags = Flags(entities: bool, newlines: bool, collapse: bool)

  const PLAIN := Flags(false, false, false)
  const NEWLINES := Flags(false, true, false)

  datatype Entity = Entity(pattern: string, value: char)

  /** The named entity whose pattern and semicolon begin `s` (the text after an ampersand), in table order. */
  function NamedEntity(s: string): (e: Option<Entity>)
    ensures e.Some? ==> |e.value.pattern| + 1 <= |s|
  {
    if "quot;" <= s then Some(Entity("quot", '\"'))
    else if "amp;" <= s then Some(Entity("amp", '&'))
    else if "apos;" <= s then Some(Entity("apos", '\''))
    else if "lt;" <= s then Some(Entity("lt", '<'))
    else if "gt;" <= s then Some(Entity("gt", '>'))
    else None
  }

  /** One turn of the GetStr loop: consume `used` characters and write `out`; or `Skip`, the branch for an ampersand
      that starts no known entity, which moves both cursors on by one and writes nothing. */
  datatype Token = Emit(used: nat, out: string) | Skip

  function NextToken(f: Flags, s: string): (t: Token)
    requires s != []
    ensures t.Emit? ==> 1 <= t.used <= |s| && |t.out| <= t.used
  {
    if f.newlines && s[0] == CR then Emit(if |s| > 1 && s[1] == LF then 2 else 1, [LF])
    else if f.newlines && s[0] == LF then Emit(if |s| > 1 && s[1] == CR then 2 else 1, [LF])
    else if f.entities && s[0] == '&' then
      if |s| > 1 && s[1] == '#' then
        match CharacterRef(s)
        case None => Emit(1, "&")
        case Some(r) => Emit(r.0, r.1)
      else
        match NamedEntity(s[1..])
        case None => Skip
        case Some(e) => Emit(|e.pattern| + 2, [e.value])
    else Emit(1, [s[0]])
  }

  /** The meaning of a span: what the format asks for, an unknown entity standing for itself. */
  function Decode(f: Flags, s: string): (r: string)
    ensures |r| <= |s|
  {
    if s == [] then []
    else
      match NextToken(f, s)
      case Skip => ['&'] + Decode(f, s[1..])
      case Emit(used, out) => out + Decode(f, s[used..])
  }

  /** What the two-cursor loop leaves behind, from read offset `p` with `out` written: the Skip branch leaves at the
      write cursor whatever character the span had there. */
  function Rewrite(f: Flags, s: string, p: nat, out: string): (r: string)
    requires |out| <= p <= |s|
    ensures out <= r && |r| <= |s|
    decreases |s| - p
  {
    if p == |s| then out
    else
      match NextToken(f, s[p..])
      case Skip => Rewrite(f, s, p + 1, out + [s[|out|]])
      case Emit(used, o) => Rewrite(f, s, p + used, out + o)
  }

  /** How many Skips taken from read offset `p` and write offset `q` on find something other than an ampersand at the
      write cursor. */
  function StaleSkips(f: Flags, s: string, p: nat, q: nat): nat
    requires q <= p <= |s|
    decreases |s| - p
  {
    if p == |s| then 0
    else
      match NextToken(f, s[p..])
      case Skip => (if s[q] == '&' then 0 else 1) + StaleSkips(f, s, p + 1, q + 1)
      case Emit(used, o) => StaleSkips(f, s, p + used, q + |o|)
  }

  /** No Skip from `p` on happens once the write cursor lags behind the read cursor. */
  predicate NoSkipAfterContraction(f: Flags, s: string, p: nat, q: nat)
    requires q <= p <= |s|
    decreases |s| - p
  {
    if p == |s| then true
    else
      match NextToken(f, s[p..])
      case Skip => q == p && NoSkipAfterContraction(f, s, p + 1, q + 1)
      case Emit(used, o) => NoSkipAfterContraction(f, s, p + used, q + |o|)
  }

  /** The loop decodes the span exactly when every skipped character happens to be the ampersand it stands for. */
  lemma {:induction false} RewriteDecodesExactlyWhen(f: Flags, s: string, p: nat, out: string)
    requires |out| <= p <= |s|
    ensures Rewrite(f, s, p, out) == out + Decode(f, s[p..]) <==> StaleSkips(f, s, p, |out|) == 0
    decreases |s| - p
  {
    hide NextToken, Decode;
    if p == |s| {
      NothingToDecode(f);
      assert out + [] == out;
    } else if NextToken(f, s[p..]).Skip? {
      RewriteDecodesExactlyWhen(f, s, p + 1, out + [s[|out|]]);
      DecodeAfterSkip(f, s, p, out);
    } else {
      var t := NextToken(f, s[p..]);
      RewriteDecodesExactlyWhen(f, s, p + t.used, out + t.out);
      DecodeAfterEmit(f, s, p, out);
    }
  }

  lemma NothingToDecode(f: Flags)
    ensures Decode(f, []) == []
  {
  }

  lemma DecodeAfterSkip(f: Flags, s: string, p: nat, out: string)
    requires |out| <= p < |s| && NextToken(f, s[p..]).Skip?
    ensures var c := s[|out|];
      Rewrite(f, s, p, out) == out + Decode(f, s[p..])
      <==> c == '&' && Rewrite(f, s, p + 1, out + [c]) == (out + [c]) + Decode(f, s[p + 1..])
  {
    assert s[p..][1..] == s[p + 1..];
    StaleStep(out, s[|out|], Decode(f, s[p + 1..]), Rewrite(f, s, p + 1, out + [s[|out|]]));
  }

  lemma DecodeAfterEmit(f: Flags, s: string, p: nat, out: string)
    requires |out| <= p < |s| && NextToken(f, s[p..]).Emit?
    ensures var t := NextToken(f, s[p..]);
      (out + t.out) + Decode(f, s[p + t.used..]) == out + Decode(f, s[p..])
  {
    var t := NextToken(f, s[p..]);
    assert s[p..][t.used..] == s[p + t.used..];
    Append3(out, t.out, Decode(f, s[p + t.used..]));
  }

  lemma Append3(a: string, b: string, c: string)
    ensures a + b + c == a + (b + c)
  {
  }

  lemma StaleStep(out: string, c: char, tail: string, r: string)
    requires out + [c] <= r
    ensures r == out + (['&'] + tail) <==> c == '&' && r == out + [c] + tail
  {
    assert r[|out|] == c && (out + (['&'] + tail))[|out|] == '&';
    assert out + (['&'] + tail) == out + ['&'] + tail;
  }

  lemma {:induction false} NoContractionSuffices(f: Flags, s: string, p: nat, q: nat)
    requires q <= p <= |s|
    requires NoSkipAfterContraction(f, s, p, q)
    ensures StaleSkips(f, s, p, q) == 0
    decreases |s| - p
  {
    if p < |s| {
      match NextToken(f, s[p..])
      case Skip => NoContractionSuffices(f, s, p + 1, q + 1);
      case Emit(used, o) => NoContractionSuffices(f, s, p + used, q + |o|);
    }
  }

  /** A span whose rewriting is not its meaning, under the flags of element text and attribute values: after "&amp;"
      shrinks, the unknown "&z;" keeps an old character. */
  lemma StaleCharacterExample()
    ensures Rewrite(Flags(true, true, false), "&amp;&z", 0, "") == "&az"
    ensures Decode(Flags(true, true, false), "&amp;&z") == "&&z"
  {
    hide NextToken;
    var f, s := Flags(true, true, false), "&amp;&z";
    assert s[0..] == s && s[5..] == "&z" && s[5..][1..] == "z" && s[6..] == "z" && s[7..] == "";
    StaleCharacterTokens();
    assert Rewrite(f, s, 5, "&") == Rewrite(f, s, 6, "&a") == Rewrite(f, s, 7, "&az");
    assert Decode(f, s[5..]) == "&" + Decode(f, s[6..]);
    assert Decode(f, s[6..]) == "z" + Decode(f, s[6..][1..]);
  }

  lemma StaleCharacterTokens()
    ensures var f, s := Flags(true, true, false), "&amp;&z";
      NextToken(f, s) == Emit(5, "&") && NextToken(f, s[5..]) == Skip && NextToken(f, s[6..]) == Emit(1, "z")
  {
    var s := "&amp;&z";
    assert s[1..] == "amp;&z" && s[5..] == "&z" && s[5..][1..] == "z" && s[6..] == "z";
  }

  /** No token of `s` is a Skip. */
  predicate NeverSkips(f: Flags, s: string) {
    s == [] || (NextToken(f, s).Emit? && NeverSkips(f, s[NextToken(f, s).used..]))
  }

  lemma {:induction false} NeverSkipsSuffices(f: Flags, s: string, p: nat, q: nat)
    requires q <= p <= |s|
    requires NeverSkips(f, s[p..])
    ensures StaleSkips(f, s, p, q) == 0
    decreases |s| - p
  {
    hide NextToken;
    if p < |s| {
      var t := NextToken(f, s[p..]);
      assert s[p..][t.used..] == s[p + t.used..];
      NeverSkipsSuffices(f, s, p + t.used, q + |t.out|);
    }
  }

  // ---------- white-space collapsing ----------

  function SkipWhiteSpace(s: string): (r: string)
    ensures |r| <= |s|
    ensures r != [] ==> !IsWhiteSpace(r[0])
  {
    if s != [] && IsWhiteSpace(s[0]) then SkipWhiteSpace(s[1..]) else s
  }

  /** Only white space is skipped, and the rest is left. */
  lemma {:induction false} SkipsOnlySpace(s: string)
    ensures var r := SkipWhiteSpace(s); r == s[|s| - |r|..]
    ensures forall i :: 0 <= i < |s| - |SkipWhiteSpace(s)| ==> IsWhiteSpace(s[i])
  {
    if s != [] && IsWhiteSpace(s[0]) {
      SkipsOnlySpace(s[1..]);
    }
  }

  /** Inner runs of white space become one space and a trailing run disappears. */
  function Squeeze(s: string): (r: string)
    ensures |r| <= |s|
    decreases |s|
  {
    if s == [] then []
    else if IsWhiteSpace(s[0]) then
      var rest := SkipWhiteSpace(s);
      if rest == [] then [] else [' ', rest[0]] + Squeeze(rest[1..])
    else [s[0]] + Squeeze(s[1..])
  }

  function Collapse(s: string): (r: string)
    ensures |r| <= |s|
  {
    Squeeze(SkipWhiteSpace(s))
  }

  /** Nothing but spaces is put in. */
  lemma {:induction false} SqueezeMembers(s: string)
    ensures forall c :: c in Squeeze(s) ==> c in s || c == ' '
    decreases |s|
  {
    if s != [] {
      if IsWhiteSpace(s[0]) {
        var rest := SkipWhiteSpace(s);
        SkipsOnlySpace(s);
        if rest != [] {
          SqueezeMembers(rest[1..]);
        }
      } else {
        SqueezeMembers(s[1..]);
      }
    }
  }

  lemma CollapseMembers(s: string)
    ensures forall c :: c in Collapse(s) ==> c in s || c == ' '
  {
    hide Squeeze, SkipWhiteSpace;
    SkipsOnlySpace(s);
    SqueezeMembers(SkipWhiteSpace(s));
  }

  /** The string GetStr returns for the span `s`: names are left alone, the rest is rewritten in place, read back as a
      C string, and collapsed if asked. */
  function Value(f: Flags, s: string): (r: string) {
    var r := CString(if f == PLAIN then s else Rewrite(f, s, 0, ""));
    if f.collapse then Collapse(r) else r
  }

  /** What the value of a span should be: its decoding, collapsed if that is asked for. */
  function Meaning(f: Flags, s: string): string {
    if f.collapse then Collapse(Decode(f, s)) else Decode(f, s)
  }

  /** When no token of `s` is a Skip the string read back is the decoding of the span, up to its first NUL, collapsed if
      that is asked for. */
  lemma ValueIsMeaning(f: Flags, s: string)
    requires f != PLAIN && NeverSkips(f, s)
    ensures Value(f, s) == if f.collapse then Collapse(CString(Decode(f, s))) else CString(Decode(f, s))
    ensures NoNul(Decode(f, s)) ==> Value(f, s) == Meaning(f, s)
  {
    hide Rewrite, Decode, Collapse, NeverSkips;
    assert s[0..] == s;
    NeverSkipsSuffices(f, s, 0, 0);
    RewriteDecodesExactlyWhen(f, s, 0, "");
    assert "" + Decode(f, s) == Decode(f, s);
  }

  // ---------- exactly when a value is right ----------

  /** How many ampersands there are. */
  function Ampersands(s: string): nat {
    if s == [] then 0 else (if s[0] == '&' then 1 else 0) + Ampersands(s[1..])
  }

  lemma {:induction false} AmpersandsJoin(a: string, b: string)
    ensures Ampersands(a + b) == Ampersands(a) + Ampersands(b)
  {
    if a == [] {
      assert a + b == b;
    } else {
      assert (a + b)[1..] == a[1..] + b;
      AmpersandsJoin(a[1..], b);
    }
  }

  /** A stale character stands where an ampersand is meant, so that the rewriting has one ampersand fewer for each. */
  lemma {:induction false} RewriteLoses(f: Flags, s: string, p: nat, out: string)
    requires |out| <= p <= |s|
    ensures Ampersands(Rewrite(f, s, p, out)) + StaleSkips(f, s, p, |out|)
         == Ampersands(out) + Ampersands(Decode(f, s[p..]))
    decreases |s| - p
  {
    hide NextToken, Decode, Ampersands;
    if p == |s| {
      NothingToDecode(f);
      NoAmpersands();
    } else {
      var t := NextToken(f, s[p..]);
      DecodeUnfolds(f, s, p);
      if t.Skip? {
        var c := s[|out|];
        RewriteLoses(f, s, p + 1, out + [c]);
        AmpersandsJoin(out, [c]);
        AmpersandsJoin(['&'], Decode(f, s[p + 1..]));
        OneAmpersand(c);
        OneAmpersand('&');
      } else {
        RewriteLoses(f, s, p + t.used, out + t.out);
        AmpersandsJoin(out, t.out);
        AmpersandsJoin(t.out, Decode(f, s[p + t.used..]));
      }
    }
  }

  lemma DecodeUnfolds(f: Flags, s: string, p: nat)
    requires p < |s|
    ensures Decode(f, s[p..]) == match NextToken(f, s[p..])
      case Skip => ['&'] + Decode(f, s[p + 1..])
      case Emit(used, out) => out + Decode(f, s[p + used..])
  {
    hide NextToken;
    var t := NextToken(f, s[p..]);
    assert s[p..][1..] == s[p + 1..];
    assert t.Emit? ==> s[p..][t.used..] == s[p + t.used..];
  }

  lemma OneAmpersand(c: char)
    ensures Ampersands([c]) == if c == '&' then 1 else 0
  {
    assert [c][1..] == [];
  }

  lemma NoAmpersands()
    ensures Ampersands([]) == 0
  {
  }

  /** Collapsing keeps the ampersands. */
  lemma {:induction false} SkipKeepsAmpersands(s: string)
    ensures Ampersands(SkipWhiteSpace(s)) == Ampersands(s)
  {
    if s != [] && IsWhiteSpace(s[0]) {
      SkipKeepsAmpersands(s[1..]);
    }
  }

  lemma {:induction false} SqueezeKeepsAmpersands(s: string)
    ensures Ampersands(Squeeze(s)) == Ampersands(s)
    decreases |s|
  {
    hide SkipWhiteSpace;
    if s != [] {
      if IsWhiteSpace(s[0]) {
        var rest := SkipWhiteSpace(s);
        SkipKeepsAmpersands(s);
        if rest != [] {
          SqueezeKeepsAmpersands(rest[1..]);
          var more := Squeeze(rest[1..]);
          assert [' ', rest[0]] + more == [' '] + ([rest[0]] + more);
          AmpersandsJoin([' '], [rest[0]] + more);
          AmpersandsJoin([rest[0]], more);
          OneAmpersand(' ');
          OneAmpersand(rest[0]);
        }
      } else {
        SqueezeKeepsAmpersands(s[1..]);
        AmpersandsJoin([s[0]], Squeeze(s[1..]));
        OneAmpersand(s[0]);
      }
    }
  }

  lemma CollapseKeepsAmpersands(s: string)
    ensures Ampersands(Collapse(s)) == Ampersands(s)
  {
    SkipKeepsAmpersands(s);
    SqueezeKeepsAmpersands(SkipWhiteSpace(s));
  }

  lemma {:induction false} CStringHasFewer(s: string)
    ensures Ampersands(CString(s)) <= Ampersands(s)
  {
    if s != [] && s[0] != NUL {
      CStringHasFewer(s[1..]);
      AmpersandsJoin([s[0]], CString(s[1..]));
      OneAmpersand(s[0]);
    }
  }

  /** The string read back is what the span means exactly when no skip keeps a stale character, with and without white
      space collapsed. */
  lemma ValueIsMeaningExactlyWhen(f: Flags, s: string)
    requires f != PLAIN && NoNul(Decode(f, s))
    ensures Value(f, s) == Meaning(f, s) <==> StaleSkips(f, s, 0, 0) == 0
  {
    hide Rewrite, Decode, StaleSkips, Collapse, Ampersands;
    assert s[0..] == s;
    RewriteDecodesExactlyWhen(f, s, 0, "");
    assert "" + Decode(f, s) == Decode(f, s);
    RewriteLoses(f, s, 0, "");
    NoAmpersands();
    var r, d := Rewrite(f, s, 0, ""), Decode(f, s);
    CStringHasFewer(r);
    CollapseKeepsAmpersands(CString(r));
    CollapseKeepsAmpersands(d);
  }
}
