/** StrPair::GetStr on the buffer itself (drivers/Mach3/tinyxml2.cpp:238-365, 456-549): two cursors over one array. */
module InPlaceDecoder {
  import opened XmlUtil
  import opened Utf8Codec
  import opened CharacterRefs
  import opened XmlText

  /** The C string at `p` ends at `end`. */
  ghost predicate TextAt(buf: array<char>, p: nat, end: nat)
    reads buf
  {
    p <= end < buf.Length && buf[end] == NUL && forall k :: p <= k < end ==> buf[k] != NUL
  }

  /** `strchr`. */
  method StrChr(buf: array<char>, from: nat, c: char, ghost end: nat) returns (r: Option<nat>)
    requires TextAt(buf, from, end) && c != NUL
    ensures r == match IndexOf(buf[from..end], c) case None => None case Some(k) => Some(from + k)
  {
    var q := from;
    while buf[q] != NUL
      invariant from <= q <= end
      invariant forall k :: from <= k < q ==> buf[k] != c
      decreases end - q
    {
      if buf[q] == c {
        FirstIndex(buf[from..end], c, q - from);
        return Some(q);
      }
      q := q + 1;
    }
    return None;
  }

  lemma FirstIndex(s: string, c: char, k: nat)
    requires k < |s| && s[k] == c && forall i :: 0 <= i < k ==> s[i] != c
    ensures IndexOf(s, c) == Some(k)
  {
  }

  ghost predicate StopsIn(s: string, i: int, stop: char) {
    0 <= i < |s| && exists j :: 0 <= j <= i && s[j] == stop
  }

  /** The digits of a reference, scanned back from `last` to the nearest `stop`. */
  method ScanDigits(buf: array<char>, last: nat, stop: char, base: nat, ghost p: nat, ghost end: nat)
    returns (ucs: Option<nat>)
    requires p <= last < end < buf.Length && StopsIn(buf[p..end], last - p, stop)
    ensures ucs == ScanBack(buf[p..end], last - p, stop, base, 1, 0)
  {
    ghost var s := buf[p..end];
    var q := last;
    var mult: nat, sum: nat := 1, 0;
    while buf[q] != stop
      invariant p <= q <= last && StopsIn(s, q - p, stop)
      invariant ScanBack(s, q - p, stop, base, mult, sum) == ScanBack(s, last - p, stop, base, 1, 0)
      decreases q
    {
      assert s[q - p] == buf[q];
      var digit := Digit(buf[q], base);
      if digit.None? {
        return None;
      }
      sum := (sum + mult * digit.value % WORD) % WORD;
      mult := mult * base % WORD;
      q := q - 1;
    }
    assert s[q - p] == buf[q];
    return Some(sum);
  }

  /** The number of a reference at `p` and the offset of its semicolon. */
  method ReadNumber(buf: array<char>, p: nat, ghost end: nat) returns (r: Option<(nat, nat)>)
    requires TextAt(buf, p, end) && p + 2 < end && buf[p + 1] == '#'
    ensures r == match RefNumber(buf[p..end]) case None => None case Some((ucs, used)) => Some((ucs, p + used - 1))
  {
    hide ScanBack;
    ghost var s := buf[p..end];
    var hex := buf[p + 2] == 'x';
    var q := if hex then p + 3 else p + 2;
    assert s[2] == buf[p + 2] && buf[q..end] == s[q - p..];
    if buf[q] == NUL {
      assert s[q - p..] == [];
      return None;
    }
    var semicolon := StrChr(buf, q, ';', end);
    if semicolon.None? {
      return None;
    }
    var stop, base := if hex then 'x' else '#', if hex then 16 else 10;
    assert s[q - 1 - p] == stop;
    var ucs := ScanDigits(buf, semicolon.value - 1, stop, base, p, end);
    r := if ucs.None? then None else Some((ucs.value, semicolon.value));
  }

  /** XMLUtil::GetCharacterRef at an ampersand followed by a hash: where the reference ends and, in `value`, the bytes
      it stands for; or None. */
  method GetCharacterRef(buf: array<char>, p: nat, value: array<char>, ghost end: nat)
    returns (adjusted: Option<nat>, length: nat)
    requires TextAt(buf, p, end) && p + 1 < end && buf[p + 1] == '#'
    requires value != buf && value.Length >= 4
    modifies value
    ensures match CharacterRef(buf[p..end])
      case None => adjusted == None
      case Some((used, out)) =>
        adjusted == Some(p + used) && length == |out| && length <= value.Length && value[..length] == out
  {
    hide RefNumber, Utf8;
    if buf[p + 2] == NUL {
      return Some(p + 1), 0;
    }
    var number := ReadNumber(buf, p, end);
    if number.None? {
      return None, 0;
    }
    length := ConvertUTF32ToUTF8(number.value.0, value);
    return Some(number.value.1 + 1), length;
  }

  const ENTITIES: seq<Entity> := [Entity("quot", '\"'), Entity("amp", '&'), Entity("apos", '\''), Entity("lt", '<'),
    Entity("gt", '>')]

  /** `strncmp(p, pattern, length) == 0`. */
  method StrNCmp(buf: array<char>, p: nat, pattern: string, ghost end: nat) returns (b: bool)
    requires TextAt(buf, p, end) && NoNul(pattern)
    ensures b <==> pattern <= buf[p..end]
  {
    for i := 0 to |pattern|
      invariant p + i <= end && buf[p..p + i] == pattern[..i]
    {
      if buf[p + i] != pattern[i] {
        return false;
      }
    }
    assert buf[p..p + |pattern|] == pattern[..|pattern|] == pattern;
    assert buf[p..end][..|pattern|] == buf[p..p + |pattern|];
    return true;
  }

  lemma WithSemicolon(pattern: string, s: string)
    ensures pattern + ";" <= s <==> pattern <= s && |pattern| < |s| && s[|pattern|] == ';'
  {
    if pattern + ";" <= s {
      assert s[|pattern|] == (pattern + ";")[|pattern|];
      assert s[..|pattern|] == (pattern + ";")[..|pattern|] == pattern;
    }
    if pattern <= s && |pattern| < |s| && s[|pattern|] == ';' {
      assert s[..|pattern| + 1] == pattern + ";";
    }
  }

  /** The first entity of the table that the text after an ampersand begins with. */
  method FindEntity(buf: array<char>, p: nat, ghost end: nat) returns (e: Option<Entity>)
    requires TextAt(buf, p, end)
    ensures e == NamedEntity(buf[p..end])
  {
    ghost var s := buf[p..end];
    for i := 0 to |ENTITIES|
      invariant forall j :: 0 <= j < i ==> !(ENTITIES[j].pattern + ";" <= s)
    {
      var found := StrNCmp(buf, p, ENTITIES[i].pattern, end);
      WithSemicolon(ENTITIES[i].pattern, s);
      if found && buf[p + |ENTITIES[i].pattern|] == ';' {
        FirstEntity(s, i);
        return Some(ENTITIES[i]);
      }
    }
    NoEntity(s);
    return None;
  }

  lemma FirstEntity(s: string, i: nat)
    requires i < |ENTITIES| && ENTITIES[i].pattern + ";" <= s
    requires forall j :: 0 <= j < i ==> !(ENTITIES[j].pattern + ";" <= s)
    ensures NamedEntity(s) == Some(ENTITIES[i])
  {
    Patterns();
    assert i >= 1 ==> !(ENTITIES[0].pattern + ";" <= s);
    assert i >= 2 ==> !(ENTITIES[1].pattern + ";" <= s);
    assert i >= 3 ==> !(ENTITIES[2].pattern + ";" <= s);
    assert i >= 4 ==> !(ENTITIES[3].pattern + ";" <= s);
  }

  lemma NoEntity(s: string)
    requires forall j :: 0 <= j < |ENTITIES| ==> !(ENTITIES[j].pattern + ";" <= s)
    ensures NamedEntity(s).None?
  {
    Patterns();
    assert !(ENTITIES[0].pattern + ";" <= s) && !(ENTITIES[1].pattern + ";" <= s) && !(ENTITIES[2].pattern + ";" <= s);
    assert !(ENTITIES[3].pattern + ";" <= s) && !(ENTITIES[4].pattern + ";" <= s);
  }

  lemma Patterns()
    ensures "quot" + ";" == "quot;" && "amp" + ";" == "amp;" && "apos" + ";" == "apos;"
    ensures "lt" + ";" == "lt;" && "gt" + ";" == "gt;"
  {
  }

  /** What one turn of the loop does to the buffer: the token's output is written at `q`, nothing else changes. */
  ghost predicate Turned(before: string, after: string, t: Token, p: nat, q: nat, p': nat, q': nat) {
    && q <= q' <= |before| == |after|
    && (forall k :: 0 <= k < |before| && (k < q || q' <= k) ==> after[k] == before[k])
    && (t.Skip? ==> p' == p + 1 && q' == q + 1 && after[q] == before[q])
    && (t.Emit? ==> p' == p + t.used && q' == q + |t.out| && after[q..q'] == t.out)
  }

  method WriteNewline(buf: array<char>, p: nat, q: nat, f: Flags, ghost end: nat) returns (p': nat, q': nat)
    requires TextAt(buf, p, end) && q <= p < end && f.newlines && (buf[p] == CR || buf[p] == LF)
    modifies buf
    ensures Turned(old(buf[..]), buf[..], NextToken(f, old(buf[p..end])), p, q, p', q')
  {
    ghost var s := buf[p..end];
    assert s[0] == buf[p] && (|s| > 1 ==> s[1] == buf[p + 1]);
    p' := if buf[p + 1] == (if buf[p] == CR then LF else CR) then p + 2 else p + 1;
    buf[q] := LF;
    q' := q + 1;
  }

  method WriteReference(buf: array<char>, p: nat, q: nat, f: Flags, ghost end: nat) returns (p': nat, q': nat)
    requires TextAt(buf, p, end) && q <= p && p + 1 < end && f.entities && buf[p] == '&' && buf[p + 1] == '#'
    modifies buf
    ensures Turned(old(buf[..]), buf[..], NextToken(f, old(buf[p..end])), p, q, p', q')
  {
    hide CharacterRef;
    ghost var s := buf[p..end];
    assert s[0] == '&' && s[1] == '#';
    var value := new char[10];
    var adjusted, length := GetCharacterRef(buf, p, value, end);
    if adjusted.None? {
      buf[q] := buf[p];
      return p + 1, q + 1;
    }
    MemCpy(buf, q, value, length);
    return adjusted.value, q + length;
  }

  method MemCpy(buf: array<char>, q: nat, value: array<char>, length: nat)
    requires value != buf && length <= value.Length && q + length <= buf.Length
    modifies buf
    ensures buf[q..q + length] == value[..length]
    ensures forall k :: 0 <= k < buf.Length && (k < q || q + length <= k) ==> buf[k] == old(buf[k])
  {
    for i := 0 to length
      invariant buf[q..q + i] == value[..i]
      invariant forall k :: 0 <= k < buf.Length && (k < q || q + i <= k) ==> buf[k] == old(buf[k])
    {
      buf[q + i] := value[i];
    }
  }

  method WriteEntity(buf: array<char>, p: nat, q: nat, f: Flags, ghost end: nat) returns (p': nat, q': nat)
    requires TextAt(buf, p, end) && q <= p < end && f.entities && buf[p] == '&' && buf[p + 1] != '#'
    modifies buf
    ensures Turned(old(buf[..]), buf[..], NextToken(f, old(buf[p..end])), p, q, p', q')
  {
    hide NamedEntity;
    ghost var s := buf[p..end];
    assert s[0] == '&' && (|s| > 1 ==> s[1] != '#') && s[1..] == buf[p + 1..end];
    var e := FindEntity(buf, p + 1, end);
    if e.None? {
      return p + 1, q + 1;
    }
    buf[q] := e.value.value;
    return p + |e.value.pattern| + 2, q + 1;
  }

  /** One turn of the loop. */
  method RewriteStep(buf: array<char>, p: nat, q: nat, f: Flags, ghost end: nat) returns (p': nat, q': nat)
    requires TextAt(buf, p, end) && q <= p < end
    modifies buf
    ensures Turned(old(buf[..]), buf[..], NextToken(f, old(buf[p..end])), p, q, p', q')
  {
    hide CharacterRef, NamedEntity;
    if f.newlines && (buf[p] == CR || buf[p] == LF) {
      p', q' := WriteNewline(buf, p, q, f, end);
    } else if f.entities && buf[p] == '&' {
      if buf[p + 1] == '#' {
        p', q' := WriteReference(buf, p, q, f, end);
      } else {
        p', q' := WriteEntity(buf, p, q, f, end);
      }
    } else {
      assert buf[p..end][0] == buf[p];
      buf[q] := buf[p];
      p', q' := p + 1, q + 1;
    }
  }

  /** The buffer when the cursors are at `p` and `q`: what is read is untouched from the write cursor on, and what is
      written is what the pure rewriting has written. */
  ghost predicate Progress(b: string, s: string, f: Flags, start: nat, end: nat, p: nat, q: nat) {
    && start <= q <= p <= end < |b| && |s| == end - start && NoNul(s) && b[end] == NUL
    && (forall k :: q <= k < end ==> b[k] == s[k - start])
    && Rewrite(f, s, p - start, b[start..q]) == Rewrite(f, s, 0, "")
  }

  lemma TurnMakesProgress(b: string, after: string, s: string, f: Flags, start: nat, end: nat, p: nat, q: nat, p': nat,
          q': nat)
    requires Progress(b, s, f, start, end, p, q) && p < end
    requires Turned(b, after, NextToken(f, s[p - start..]), p, q, p', q')
    ensures Progress(after, s, f, start, end, p', q')
  {
    hide NextToken, Rewrite;
    var t := NextToken(f, s[p - start..]);
    var out := b[start..q];
    assert after[start..q] == out;
    if t.Skip? {
      assert after[start..q'] == out + [s[|out|]];
    } else {
      assert after[start..q'] == out + t.out;
    }
    RewriteUnfolds(f, s, p - start, out);
  }

  lemma RewriteUnfolds(f: Flags, s: string, p: nat, out: string)
    requires |out| <= p < |s|
    ensures Rewrite(f, s, p, out) == match NextToken(f, s[p..])
      case Skip => Rewrite(f, s, p + 1, out + [s[|out|]])
      case Emit(used, o) => Rewrite(f, s, p + used, out + o)
  {
    hide NextToken;
  }

  method RewriteTurn(buf: array<char>, ghost s: string, f: Flags, start: nat, end: nat, p: nat, q: nat)
    returns (p': nat, q': nat)
    requires Progress(buf[..], s, f, start, end, p, q) && p < end
    modifies buf
    ensures Progress(buf[..], s, f, start, end, p', q') && p < p'
    ensures forall k :: 0 <= k < buf.Length && (k < start || end <= k) ==> buf[k] == old(buf[k])
  {
    hide Rewrite;
    assert buf[p..end] == s[p - start..];
    p', q' := RewriteStep(buf, p, q, f, end);
    TurnMakesProgress(old(buf[..]), buf[..], s, f, start, end, p, q, p', q');
    assert forall k :: 0 <= k < buf.Length ==> buf[..][k] == buf[k];
  }

  /** The two-cursor loop of GetStr and the terminator after it: the span is rewritten in place, nothing outside it and
      its terminator changes. */
  method RewriteSpan(buf: array<char>, start: nat, end: nat, f: Flags)
    requires TextAt(buf, start, end)
    modifies buf
    ensures var r := Rewrite(f, old(buf[start..end]), 0, "");
      buf[start..start + |r|] == r && buf[start + |r|] == NUL
    ensures forall k :: 0 <= k < buf.Length && (k < start || end < k) ==> buf[k] == old(buf[k])
    ensures buf[end] == NUL
  {
    ghost var s := buf[start..end];
    var p, q := start, start;
    assert buf[..][start..start] == "";
    while p < end
      invariant Progress(buf[..], s, f, start, end, p, q)
      invariant forall k :: 0 <= k < buf.Length && (k < start || end <= k) ==> buf[k] == old(buf[k])
      decreases end - p
    {
      p, q := RewriteTurn(buf, s, f, start, end, p, q);
    }
    ghost var written := buf[start..q];
    assert buf[..][start..q] == written;
    RewriteEnds(f, s, written);
    buf[q] := NUL;
    assert buf[start..q] == written;
  }

  lemma RewriteEnds(f: Flags, s: string, out: string)
    requires |out| <= |s|
    ensures Rewrite(f, s, |s|, out) == out
  {
  }

  // ---------- white space ----------

  /** XMLUtil::SkipWhiteSpace: the first significant character from `p` on, and the line feeds passed over. */
  method SkipWhiteSpace(buf: array<char>, p: nat, ghost end: nat) returns (p': nat, lines: nat)
    requires TextAt(buf, p, end)
    ensures p <= p' <= end && buf[p'..end] == XmlText.SkipWhiteSpace(buf[p..end])
    ensures lines == LineFeeds(buf[p..p'])
  {
    hide XmlText.SkipWhiteSpace, LineFeeds;
    p', lines := p, 0;
    assert buf[p..p] == [] && LineFeeds([]) == 0 by { NoLinesYet(); }
    while IsWhiteSpace(buf[p'])
      invariant p <= p' <= end
      invariant forall k :: p <= k < p' ==> IsWhiteSpace(buf[k])
      invariant lines == LineFeeds(buf[p..p'])
      decreases end - p'
    {
      assert buf[p..p' + 1] == buf[p..p'] + [buf[p']];
      LineFeedsAppend(buf[p..p'], buf[p']);
      if buf[p'] == LF {
        lines := lines + 1;
      }
      p' := p' + 1;
    }
    SkipsTo(buf[p..end], p' - p);
    assert buf[p..end][p' - p..] == buf[p'..end];
  }

  lemma {:induction false} SkipsTo(s: string, k: nat)
    requires k <= |s| && (forall i :: 0 <= i < k ==> IsWhiteSpace(s[i])) && (k < |s| ==> !IsWhiteSpace(s[k]))
    ensures XmlText.SkipWhiteSpace(s) == s[k..]
  {
    if k > 0 {
      SkipsTo(s[1..], k - 1);
    }
  }

  /** The number of line feeds in `s`. */
  function LineFeeds(s: string): nat {
    if s == [] then 0 else LineFeeds(s[..|s| - 1]) + if s[|s| - 1] == LF then 1 else 0
  }

  lemma NoLinesYet()
    ensures LineFeeds([]) == 0
  {
  }

  lemma LineFeedsAppend(s: string, c: char)
    ensures LineFeeds(s + [c]) == LineFeeds(s) + if c == LF then 1 else 0
  {
    assert (s + [c])[..|s|] == s;
  }

  /** The buffer while white space collapses: `written` and then the squeezed rest make up the result. */
  ghost predicate Squeezing(b: string, s: string, start: nat, end: nat, p: nat, q: nat) {
    && start <= q <= p <= end < |b| && b[end] == NUL && (forall k :: p <= k < end ==> b[k] != NUL)
    && b[start..q] + Squeeze(b[p..end]) == Squeeze(s)
  }

  /** StrPair::CollapseWhitespace: the string from the new start on is the collapsed one. */
  method CollapseWhitespace(buf: array<char>, start: nat, ghost end: nat) returns (start': nat)
    requires TextAt(buf, start, end)
    modifies buf
    ensures var r := Collapse(old(buf[start..end]));
      start <= start' && start' + |r| <= end && buf[start'..start' + |r|] == r && buf[start' + |r|] == NUL
    ensures buf[end] == NUL
    ensures forall k :: 0 <= k < buf.Length && (k < start || end < k) ==> buf[k] == old(buf[k])
  {
    hide XmlText.SkipWhiteSpace, Squeeze, LineFeeds, IsWhiteSpace;
    var lines: nat;
    start', lines := SkipWhiteSpace(buf, start, end);
    if buf[start'] != NUL {
      SqueezeInPlace(buf, start', end);
    } else {
      assert buf[start'..end] == "";
      NothingToSqueeze();
    }
  }

  /** The loop that squeezes inner white space, and the terminator after it. */
  method SqueezeInPlace(buf: array<char>, start: nat, ghost end: nat)
    requires TextAt(buf, start, end)
    modifies buf
    ensures var r := Squeeze(old(buf[start..end]));
      start + |r| <= end && buf[start..start + |r|] == r && buf[start + |r|] == NUL
    ensures buf[end] == NUL
    ensures forall k :: 0 <= k < buf.Length && (k < start || end < k) ==> buf[k] == old(buf[k])
  {
    hide Squeeze;
    ghost var s := buf[start..end];
    var p, q := start, start;
    SqueezeStarts(buf[..], s, start, end);
    while buf[p] != NUL
      invariant Squeezing(buf[..], s, start, end, p, q)
      invariant forall k :: 0 <= k < buf.Length && (k < start || end <= k) ==> buf[k] == old(buf[k])
      decreases end - p
    {
      assert p < end;
      p, q := SqueezeTurn(buf, s, start, end, p, q);
    }
    SqueezeEnds(buf[..], s, start, end, p, q);
    ghost var written := buf[start..q];
    assert buf[..][start..q] == written;
    buf[q] := NUL;
    assert buf[start..q] == written;
  }

  lemma NothingToSqueeze()
    ensures Squeeze("") == ""
  {
  }

  lemma SqueezeStarts(b: string, s: string, start: nat, end: nat)
    requires start <= end < |b| && b[end] == NUL && (forall k :: start <= k < end ==> b[k] != NUL) && s == b[start..end]
    ensures Squeezing(b, s, start, end, start, start)
  {
    hide Squeeze;
    assert b[start..start] + Squeeze(s) == Squeeze(s);
  }

  lemma SqueezeEnds(b: string, s: string, start: nat, end: nat, p: nat, q: nat)
    requires Squeezing(b, s, start, end, p, q) && b[p] == NUL
    ensures p == end && b[start..q] == Squeeze(s)
  {
    assert b[end..end] == "";
  }

  /** One turn: a run of white space becomes one space, unless it ends the string; then a character is copied. */
  method SqueezeTurn(buf: array<char>, ghost s: string, start: nat, ghost end: nat, p: nat, q: nat)
    returns (p': nat, q': nat)
    requires Squeezing(buf[..], s, start, end, p, q) && p < end
    modifies buf
    ensures Squeezing(buf[..], s, start, end, p', q') && p < p'
    ensures forall k :: 0 <= k < buf.Length && (k < start || end <= k) ==> buf[k] == old(buf[k])
  {
    hide Squeeze, XmlText.SkipWhiteSpace;
    ghost var b := buf[..];
    var kept := NextKept(buf, p, end);
    if buf[kept] == NUL {
      assert b[end..end] == "";
      SqueezedAway(b, s, start, end, p, q);
      return kept, q;
    }
    q' := Copy(buf, q, kept, IsWhiteSpace(buf[p]));
    p' := kept + 1;
    Squeezed(b, buf[..], s, start, end, p, q, p', q');
  }

  /** The next character to copy: past the run of white space at `p`, if there is one. */
  method NextKept(buf: array<char>, p: nat, ghost end: nat) returns (kept: nat)
    requires p < end < buf.Length && buf[..][end] == NUL && forall k :: p <= k < end ==> buf[..][k] != NUL
    ensures p <= kept <= end && (buf[kept] == NUL <==> kept == end)
    ensures if IsWhiteSpace(buf[p]) then p < kept && XmlText.SkipWhiteSpace(buf[..][p..end]) == buf[..][kept..end]
            else kept == p
  {
    hide XmlText.SkipWhiteSpace;
    kept := p;
    TextFrom(buf, p, end);
    if IsWhiteSpace(buf[p]) {
      var lines: nat;
      kept, lines := SkipWhiteSpace(buf, p, end);
      assert buf[kept..end] == buf[..][kept..end];
      StartsKept(buf[p..end]);
    }
  }

  lemma StartsKept(s: string)
    requires s != [] && IsWhiteSpace(s[0])
    ensures |XmlText.SkipWhiteSpace(s)| < |s|
  {
  }

  /** Copy a character down, after a space if one is due. */
  method Copy(buf: array<char>, q: nat, from: nat, space: bool) returns (q': nat)
    requires q + (if space then 1 else 0) <= from < buf.Length
    modifies buf
    ensures q' == q + (if space then 2 else 1)
    ensures forall k :: 0 <= k < buf.Length && (k < q || q' <= k) ==> buf[k] == old(buf[k])
    ensures buf[..][q..q'] == if space then [' ', old(buf[from])] else [old(buf[from])]
  {
    q' := q;
    if space {
      buf[q'] := ' ';
      q' := q' + 1;
    }
    buf[q'] := buf[from];
    q' := q' + 1;
  }

  lemma TextFrom(buf: array<char>, p: nat, end: nat)
    requires p <= end < buf.Length && buf[..][end] == NUL && forall k :: p <= k < end ==> buf[..][k] != NUL
    ensures TextAt(buf, p, end) && buf[..][p..end] == buf[p..end]
  {
    assert forall k :: p <= k < end ==> buf[k] == buf[..][k];
  }

  lemma SqueezedAway(b: string, s: string, start: nat, end: nat, p: nat, q: nat)
    requires Squeezing(b, s, start, end, p, q) && p < end
    requires XmlText.SkipWhiteSpace(b[p..end]) == []
    ensures Squeezing(b, s, start, end, end, q)
  {
    assert b[end..end] == [];
  }

  lemma Squeezed(b: string, after: string, s: string, start: nat, end: nat, p: nat, q: nat, p': nat, q': nat)
    requires Squeezing(b, s, start, end, p, q) && p < end
    requires p < p' <= end && |after| == |b| && q < q' <= p'
    requires forall k :: 0 <= k < |b| && (k < q || q' <= k) ==> after[k] == b[k]
    requires after[q..q'] == if IsWhiteSpace(b[p]) then [' ', b[p' - 1]] else [b[p' - 1]]
    requires if IsWhiteSpace(b[p]) then XmlText.SkipWhiteSpace(b[p..end]) == b[p' - 1..end] else p' == p + 1
    ensures Squeezing(after, s, start, end, p', q')
  {
    hide Squeeze, XmlText.SkipWhiteSpace;
    assert after[p'..end] == b[p'..end];
    SqueezeUnfolds(b, p, p', end);
    var r := Squeeze(b[p'..end]);
    assert after[start..q'] == b[start..q] + after[q..q'];
    Append3(b[start..q], after[q..q'], r);
  }

  lemma SqueezeUnfolds(b: string, p: nat, p': nat, end: nat)
    requires p < p' <= end <= |b|
    requires if IsWhiteSpace(b[p]) then XmlText.SkipWhiteSpace(b[p..end]) == b[p' - 1..end] else p' == p + 1
    ensures Squeeze(b[p..end])
         == (if IsWhiteSpace(b[p]) then [' ', b[p' - 1]] else [b[p' - 1]]) + Squeeze(b[p'..end])
  {
    hide XmlText.SkipWhiteSpace;
    assert b[p..end][1..] == b[p + 1..end] && b[p' - 1..end][1..] == b[p'..end];
  }
}
