/** Lazy strings: spans of one buffer, rewritten in place when first read (drivers/Mach3/tinyxml2.h:121-193,
    drivers/Mach3/tinyxml2.cpp:193-365). The StrPairs of all nodes and attributes of a document are kept in one table,
    in the order in which the parser set them. */
module StrPairs {
  import opened XmlUtil
  import opened XmlText
  import opened InPlaceDecoder
  import opened XmlGrammar

  datatype StrPair = StrPair(start: nat, end: nat, flags: Flags, needsFlush: bool)

  /** The C string at `start` is `v`, and ends no later than `end`. */
  ghost predicate Reads(b: string, start: nat, end: nat, v: string) {
    start + |v| <= end < |b| && b[start..start + |v|] == v && b[start + |v|] == NUL && NoNul(v)
  }

  /** Before its first reading a span holds the original text; afterwards it holds its value. */
  ghost predicate Holds(b: string, text: string, p: StrPair, v: string) {
    && p.start <= p.end <= |text| && |b| == |text| + 1
    && if p.needsFlush then b[p.start..p.end] == text[p.start..p.end] && v == Value(p.flags, text[p.start..p.end])
       else Reads(b, p.start, p.end, v)
  }

  /** Spans, each with the place of its terminator, follow one another without overlapping. */
  ghost predicate Apart(pairs: seq<StrPair>) {
    forall i, j :: 0 <= i < j < |pairs| ==> pairs[i].end < pairs[j].start
  }

  /** What the span holds when its entities and newlines have been rewritten. */
  function Rewritten(f: Flags, s: string): string {
    if f == PLAIN then s else Rewrite(f, s, 0, "")
  }

  /** The span ends in a NUL, and before that holds `r` and a NUL. */
  ghost predicate Terminated(b: string, p: StrPair, r: string) {
    p.start + |r| <= p.end < |b| && b[p.start..p.start + |r|] == r && b[p.start + |r|] == NUL && b[p.end] == NUL
  }

  /** Its first half: the terminator, and the rewriting. */
  method Terminate(buf: array<char>, p: StrPair)
    requires p.start <= p.end < buf.Length && forall k :: p.start <= k < p.end ==> buf[k] != NUL
    modifies buf
    ensures Terminated(buf[..], p, Rewritten(p.flags, old(buf[p.start..p.end])))
    ensures forall k :: 0 <= k < buf.Length && (k < p.start || p.end < k) ==> buf[k] == old(buf[k])
  {
    hide Rewrite;
    ghost var s := buf[p.start..p.end];
    buf[p.end] := NUL;
    assert buf[p.start..p.end] == s;
    if p.flags != PLAIN {
      RewriteSpan(buf, p.start, p.end, p.flags);
    }
  }

  /** Its second half: the C string that is left, collapsed if that is asked for. */
  method Shrink(buf: array<char>, p: StrPair, ghost r: string) returns (start: nat)
    requires Terminated(buf[..], p, r)
    modifies buf
    ensures p.start <= start && p.end < buf.Length && buf[p.end] == NUL
    ensures Reads(buf[..], start, p.end, if p.flags.collapse then Collapse(CString(r)) else CString(r))
    ensures forall k :: 0 <= k < buf.Length && (k < p.start || p.end < k) ==> buf[k] == old(buf[k])
  {
    hide Collapse, CString;
    start := p.start;
    assert buf[..][p.start..p.start + |r|] == buf[p.start..p.start + |r|];
    CStringReads(buf, start, r);
    if p.flags.collapse {
      start := CollapseWhitespace(buf, p.start, p.start + |CString(r)|);
      CollapseKeepsNoNul(CString(r));
    }
  }

  /** The body of GetStr for a span that has not been read. */
  method Flush(buf: array<char>, p: StrPair) returns (start: nat)
    requires p.start <= p.end < buf.Length && forall k :: p.start <= k < p.end ==> buf[k] != NUL
    modifies buf
    ensures p.start <= start && Reads(buf[..], start, p.end, Value(p.flags, old(buf[p.start..p.end])))
    ensures forall k :: 0 <= k < buf.Length && (k < p.start || p.end < k) ==> buf[k] == old(buf[k])
    ensures buf[p.end] == NUL
  {
    hide Value, Rewritten, Reads, Terminated;
    ghost var s := buf[p.start..p.end];
    ValueOf(p.flags, s);
    Terminate(buf, p);
    start := Shrink(buf, p, Rewritten(p.flags, s));
  }

  lemma ValueOf(f: Flags, s: string)
    ensures Value(f, s) == if f.collapse then Collapse(CString(Rewritten(f, s))) else CString(Rewritten(f, s))
  {
    hide Rewrite, CString, Collapse;
  }

  lemma CStringReads(buf: array<char>, start: nat, r: string)
    requires start + |r| < buf.Length && buf[start..start + |r|] == r && buf[start + |r|] == NUL
    ensures var c := CString(r); buf[start..start + |c|] == c && TextAt(buf, start, start + |c|)
  {
    hide CString;
    var c := CString(r);
    assert buf[start..start + |c|] == buf[start..start + |r|][..|c|];
    assert forall k :: start <= k < start + |c| ==> buf[k] == c[k - start];
    assert |c| < |r| ==> buf[start + |c|] == buf[start..start + |r|][|c|];
  }

  lemma CollapseKeepsNoNul(s: string)
    requires NoNul(s)
    ensures NoNul(Collapse(s))
  {
    hide Collapse;
    CollapseMembers(s);
    assert forall i :: 0 <= i < |Collapse(s)| ==> Collapse(s)[i] in Collapse(s);
  }

  class CharBuffer {
    const buf: array<char>
    ghost const text: string
    var pairs: seq<StrPair>
    ghost var values: seq<string>

    /** The buffer of a text; no span is set yet. */
    constructor (text: string)
      requires NoNul(text)
      ensures Valid(0) && this.text == text && pairs == [] && fresh(buf)
    {
      this.text := text;
      pairs, values := [], [];
      buf := new char[|text| + 1](i => if 0 <= i < |text| then text[i] else NUL);
    }

    /** Every span holds its value, spans are apart and lie before the read cursor, and what lies ahead of the cursor is
        the original text. */
    ghost predicate Valid(cursor: nat)
      reads this, buf
    {
      && cursor <= |text| && buf.Length == |text| + 1 && NoNul(text) && buf[|text|] == NUL
      && (forall k :: cursor <= k < |text| ==> buf[k] == text[k])
      && |pairs| == |values| && Apart(pairs)
      && (forall i :: 0 <= i < |pairs| ==> pairs[i].end <= cursor && Holds(buf[..], text, pairs[i], values[i]))
    }

    /** StrPair::GetStr: a pointer to the value of span `i`, whatever was read before and however often. Nothing but
        the span and its terminator changes. */
    method GetStr(i: nat, ghost cursor: nat) returns (p: nat)
      requires Valid(cursor) && i < |pairs| && (pairs[i].end < cursor || cursor == |text|)
      modifies this`pairs, buf
      ensures Valid(cursor) && |pairs| == |old(pairs)|
      ensures Reads(buf[..], p, pairs[i].end, values[i]) && !pairs[i].needsFlush && pairs[i].start == p
      ensures forall j :: 0 <= j < |pairs| && j != i ==> pairs[j] == old(pairs)[j]
      ensures old(pairs)[i].start <= p && pairs[i].end == old(pairs)[i].end
      ensures forall k :: 0 <= k < buf.Length && (k < old(pairs)[i].start || pairs[i].end < k) ==> buf[k] == old(buf[k])
    {
      hide Value;
      var pair := pairs[i];
      if !pair.needsFlush {
        return pair.start;
      }
      SpanHasNoNul(buf[..], text, pair, values[i]);
      ghost var b := buf[..];
      p := Flush(buf, pair);
      assert b[pair.start..pair.end] == old(buf[pair.start..pair.end]);
      pairs := pairs[i := pair.(start := p, needsFlush := false)];
      OthersHold(b, buf[..], text, old(pairs), i, values);
    }

    /** The C string at `p`. */
    method Fetch(p: nat, ghost end: nat, ghost v: string) returns (s: string)
      requires Reads(buf[..], p, end, v)
      ensures s == v
    {
      ReadsAt(buf[..], p, end, v);
      s := "";
      while buf[p + |s|] != NUL
        invariant |s| <= |v| && s == v[..|s|]
        decreases |v| - |s|
      {
        s := s + [buf[p + |s|]];
      }
    }

    /** After a parse, reading spans in any order, and any of them any number of times, gives the same strings. */
    method ReadInOrder(order: seq<nat>) returns (strings: seq<string>)
      requires Valid(|text|) && forall k :: 0 <= k < |order| ==> order[k] < |pairs|
      modifies this`pairs, buf
      ensures Valid(|text|) && |strings| == |order|
      ensures forall k :: 0 <= k < |order| ==> order[k] < |values| && strings[k] == values[order[k]]
    {
      hide Valid, Reads;
      strings := [];
      for i := 0 to |order|
        invariant Valid(|text|) && |pairs| == |old(pairs)| && |strings| == i
        invariant forall k :: 0 <= k < i ==> order[k] < |values| && strings[k] == values[order[k]]
      {
        InTable(order[i]);
        var p := GetStr(order[i], |text|);
        var s := Fetch(p, pairs[order[i]].end, values[order[i]]);
        strings := strings + [s];
      }
    }

    lemma InTable(i: nat)
      requires Valid(|text|) && i < |pairs|
      ensures i < |values|
    {
    }

    /** Every span ends strictly before `p`. */
    ghost predicate Clear(p: nat)
      reads this
    {
      forall i :: 0 <= i < |pairs| ==> pairs[i].end < p
    }

    /** From `p` on the buffer still holds the original text. */
    lemma Unread(p: nat)
      requires Valid(p)
      ensures TextAt(buf, p, |text|) && buf[p..|text|] == text[p..]
    {
    }

    lemma EndOfText(p: nat)
      requires Valid(p)
      ensures p < buf.Length && (buf[p] == NUL <==> p == |text|)
    {
    }

    /** XMLUtil::StringEqual on two values of the table. */
    method StringEqual(p: nat, q: nat, ghost v: string, ghost w: string, ghost vEnd: nat, ghost wEnd: nat)
      returns (equal: bool)
      requires Reads(buf[..], p, vEnd, v) && Reads(buf[..], q, wEnd, w)
      ensures equal <==> v == w
    {
      ReadsAt(buf[..], p, vEnd, v);
      ReadsAt(buf[..], q, wEnd, w);
      var k := 0;
      while buf[p + k] == buf[q + k] && buf[p + k] != NUL
        invariant k <= |v| && k <= |w| && v[..k] == w[..k]
        decreases |v| - k
      {
        k := k + 1;
      }
      return buf[p + k] == buf[q + k];
    }

    /** XMLUtil::SkipWhiteSpace, with the line feeds passed over. */
    method SkipSpace(p: nat) returns (q: nat, lines: nat)
      requires Valid(p)
      ensures Valid(q) && p <= q && text[q..] == XmlText.SkipWhiteSpace(text[p..]) && lines == LineFeeds(text[p..q])
      ensures buf[q] == if q == |text| then NUL else text[q]
      ensures q < |text| ==> !IsWhiteSpace(text[q])
    {
      hide Valid, XmlText.SkipWhiteSpace, LineFeeds;
      InRange(p);
      UnreadAt(p, p);
      q, lines := InPlaceDecoder.SkipWhiteSpace(buf, p, |text|);
      FurtherOn(p, q);
      UnreadAt(p, q);
    }

    lemma FurtherOn(p: nat, q: nat)
      requires Valid(p) && p <= q <= |text|
      ensures Valid(q) && buf[p..q] == text[p..q]
    {
      hide Holds;
      SameText(buf[..], text, p, q);
    }

    /** StrPair::Set on the text between two places ahead of every span. */
    method SetSpan(start: nat, end: nat, flags: Flags, ghost cursor: nat)
      requires Valid(start) && Clear(start) && start <= end <= cursor <= |text|
      modifies this`pairs, this`values
      ensures Valid(cursor)
      ensures pairs == old(pairs) + [StrPair(start, end, flags, true)]
      ensures values == old(values) + [Value(flags, text[start..end])]
    {
      hide Value;
      pairs := pairs + [StrPair(start, end, flags, true)];
      values := values + [Value(flags, text[start..end])];
      assert buf[..][start..end] == text[start..end];
    }

    /** StrPair::ParseText: set the span up to the end tag and go past the tag; or find no tag. */
    method ParseText(p: nat, tag: string, flags: Flags) returns (r: Option<nat>, lines: nat)
      requires Valid(p) && Clear(p) && tag != [] && NoNul(tag)
      modifies this`pairs, this`values
      ensures match TakeSpan(text[p..], tag)
        case None => r.None? && pairs == old(pairs) && values == old(values)
        case Some((span, rest)) =>
          && r == Some(p + |span| + |tag|) && Valid(r.value) && text[r.value..] == rest && lines == LineFeeds(span)
          && pairs == old(pairs) + [StrPair(p, p + |span|, flags, true)]
          && values == old(values) + [Value(flags, span)]
    {
      hide Value, TakeSpan;
      var end;
      end, lines := FindTag(p, tag);
      SpanOfTag(text, p, tag);
      if end.None? {
        return None, lines;
      }
      SetSpan(p, end.value, flags, end.value + |tag|);
      return Some(end.value + |tag|), lines;
    }

    /** StrPair::ParseName: set the span of the name at `p`; or find no name. */
    method ParseName(p: nat) returns (r: Option<nat>)
      requires Valid(p) && Clear(p)
      modifies this`pairs, this`values
      ensures match TakeName(text[p..])
        case None => r.None? && pairs == old(pairs) && values == old(values)
        case Some((name, rest)) =>
          && r == Some(p + |name|) && Valid(r.value) && text[r.value..] == rest
          && pairs == old(pairs) + [StrPair(p, p + |name|, PLAIN, true)]
          && values == old(values) + [name]
    {
      hide Value, Holds, NameRun;
      NameStarts(text, p);
      if buf[p] == NUL || !IsNameStartChar(buf[p]) {
        return None;
      }
      var q := NameEnd(p + 1);
      NameOf(text, p, q);
      SetSpan(p, q, PLAIN, q);
      PlainValue(text[p..q]);
      return Some(q);
    }

    /** The scan over name characters. */
    method NameEnd(p: nat) returns (q: nat)
      requires Valid(p)
      ensures p <= q <= |text| && q == p + NameRun(text[p..])
    {
      q := p;
      Unread(p);
      while buf[q] != NUL && IsNameChar(buf[q])
        invariant p <= q <= |text| && q + NameRun(text[q..]) == p + NameRun(text[p..])
        decreases |text| - q
      {
        assert text[q..][1..] == text[q + 1..];
        q := q + 1;
      }
      assert q < |text| ==> buf[q] == text[q];
    }

    /** The scan for the end tag, counting line feeds. */
    method FindTag(p: nat, tag: string) returns (r: Option<nat>, lines: nat)
      requires Valid(p) && tag != [] && NoNul(tag)
      ensures r == FindFrom(text, p, tag)
      ensures r.Some? ==> p <= r.value && r.value + |tag| <= |text| && lines == LineFeeds(text[p..r.value])
    {
      hide Valid, FindFrom;
      var q := p;
      lines := 0;
      InRange(p);
      while buf[q] != NUL
        invariant p <= q <= |text| && lines == LineFeeds(text[p..q])
        invariant FindFrom(text, q, tag) == FindFrom(text, p, tag)
        decreases |text| - q
      {
        UnreadAt(p, q);
        FindTurn(text, q, tag);
        var found := StrNCmp(buf, q, tag, |text|);
        if found {
          FindsWithin(text, q, tag);
          return Some(q), lines;
        }
        assert text[p..q + 1] == text[p..q] + [text[q]];
        LineFeedsAppend(text[p..q], text[q]);
        if buf[q] == LF {
          lines := lines + 1;
        }
        q := q + 1;
      }
      UnreadAt(p, q);
      FindAtEnd(text, tag);
      return None, lines;
    }

    lemma InRange(p: nat)
      requires Valid(p)
      ensures p <= |text| && buf.Length == |text| + 1
    {
    }

    /** At a place ahead of the cursor `p` stands the text, and the NUL only at its end. */
    lemma UnreadAt(p: nat, q: nat)
      requires Valid(p) && p <= q <= |text|
      ensures q < buf.Length && TextAt(buf, q, |text|) && buf[q..|text|] == text[q..]
      ensures buf[q] == NUL <==> q == |text|
      ensures q < |text| ==> buf[q] == text[q]
    {
    }
  }

  lemma FindsWithin(text: string, q: nat, tag: string)
    requires q <= |text| && tag != [] && tag <= text[q..]
    ensures q + |tag| <= |text|
  {
  }

  /** The place of the first end tag at or after `p`. */
  ghost function FindFrom(text: string, p: nat, tag: string): (r: Option<nat>)
    requires p <= |text| && tag != []
    ensures r.Some? ==> p <= r.value && r.value + |tag| <= |text|
  {
    match Find(text[p..], tag) case None => None case Some(k) => Some(p + k)
  }

  lemma FindTurn(text: string, q: nat, tag: string)
    requires q < |text| && tag != []
    ensures FindFrom(text, q, tag) == if tag <= text[q..] then Some(q) else FindFrom(text, q + 1, tag)
  {
    assert text[q..][1..] == text[q + 1..];
    if |text[q..]| < |tag| {
      NotFoundInShort(text[q + 1..], tag);
    }
  }

  lemma NotFoundInShort(s: string, tag: string)
    requires tag != [] && |s| < |tag|
    ensures Find(s, tag).None?
  {
  }

  lemma FindAtEnd(text: string, tag: string)
    requires tag != []
    ensures FindFrom(text, |text|, tag).None?
  {
  }

  lemma SpanOfTag(text: string, p: nat, tag: string)
    requires p <= |text| && tag != []
    ensures match FindFrom(text, p, tag)
      case None => TakeSpan(text[p..], tag).None?
      case Some(end) => TakeSpan(text[p..], tag) == Some((text[p..end], text[end + |tag|..]))
  {
    var r := Find(text[p..], tag);
    if r.Some? {
      assert text[p..][..r.value] == text[p..p + r.value];
      assert text[p..][r.value + |tag|..] == text[p + r.value + |tag|..];
    }
  }

  lemma ReadsAt(b: string, p: nat, end: nat, v: string)
    requires Reads(b, p, end, v)
    ensures forall k :: p <= k < p + |v| ==> b[k] == v[k - p]
    ensures forall k :: p <= k <= p + |v| ==> (b[k] == NUL <==> k == p + |v|)
  {
    assert forall k :: p <= k < p + |v| ==> b[k] == b[p..p + |v|][k - p];
  }

  lemma SameText(b: string, text: string, p: nat, q: nat)
    requires p <= q <= |text| == |b| - 1 && forall k :: p <= k < |text| ==> b[k] == text[k]
    ensures b[p..|text|] == text[p..] && b[q..|text|] == text[q..] && b[p..q] == text[p..q]
  {
  }

  lemma NameStarts(text: string, p: nat)
    requires p <= |text|
    ensures TakeName(text[p..]).None? <==> p == |text| || !IsNameStartChar(text[p])
  {
  }

  lemma NameOf(text: string, p: nat, q: nat)
    requires p < q <= |text| && IsNameStartChar(text[p]) && q == p + 1 + NameRun(text[p + 1..])
    ensures TakeName(text[p..]) == Some((text[p..q], text[q..]))
  {
    assert text[p..][1..] == text[p + 1..];
    assert text[p..][..q - p] == text[p..q] && text[p..][q - p..] == text[q..];
  }

  lemma PlainValue(s: string)
    requires NoNul(s)
    ensures Value(PLAIN, s) == s
  {
  }

  lemma SpanHasNoNul(b: string, text: string, p: StrPair, v: string)
    requires Holds(b, text, p, v) && p.needsFlush && NoNul(text)
    ensures forall k :: p.start <= k < p.end ==> b[k] != NUL
  {
    hide Value, Reads;
    assert forall k :: p.start <= k < p.end ==> b[k] == b[p.start..p.end][k - p.start] == text[k];
  }

  /** A change confined to one span leaves every other span as it was. */
  lemma OthersHold(b: string, after: string, text: string, pairs: seq<StrPair>, i: nat, values: seq<string>)
    requires |pairs| == |values| && Apart(pairs) && i < |pairs| && |after| == |b|
    requires forall j :: 0 <= j < |pairs| ==> Holds(b, text, pairs[j], values[j])
    requires forall k :: 0 <= k < |b| && (k < pairs[i].start || pairs[i].end < k) ==> after[k] == b[k]
    ensures forall j :: 0 <= j < |pairs| && j != i ==> Holds(after, text, pairs[j], values[j])
  {
    hide Value;
    forall j | 0 <= j < |pairs| && j != i
      ensures Holds(after, text, pairs[j], values[j])
    {
      var p := pairs[j];
      assert forall k :: p.start <= k <= p.end && k < |b| ==> after[k] == b[k];
      if p.needsFlush {
        assert after[p.start..p.end] == b[p.start..p.end];
      } else {
        assert after[p.start..p.start + |values[j]|] == b[p.start..p.start + |values[j]|];
      }
    }
  }
}
