/** The parser of a document, on its buffer (drivers/Mach3/tinyxml2.cpp:656-723, 988-1100, 1147-1171, 1356-1381,
    1815-1925, 2380-2408). */
module XmlDocuments {
  import opened XmlUtil
  import opened XmlText
  import opened XmlTree
  import opened XmlGrammar
  import opened InPlaceDecoder
  import opened StrPairs
  import opened LazyTree
  import opened NodeLines
  import opened ErrorLines

  lemma LineStep(text: string, p: nat)
    requires p < |text| && text[p] != LF
    ensures LineAt(text, p + 1) == LineAt(text, p)
  {
    LineMoves(text, p, p + 1);
    NoLineFeeds(text[p..p + 1]);
  }

  lemma LineSkipsName(text: string, p: nat)
    requires p <= |text| && TakeName(text[p..]).Some?
    ensures var q := p + |TakeName(text[p..]).value.0|; q <= |text| && LineAt(text, q) == LineAt(text, p)
  {
    var name := TakeName(text[p..]).value.0;
    var q := p + |name|;
    assert text[p..q] == name;
    LineMoves(text, p, q);
    NameHasNoLineFeed(text[p..]);
    NoLineFeeds(name);
  }

  lemma NameHasNoLineFeed(s: string)
    requires TakeName(s).Some?
    ensures forall i :: 0 <= i < |TakeName(s).value.0| ==> IsNameChar(TakeName(s).value.0[i])
  {
    assert forall i :: 1 <= i < 1 + NameRun(s[1..]) ==> s[i] == s[1..][i - 1];
  }

  /** What Identify returns for a node: its kind, its line, and where its ParseDeep starts. */
  datatype Found = Found(kind: Kind, line: nat, next: nat)

  /** What parsing a node returns: nothing; the node and the place after it; or the closing tag of its parent. */
  datatype NodeRead = NoNode | NodeRead(node: LazyNode, next: nat) | EndTag(name: nat, next: nat)

  /** What ParseAttributes returns: the place after the end of the tag, the attributes, and whether the tag seals. */
  datatype TagRead = NoTagRead | TagRead(after: nat, attributes: seq<LazyAttribute>, sealed: bool)

  /** What XMLElement::ParseDeep leaves: nothing; or the element, its closing type, the name of the closing tag its
      children ended at, and the place after it. */
  datatype ElementRead = NoElement | ElementRead(node: LazyNode, closing: ClosingType, endTag: Option<nat>, next: nat)

  /** How a child list ended: without a closing tag, or at one. */
  datatype ListEnd = NoEnd | AtTag(name: nat, next: nat)

  /** What parsing a tag returns: its name, attributes and closing type, and the place after it. */
  datatype NamedTag = NoName | Named(name: nat, attributes: seq<LazyAttribute>, closing: ClosingType, next: nat)

  class XMLDocument {
    const chars: CharBuffer
    const options: Options
    var parseCurLineNum: nat
    var parsingDepth: nat
    var error: Option<XMLError>
    var errorLineNum: nat
    var writeBOM: bool
    var children: seq<LazyNode>

    constructor (options: Options, text: string)
      requires NoNul(text)
      ensures chars.Valid(0) && chars.text == text && chars.pairs == [] && this.options == options
      ensures parseCurLineNum == 1 && parsingDepth == 0 && error == None && children == [] && !writeBOM
      ensures fresh(chars) && fresh(chars.buf)
    {
      this.options := options;
      chars := new CharBuffer(text);
      parseCurLineNum, parsingDepth, error, errorLineNum := 1, 0, None, 0;
      writeBOM, children := false, [];
    }

    /** The parse is at offset `p`: the buffer is in order and the line count is exact. */
    ghost predicate At(p: nat)
      reads this, chars, chars.buf
    {
      chars.Valid(p) && parseCurLineNum == LineAt(chars.text, p)
    }

    /** Whatever happened, every string set so far can still be read. */
    ghost predicate Readable()
      reads this, chars, chars.buf
    {
      chars.Valid(|chars.text|)
    }

    lemma StaysReadable(p: nat)
      requires At(p)
      ensures Readable() && p <= |chars.text|
    {
    }

    /** XMLUtil::SkipWhiteSpace with the document's line counter. */
    method SkipSpace(p: nat) returns (q: nat)
      requires At(p)
      modifies this`parseCurLineNum
      ensures At(q) && p <= q && chars.text[q..] == XmlText.SkipWhiteSpace(chars.text[p..])
      ensures q < |chars.text| ==> !IsWhiteSpace(chars.text[q])
      ensures q <= |chars.text| < chars.buf.Length && chars.buf[q] == if q == |chars.text| then NUL else chars.text[q]
    {
      hide Holds, XmlText.SkipWhiteSpace;
      var lines;
      q, lines := chars.SkipSpace(p);
      LineMoves(chars.text, p, q);
      parseCurLineNum := parseCurLineNum + lines;
    }

    /** White space and then one of `marks`, none of which is a line feed. */
    method ParseMark(p: nat, marks: string) returns (r: Option<nat>)
      requires At(p) && NoNul(marks) && LF !in marks
      modifies this`parseCurLineNum
      ensures match TakeMark(chars.text[p..], marks)
        case None => r.None?
        case Some((c, rest)) =>
          && r.Some? && p < r.value && At(r.value) && chars.text[r.value..] == rest && chars.buf[r.value - 1] == c
    {
      hide Holds, XmlText.SkipWhiteSpace;
      var q := SkipSpace(p);
      assert q < |chars.text| ==> chars.text[q..][0] == chars.buf[q] && chars.text[q..][1..] == chars.text[q + 1..];
      if chars.buf[q] !in marks {
        return None;
      }
      LineStep(chars.text, q);
      return Some(q + 1);
    }

    /** The value of an attribute whose name ends at `p`. */
    method ParseValue(p: nat) returns (r: Option<nat>)
      requires At(p)
      modifies this`parseCurLineNum, chars`pairs, chars`values
      ensures Readable()
      ensures match TakeValue(options, chars.text[p..])
        case None => r.None? && chars.values == old(chars.values)
        case Some((value, rest)) =>
          && r.Some? && p < r.value && At(r.value) && chars.Clear(r.value) && chars.text[r.value..] == rest
          && chars.values == old(chars.values) + [value]
    {
      hide Holds, TakeMark, TakeSpan, Value;
      var equals := ParseMark(p, "=");
      if equals.None? {
        return None;
      }
      var quote := ParseMark(equals.value, "\"'");
      if quote.None? {
        return None;
      }
      r := ParseSpan(quote.value, [chars.buf[quote.value - 1]], AttributeFlags(options));
    }

    /** XMLAttribute::ParseDeep at a name: the attribute and the place after its closing quote. */
    method ParseAttribute(p: nat) returns (r: Option<(nat, LazyAttribute)>)
      requires At(p) && chars.Clear(p)
      modifies this`parseCurLineNum, chars`pairs, chars`values
      ensures old(chars.values) <= chars.values && Readable()
      ensures match TakeAttribute(options, chars.text[p..])
        case None => r.None?
        case Some((a, rest)) =>
          && r.Some? && p < r.value.0 && At(r.value.0) && chars.Clear(r.value.0) && chars.text[r.value.0..] == rest
          && DenotesAttribute(chars.values, r.value.1, a)
          && r.value.1.line == old(parseCurLineNum)
    {
      hide Holds, TakeName, TakeValue;
      var line, index := parseCurLineNum, |chars.pairs|;
      var name := chars.ParseName(p);
      if name.None? {
        return None;
      }
      LineSkipsName(chars.text, p);
      if chars.buf[name.value] == NUL {
        NoValueAtEnd(options, chars.text, name.value);
        return None;
      }
      var value := ParseValue(name.value);
      if value.None? {
        return None;
      }
      return Some((value.value, LazyAttribute(line, index, index + 1)));
    }

    /** The first error of a parse; the parser never sets a second one. */
    method SetError(e: XMLError, line: nat)
      requires error.None?
      modifies this`error, this`errorLineNum
      ensures error == Some(e) && errorLineNum == line
    {
      error, errorLineNum := Some(e), line;
    }

    /** XMLElement::Attribute on the name at index `name`: is it one of `attributes`? */
    method HasName(attributes: seq<LazyAttribute>, name: nat, ghost seen: seq<Attribute>, ghost cursor: nat)
      returns (found: bool)
      requires chars.Valid(cursor) && chars.Clear(cursor) && name < |chars.values|
      requires DenotesAttributes(chars.values, attributes, seen)
      modifies chars`pairs, chars.buf
      ensures chars.Valid(cursor) && chars.Clear(cursor)
      ensures found <==> HasAttribute(seen, chars.values[name])
    {
      hide Holds;
      var p := chars.GetStr(name, cursor);
      for i := 0 to |attributes|
        invariant chars.Valid(cursor) && chars.Clear(cursor)
        invariant !chars.pairs[name].needsFlush && chars.pairs[name].start == p
        invariant forall j :: 0 <= j < i ==> seen[j].name != chars.values[name]
      {
        assert DenotesAttribute(chars.values, attributes[i], seen[i]);
        var equal := SameName(attributes[i].name, name, cursor);
        if equal {
          return true;
        }
      }
      return false;
    }

    /** Comparison of the string at index `i` with the one at index `j`, which has been read. */
    method SameName(i: nat, j: nat, ghost cursor: nat) returns (equal: bool)
      requires chars.Valid(cursor) && chars.Clear(cursor) && i < |chars.values| && j < |chars.values|
      requires !chars.pairs[j].needsFlush
      modifies chars`pairs, chars.buf
      ensures chars.Valid(cursor) && chars.Clear(cursor)
      ensures chars.pairs[j] == old(chars.pairs[j])
      ensures equal <==> chars.values[i] == chars.values[j]
    {
      hide Reads;
      var q := if i == j then chars.pairs[j].start else 0;
      if i != j {
        q := chars.GetStr(i, cursor);
      }
      equal := chars.StringEqual(q, chars.pairs[j].start, chars.values[i], chars.values[j],
        chars.pairs[i].end, chars.pairs[j].end);
    }

    /** One attribute of an element: parsed, and refused if its name is taken. */
    method AddAttribute(p: nat, attributes: seq<LazyAttribute>, ghost seen: seq<Attribute>)
      returns (r: Option<(nat, LazyAttribute)>)
      requires At(p) && chars.Clear(p) && error.None? && DenotesAttributes(chars.values, attributes, seen)
      modifies this`parseCurLineNum, this`error, this`errorLineNum, chars`pairs, chars`values, chars.buf
      ensures old(chars.values) <= chars.values && Readable()
      ensures r.None? ==> error == Some(ErrorParsingAttribute) && errorLineNum == old(parseCurLineNum)
      ensures r.Some? <==> Fresh(TakeAttribute(options, chars.text[p..]), seen)
      ensures r.Some? ==>
        var (a, rest) := TakeAttribute(options, chars.text[p..]).value;
        && p < r.value.0 <= |chars.text| && At(r.value.0) && chars.Clear(r.value.0) && error.None?
        && chars.text[r.value.0..] == rest
        && DenotesAttributes(chars.values, attributes + [r.value.1], seen + [a])
        && r.value.1.line == old(parseCurLineNum)
    {
      hide Holds, TakeAttribute;
      var line := parseCurLineNum;
      r := ParseAttribute(p);
      AttributesGrow(old(chars.values), chars.values, attributes, seen);
      if r.Some? {
        var taken := HasName(attributes, r.value.1.name, seen, r.value.0);
        if taken {
          r := None;
        }
      }
      if r.None? {
        SetError(ErrorParsingAttribute, line);
      }
    }

    /** No span reaches `p`, unless it ends there and no name begins there. */
    ghost predicate ClearUnlessName(p: nat)
      reads chars
    {
      forall i :: 0 <= i < |chars.pairs| ==>
        chars.pairs[i].end < p
        || (chars.pairs[i].end == p && (|chars.text| <= p || !IsNameStartChar(chars.text[p])))
    }

    /** What ParseAttributes returns from `p` on when the grammar says `result`; here as below, `wrong` is the line that
        goes with an error. */
    ghost predicate TagIs(p: nat, wrong: nat, result: AttributesResult, r: TagRead)
      reads this, chars, chars.buf
    {
      match result
      case BadAttributes(e) => r.NoTagRead? && error == Some(e) && errorLineNum == wrong && Readable()
      case GoodAttributes(attributes, rest, sealed) =>
        && r.TagRead? && At(r.after) && chars.Clear(r.after) && error.None?
        && chars.text[r.after..] == rest && r.sealed == sealed
        && DenotesAttributes(chars.values, r.attributes, attributes)
        && p <= |chars.text| && AttributesLined(options, chars.text, p, r.attributes)
    }

    /** The loop of ParseAttributes that began at `p`, now at `q`, with `attributes` read so far and `goal` and `wrong`
        what the grammar says of the tag of an element on `line`. */
    ghost predicate ReadingTag(p: nat, q: nat, line: nat, attributes: seq<LazyAttribute>, seen: seq<Attribute>,
            goal: AttributesResult, wrong: nat)
      reads this, chars, chars.buf
    {
      && p <= |chars.text| && q == AttributePlace(options, chars.text, p, |attributes|)
      && At(q) && ClearUnlessName(q) && error.None?
      && DenotesAttributes(chars.values, attributes, seen) && AttributesLined(options, chars.text, p, attributes)
      && TakeAttributes(options, chars.text[q..], seen) == goal
      && AttributesErrorLine(options, chars.text, q, seen, line) == wrong
    }

    /** XMLElement::ParseAttributes: the attributes, the place after the end of the tag, and whether it seals. */
    method ParseAttributes(p: nat, line: nat) returns (r: TagRead)
      requires At(p) && ClearUnlessName(p) && error.None?
      modifies this`parseCurLineNum, this`error, this`errorLineNum, chars`pairs, chars`values, chars.buf
      ensures old(chars.values) <= chars.values
      ensures p <= |chars.text| && (r.TagRead? ==> p < r.after)
      ensures TagIs(p, AttributesErrorLine(options, chars.text, p, [], line),
                    TakeAttributes(options, chars.text[p..], []), r)
    {
      hide Holds, TakeAttributes, LineAt, AttributesErrorLine;
      ghost var goal := TakeAttributes(options, chars.text[p..], []);
      ghost var wrong := AttributesErrorLine(options, chars.text, p, [], line);
      var q, attributes, done := p, [], false;
      r := NoTagRead;
      ghost var seen: seq<Attribute> := [];
      while !done
        invariant old(chars.values) <= chars.values && p <= q
        invariant !done ==> ReadingTag(p, q, line, attributes, seen, goal, wrong)
        invariant done ==> TagIs(p, wrong, goal, r) && (r.TagRead? ==> p < r.after)
        decreases !done, |chars.text| - q
      {
        done, r, q, attributes, seen := ReadTagTurn(p, q, line, attributes, seen, goal, wrong);
      }
    }

    /** One turn of the loop: an attribute, or the end of the tag. */
    method ReadTagTurn(ghost p: nat, q: nat, line: nat, attributes: seq<LazyAttribute>, ghost seen: seq<Attribute>,
            ghost goal: AttributesResult, ghost wrong: nat)
      returns (done: bool, r: TagRead, q': nat, attributes': seq<LazyAttribute>, ghost seen': seq<Attribute>)
      requires ReadingTag(p, q, line, attributes, seen, goal, wrong)
      modifies this`parseCurLineNum, this`error, this`errorLineNum, chars`pairs, chars`values, chars.buf
      ensures old(chars.values) <= chars.values && q <= q'
      ensures done ==> TagIs(p, wrong, goal, r) && (r.TagRead? ==> q < r.after)
      ensures !done ==> ReadingTag(p, q', line, attributes', seen', goal, wrong) && q < q'
    {
      hide CharBuffer.Valid, TakeAttributes, DenotesAttributes, LineAt, AttributesLined, AttributePlace, TakeTagEnd;
      hide XmlText.SkipWhiteSpace, IsWhiteSpace, AttributesErrorLine;
      done, r, attributes', seen' := true, NoTagRead, attributes, seen;
      ghost var s := chars.text[q..];
      chars.InRange(q);
      q' := SkipSpace(q);
      if chars.buf[q'] != NUL && IsNameStartChar(chars.buf[q']) {
        var next;
        next, seen' := ReadAttribute(p, q, q', line, attributes, seen, goal, wrong);
        if next.Some? {
          done, q', attributes' := false, next.value.0, attributes + [next.value.1];
        }
      } else {
        AttributesEnd(options, s, chars.text[q'..], seen);
        EndErrorLine(options, chars.text, q, q', seen, line);
        r := FinishTag(p, q', line, attributes, seen);
      }
    }

    /** The attribute of a turn: white space before it begins at `c`, and its name at `q`. */
    method ReadAttribute(ghost p: nat, ghost c: nat, q: nat, ghost line: nat, attributes: seq<LazyAttribute>,
            ghost seen: seq<Attribute>, ghost goal: AttributesResult, ghost wrong: nat)
      returns (next: Option<(nat, LazyAttribute)>, ghost seen': seq<Attribute>)
      requires At(q) && chars.Clear(q) && error.None? && q < |chars.text| && IsNameStartChar(chars.text[q])
      requires p <= |chars.text| && c == AttributePlace(options, chars.text, p, |attributes|)
      requires DenotesAttributes(chars.values, attributes, seen) && AttributesLined(options, chars.text, p, attributes)
      requires chars.text[q..] == XmlText.SkipWhiteSpace(chars.text[c..])
      requires TakeAttributes(options, chars.text[c..], seen) == goal
      requires AttributesErrorLine(options, chars.text, c, seen, line) == wrong
      modifies this`parseCurLineNum, this`error, this`errorLineNum, chars`pairs, chars`values, chars.buf
      ensures old(chars.values) <= chars.values
      ensures next.None? ==> TagIs(p, wrong, goal, NoTagRead)
      ensures next.Some? ==> q < next.value.0
      ensures next.Some? ==> ReadingTag(p, next.value.0, line, attributes + [next.value.1], seen', goal, wrong)
    {
      hide CharBuffer.Valid, TakeAttribute, TakeAttributes, DenotesAttributes, HasAttribute, LineAt;
      hide AttributesLined, AttributePlace, XmlText.SkipWhiteSpace, AttributesErrorLine;
      seen' := seen;
      ghost var parsed := TakeAttribute(options, chars.text[q..]);
      AttributeErrorLine(options, chars.text, c, q, seen, line);
      AttributesTurn(options, chars.text[c..], chars.text[q..], seen);
      next := AddAttribute(q, attributes, seen);
      if next.Some? {
        AttributeEnds(options, chars.text, p, |attributes|, q, next.value.0);
        AttributesStayLined(options, chars.text, p, attributes, next.value.1);
        seen' := seen + [parsed.value.0];
      }
    }

    /** The end of a tag at a significant character that begins no attribute. */
    method FinishTag(ghost p: nat, q: nat, line: nat, attributes: seq<LazyAttribute>, ghost seen: seq<Attribute>)
      returns (r: TagRead)
      requires At(q) && error.None? && p <= |chars.text|
      requires DenotesAttributes(chars.values, attributes, seen) && AttributesLined(options, chars.text, p, attributes)
      modifies this`error, this`errorLineNum
      ensures TagIs(p, line, TakeTagEnd(chars.text[q..], seen), r) && (r.TagRead? ==> q < r.after)
    {
      hide Holds, DenotesAttributes, LineAt, AttributesLined;
      var c := chars.buf[q];
      if c == NUL {
        SetError(ErrorParsingElement, line);
        return NoTagRead;
      } else if c == '>' {
        LineStep(chars.text, q);
        return TagRead(q + 1, attributes, false);
      } else if c == '/' && chars.buf[q + 1] == '>' {
        LineStep(chars.text, q);
        LineStep(chars.text, q + 1);
        return TagRead(q + 2, attributes, true);
      } else {
        SetError(ErrorParsingElement, line);
        return NoTagRead;
      }
    }

    /** No span reaches `p`, unless it ends there and a tag begins there. */
    ghost predicate ClearUnlessTag(p: nat)
      reads chars
    {
      forall i :: 0 <= i < |chars.pairs| ==>
        chars.pairs[i].end < p || (chars.pairs[i].end == p && p < |chars.text| && chars.text[p] == '<')
    }

    /** XMLDocument::Identify: the next node, or none when only white space is left. Text backs up to where the white
        space began, and the line counter with it. */
    method Identify(p: nat) returns (r: Option<Found>)
      requires At(p) && ClearUnlessTag(p)
      modifies this`parseCurLineNum
      ensures r.None? ==> XmlGrammar.Identify(chars.text[p..]) == None
      ensures r.Some? ==>
        var f := r.value;
        && p <= |chars.text| && At(f.next) && chars.Clear(f.next) && FoundAt(chars.text, p, f)
        && XmlGrammar.Identify(chars.text[p..]) == Some((f.kind, chars.text[f.next..]))
        && p <= f.next && (f.kind != KText ==> p < f.next)
    {
      hide CharBuffer.Valid, LineAt, XmlGrammar.Identify, XmlText.SkipWhiteSpace, FoundAt;
      chars.InRange(p);
      var startLine := parseCurLineNum;
      var q := SkipSpace(p);
      chars.EndOfText(q);
      if chars.buf[q] == NUL {
        NothingIdentified(chars.text, p, q);
        return None;
      }
      var found := IdentifyAt(p, q, startLine);
      return Some(found);
    }

    /** The node whose first significant character is at `q`, white space before it beginning at `p`. */
    method IdentifyAt(p: nat, q: nat, startLine: nat) returns (f: Found)
      requires p <= q < |chars.text| && chars.text[q..] == XmlText.SkipWhiteSpace(chars.text[p..])
      requires At(q) && chars.Valid(p) && startLine == LineAt(chars.text, p) && ClearUnlessTag(p)
      modifies this`parseCurLineNum
      ensures At(f.next) && chars.Clear(f.next) && p <= f.next && FoundAt(chars.text, p, f)
      ensures XmlGrammar.Identify(chars.text[p..]) == Some((f.kind, chars.text[f.next..]))
      ensures f.kind != KText ==> p < f.next
    {
      hide KindOf, XmlGrammar.Identify, XmlText.SkipWhiteSpace, CharBuffer.Valid, CharBuffer.Clear, ClearUnlessTag;
      hide LineAt;
      var line := parseCurLineNum;
      var kind := HeaderAt(q);
      IdentifiedAt(chars.text, p, q, kind);
      if kind == KText {
        parseCurLineNum := startLine;
        ClearAtText(p);
        return Found(kind, line, p);
      }
      LineSkipsHeader(chars.text, q, kind);
      AheadOf(q, q + |Header(kind)|);
      return Found(kind, line, q + |Header(kind)|);
    }

    lemma ClearAtText(p: nat)
      requires p < |chars.text| && ClearUnlessTag(p) && chars.text[p] != '<'
      ensures chars.Clear(p)
    {
    }

    lemma AheadOf(p: nat, q: nat)
      requires chars.Valid(p) && p < q <= |chars.text|
      ensures chars.Valid(q) && chars.Clear(q)
    {
    }

    /** What is returned of the node read from `p`, when the grammar says `result`; a failure may leave it to the caller
        to report ErrorParsing. */
    ghost predicate NodeIs(p: nat, depth: nat, wrong: nat, result: NodeResult, r: NodeRead)
      reads this, chars, chars.buf
    {
      match result
      case Bad(e) =>
        && r.NoNode? && Readable()
        && ((error == Some(e) && errorLineNum == wrong) || (error.None? && e == ErrorParsing))
      case Parsed(v, rest) =>
        && r.NodeRead? && At(r.next) && ClearUnlessTag(r.next) && error.None? && chars.text[r.next..] == rest
        && Denotes(chars.values, r.node, v)
        && p <= |chars.text| && Lined(options, chars.text, p, depth, r.node)
      case ClosingTag(name, rest) =>
        && r.EndTag? && At(r.next) && chars.Clear(r.next) && error.None? && chars.text[r.next..] == rest
        && Names(chars.values, r.name, name)
    }

    /** ParseDeep of text, CDATA, comments, declarations and unknowns. */
    method ParseLeaf(f: Found, ghost p: nat, ghost depth: nat) returns (r: NodeRead)
      requires f.next <= |chars.text| && At(f.next) && chars.Clear(f.next) && error.None? && f.kind != KElement
      requires p <= |chars.text| && FoundAt(chars.text, p, f)
      modifies this`parseCurLineNum, this`error, this`errorLineNum, chars`pairs, chars`values
      ensures old(chars.values) <= chars.values
      ensures NodeIs(p, depth, f.line, TakeLeaf(options, f.kind, chars.text[f.next..]), r)
    {
      hide Value, TakeSpan, TakeLeaf, KindOf, CharBuffer.Valid, CharBuffer.Clear, ClearUnlessTag, FoundAt, NodeIs;
      LeafTaken(options, f.kind, chars.text[f.next..]);
      var index := |chars.pairs|;
      var after := SpanOfLeaf(f);
      if after.None? {
        SetError(LeafError(f.kind), f.line);
        NothingRead(p, depth, f.line, LeafError(f.kind));
        return NoNode;
      }
      r := LeafRead(f, p, depth, index, after.value);
    }

    lemma NothingRead(p: nat, depth: nat, wrong: nat, e: XMLError)
      requires Readable() && error == Some(e) && errorLineNum == wrong
      ensures NodeIs(p, depth, wrong, Bad(e), NoNode)
    {
    }

    /** The leaf whose span ended before `after`. */
    method LeafRead(f: Found, ghost p: nat, ghost depth: nat, index: nat, after: nat) returns (r: NodeRead)
      requires p <= |chars.text| && FoundAt(chars.text, p, f)
      requires f.kind != KElement && error.None? && index < |chars.values|
      requires after <= |chars.text| < chars.buf.Length && (chars.buf[after] == NUL <==> chars.text[after..] == [])
      requires At(after) && ClearUnlessTag(after) && (f.kind == KText ==> CanStepBack(after))
      ensures var rest := chars.text[after..];
        NodeIs(p, depth, f.line,
               if f.kind != KText then Parsed(Leaf(f.kind, chars.values[index]), rest)
               else if rest == [] then Bad(ErrorParsing) else Parsed(Leaf(KText, chars.values[index]), ['<'] + rest), r)
    {
      hide KindOf, CharBuffer.Clear, ClearUnlessTag, Denotes, Lined, LineAt, FoundAt, First, XmlText.SkipWhiteSpace;
      LeafDenotes(options, chars.text, p, depth, chars.values, f, index, chars.values[index]);
      var node := LazyLeaf(f.line, f.kind, index);
      if f.kind != KText {
        return NodeRead(node, after);
      }
      if chars.buf[after] == NUL {
        return NoNode;
      }
      StepBack(after);
      return NodeRead(node, after - 1);
    }

    /** The span of a leaf. */
    method SpanOfLeaf(f: Found) returns (r: Option<nat>)
      requires At(f.next) && chars.Clear(f.next) && error.None?
      modifies this`parseCurLineNum, chars`pairs, chars`values
      ensures old(chars.values) <= chars.values && Readable()
      ensures |old(chars.pairs)| == |old(chars.values)|
      ensures match TakeSpan(chars.text[f.next..], LeafTag(f.kind))
        case None => r.None?
        case Some((span, rest)) =>
          && r.Some? && f.next < r.value <= |chars.text| < chars.buf.Length
          && At(r.value) && ClearUnlessTag(r.value) && chars.text[r.value..] == rest
          && chars.values == old(chars.values) + [Value(LeafFlags(options, f.kind), span)]
          && (f.kind == KText ==> CanStepBack(r.value))
          && (chars.buf[r.value] == NUL <==> rest == [])
    {
      hide Value, TakeSpan, LineAt;
      r := ParseSpan(f.next, LeafTag(f.kind), LeafFlags(options, f.kind));
      SpanEndsAtTag(chars.text, f.next, LeafTag(f.kind));
    }

    /** Right after the `<` that ends a text nothing has been read beyond the `<`. */
    ghost predicate CanStepBack(p: nat)
      reads this, chars, chars.buf
    {
      && 0 < p <= |chars.text| < chars.buf.Length && chars.buf[p - 1] == chars.text[p - 1] == '<'
      && forall i :: 0 <= i < |chars.pairs| ==> chars.pairs[i].end < p
    }

    lemma StepBack(p: nat)
      requires At(p) && CanStepBack(p)
      ensures At(p - 1) && ClearUnlessTag(p - 1) && chars.text[p - 1..] == ['<'] + chars.text[p..]
    {
      LineStep(chars.text, p - 1);
    }

    /** What is returned when the grammar says `result` of a tag whose name ends at `c`. */
    ghost predicate NamedIs(c: nat, wrong: nat, result: TagResult, r: NamedTag)
      reads this, chars, chars.buf
    {
      match result
      case NoTag(e) => r.NoName? && error == e && (e.Some? ==> errorLineNum == wrong) && Readable()
      case Tag(name, attributes, closing, rest) =>
        && r.Named? && r.next <= |chars.text| && At(r.next) && chars.Clear(r.next) && error.None?
        && chars.text[r.next..] == rest && r.closing == closing && Names(chars.values, r.name, name)
        && DenotesAttributes(chars.values, r.attributes, attributes)
        && c <= |chars.text| && AttributesLined(options, chars.text, c, r.attributes)
    }

    /** The first half of XMLElement::ParseDeep: the slash, the name and the attributes. */
    method ParseTag(p: nat, line: nat) returns (r: NamedTag)
      requires At(p) && chars.Clear(p) && error.None?
      modifies this`parseCurLineNum, this`error, this`errorLineNum, chars`pairs, chars`values, chars.buf
      ensures old(chars.values) <= chars.values
      ensures p <= |chars.text| && (r.Named? ==> p < r.next)
      ensures NamedIs(AfterName(chars.text, NamePlace(chars.text, p)), TagErrorLine(options, chars.text, p, line),
                      TakeTag(options, chars.text[p..]), r)
    {
      hide TakeNamed, TakeTag, LineAt, CharBuffer.Valid, CharBuffer.Clear, NamedIs, AttributesErrorLine;
      var q, slash := SkipSlash(p);
      r := ParseNamed(q, line, slash);
    }

    /** White space and the slash of a closing tag. */
    method SkipSlash(p: nat) returns (q: nat, slash: bool)
      requires At(p) && chars.Clear(p)
      modifies this`parseCurLineNum
      ensures At(q) && chars.Clear(q) && p <= q == NamePlace(chars.text, p)
      ensures TakeTag(options, chars.text[p..]) == TakeNamed(options, chars.text[q..], slash)
    {
      hide TakeNamed, TakeTag, LineAt, CharBuffer.Valid, CharBuffer.Clear, XmlText.SkipWhiteSpace, NamePlace;
      chars.InRange(p);
      q := SkipSpace(p);
      slash := false;
      TagUnfolds(options, chars.text, p, q);
      ClearAhead(p, q);
      if chars.buf[q] == '/' {
        LineStep(chars.text, q);
        AheadOf(q, q + 1);
        q, slash := q + 1, true;
      }
    }

    lemma ClearAhead(p: nat, q: nat)
      requires chars.Clear(p) && p <= q
      ensures chars.Clear(q)
    {
    }

    method ParseNamed(p: nat, line: nat, slash: bool) returns (r: NamedTag)
      requires At(p) && chars.Clear(p) && error.None?
      modifies this`parseCurLineNum, this`error, this`errorLineNum, chars`pairs, chars`values, chars.buf
      ensures old(chars.values) <= chars.values
      ensures p <= |chars.text| && (r.Named? ==> p < r.next)
      ensures var c := AfterName(chars.text, p);
        NamedIs(c, AttributesErrorLine(options, chars.text, c, [], line), TakeNamed(options, chars.text[p..], slash), r)
    {
      hide AttributesErrorLine;
      hide TakeAttributes, LineAt, Holds, AttributesLined, NamePlace, First, XmlText.SkipWhiteSpace, NameRun;
      var index := |chars.pairs|;
      var end := chars.ParseName(p);
      if end.None? {
        return NoName;
      }
      LineSkipsName(chars.text, p);
      NameStops(chars.text[p..]);
      var tag := ParseAttributes(end.value, line);
      if tag.NoTagRead? {
        return NoName;
      }
      return Named(index, tag.attributes, if tag.sealed then CLOSED else if slash then CLOSING else OPEN, tag.after);
    }

    /** What is returned when the grammar says `result` of the element read from `p`. */
    ghost predicate ElementIs(p: nat, depth: nat, wrong: nat, result: DeepResult, r: ElementRead)
      reads this, chars, chars.buf
    {
      match result
      case DeepFailed(e) => r.NoElement? && error == e && (e.Some? ==> errorLineNum == wrong) && Readable()
      case Deep(name, attributes, children, closing, endTag, rest) =>
        && r.ElementRead? && At(r.next) && chars.Clear(r.next) && error.None? && chars.text[r.next..] == rest
        && Denotes(chars.values, r.node, Element(name, attributes, children))
        && p <= |chars.text| && Lined(options, chars.text, p, depth, r.node)
        && r.closing == closing && (r.endTag.Some? <==> endTag.Some?)
        && (r.endTag.Some? ==> Names(chars.values, r.endTag.value, endTag.value))
    }

    /** What is returned when the grammar says `result` of a child list that begins at `p`. */
    ghost predicate ListIs(p: nat, depth: nat, wrong: nat, result: ListResult, nodes: seq<LazyNode>, end: ListEnd)
      reads this, chars, chars.buf
    {
      && DenotesAll(chars.values, nodes, result.nodes) && Readable()
      && p <= |chars.text| && AllLined(options, chars.text, p, depth, nodes)
      && match result.stop
         case EndOfText => end.NoEnd? && error.None?
         case Failed(e) => end.NoEnd? && error == Some(e) && errorLineNum == wrong
         case Closed(name, rest) =>
           && end.AtTag? && At(end.next) && chars.Clear(end.next) && error.None?
           && chars.text[end.next..] == rest && Names(chars.values, end.name, name)
    }

    /** The state in which an element or a child list is parsed from `p` on. */
    ghost predicate Parsing(p: nat)
      reads this, chars, chars.buf
    {
      p <= |chars.text| && At(p) && ClearUnlessTag(p) && error.None? && parsingDepth < MAX_ELEMENT_DEPTH
    }

    /** XMLElement::ParseDeep: the tag and, if it is open, the child list. */
    method ParseElement(f: Found, ghost p: nat) returns (r: ElementRead)
      requires Parsing(f.next) && chars.Clear(f.next) && f.kind == KElement
      requires p <= |chars.text| && FoundAt(chars.text, p, f)
      modifies this`parseCurLineNum, this`parsingDepth, this`error, this`errorLineNum
      modifies chars`pairs, chars`values, chars.buf
      ensures old(chars.values) <= chars.values && parsingDepth == old(parsingDepth)
      ensures ElementIs(p, old(parsingDepth), NodeErrorLine(options, chars.text, p, old(parsingDepth)),
                        ElementDeep(options, chars.text[f.next..], old(parsingDepth)), r)
      ensures r.ElementRead? ==> f.next < r.next
      decreases |chars.text| - f.next, 0
    {
      hide TakeTag, TakeLevel, LineAt, KindOf, Holds, Lined, AttributesLined, First, NamePlace, AfterName, AfterTag;
      hide XmlText.SkipWhiteSpace, DenotesAttributes, NodeErrorLine, TagErrorLine, LevelErrorLine;
      ElementErrors(options, chars.text, p, parsingDepth, f);
      var tag := ParseTag(f.next, f.line);
      if tag.NoName? {
        return NoElement;
      }
      ghost var t := TakeTag(options, chars.text[f.next..]);
      chars.EndOfText(tag.next);
      if chars.buf[tag.next] == NUL || tag.closing != OPEN {
        ChildlessDenotes(options, chars.text, p, parsingDepth, chars.values, f, tag, t);
        return ElementRead(LazyElement(f.line, tag.name, tag.attributes, []), tag.closing, None, tag.next);
      }
      r := ParseBody(f, p, tag, t);
    }

    /** The child list of an open element. */
    method ParseBody(f: Found, ghost p: nat, tag: NamedTag, ghost t: TagResult) returns (r: ElementRead)
      requires tag.Named? && t.Tag? && f.next < tag.next && p <= |chars.text| && f.next <= |chars.text|
      requires FoundAt(chars.text, p, f) && f.kind == KElement
      requires Parsing(tag.next) && t == TakeTag(options, chars.text[f.next..])
      requires NamedIs(AfterName(chars.text, NamePlace(chars.text, f.next)), 0, t, tag)
      modifies this`parseCurLineNum, this`parsingDepth, this`error, this`errorLineNum
      modifies chars`pairs, chars`values, chars.buf
      ensures old(chars.values) <= chars.values && parsingDepth == old(parsingDepth)
      ensures ElementIs(p, old(parsingDepth), LevelErrorLine(options, chars.text, tag.next, old(parsingDepth), false),
                        WithChildren(t, TakeLevel(options, t.rest, old(parsingDepth), false)), r)
      ensures r.ElementRead? ==> f.next < r.next
      decreases |chars.text| - tag.next, 5
    {
      hide TakeLevel, TakeTag, LineAt, KindOf, Holds, Lined, AllLined, AttributesLined, First, NamePlace, AfterName;
      hide XmlText.SkipWhiteSpace, DenotesAttributes, LevelErrorLine;
      var nodes, end := ParseLevel(tag.next, false);
      if end.NoEnd? {
        return NoElement;
      }
      AttributesGrow(old(chars.values), chars.values, tag.attributes, t.attributes);
      var node := LazyElement(f.line, tag.name, tag.attributes, nodes);
      ElementLined(options, chars.text, p, parsingDepth, f, tag, nodes);
      return ElementRead(node, tag.closing, Some(end.name), end.next);
    }

    /** XMLNode::ParseDeep: one level deeper, and the child list unless that is one too many. */
    method ParseLevel(p: nat, inDocument: bool) returns (nodes: seq<LazyNode>, end: ListEnd)
      requires Parsing(p)
      modifies this`parseCurLineNum, this`parsingDepth, this`error, this`errorLineNum
      modifies chars`pairs, chars`values, chars.buf
      ensures old(chars.values) <= chars.values && parsingDepth == old(parsingDepth)
      ensures var result := TakeLevel(options, chars.text[p..], old(parsingDepth), inDocument);
        ListIs(p, old(parsingDepth) + 1, LevelErrorLine(options, chars.text, p, old(parsingDepth), inDocument), result,
               nodes, end)
      ensures end.AtTag? ==> p < end.next
      decreases |chars.text| - p, 4
    {
      hide TakeList, LineAt, Holds, Lined, NodePlace, ListErrorLine;
      nodes, end := [], NoEnd;
      parsingDepth := parsingDepth + 1;
      if parsingDepth == MAX_ELEMENT_DEPTH {
        SetError(ElementDepthExceeded, parseCurLineNum);
      }
      if error.None? {
        nodes, end := ParseList(p, inDocument);
      }
      parsingDepth := parsingDepth - 1;
    }

    /** A node whose failure has been reported. */
    ghost predicate Settled(p: nat, depth: nat, wrong: nat, result: NodeResult, r: NodeRead)
      reads this, chars, chars.buf
    {
      NodeIs(p, depth, wrong, result, r) && (result.Bad? ==> error == Some(result.error) && errorLineNum == wrong)
    }

    /** The report a parent makes of a child that failed without one. */
    method Settle(r: NodeRead, line: nat, ghost p: nat, ghost depth: nat, ghost result: NodeResult)
      requires NodeIs(p, depth, line, result, r)
      modifies this`error, this`errorLineNum
      ensures Settled(p, depth, line, result, r)
    {
      hide Denotes, Lined, LineAt, Holds;
      if r.NoNode? && error.None? {
        SetError(ErrorParsing, line);
      }
    }

    /** The checks a parent makes of an element: closing tags go up, and an open tag must meet its own closing tag. */
    method CheckElement(f: Found, e: ElementRead, ghost p: nat, ghost depth: nat, ghost wrong: nat, ghost d: DeepResult)
      returns (r: NodeRead)
      requires ElementIs(p, depth, wrong, d, e) && (!(d.DeepFailed? && d.error.Some?) ==> wrong == f.line)
      modifies this`error, this`errorLineNum, chars`pairs, chars.buf
      ensures Settled(p, depth, wrong, XmlGrammar.CheckElement(d), r)
    {
      hide Lined, LineAt, Holds, DenotesAll, DenotesAttributes;
      if e.NoElement? {
        if error.None? {
          SetError(ErrorParsing, f.line);
        }
        return NoNode;
      }
      if e.closing == CLOSING {
        return EndTag(e.node.name, e.next);
      }
      var mismatch := e.closing == OPEN;
      if e.endTag.Some? {
        var same := NamesEqual(e.endTag.value, e.node.name, e.next);
        mismatch := e.closing != OPEN || !same;
      }
      if mismatch {
        SetError(ErrorMismatchedElement, f.line);
        return NoNode;
      }
      return NodeRead(e.node, e.next);
    }

    method NamesEqual(i: nat, j: nat, ghost cursor: nat) returns (equal: bool)
      requires chars.Valid(cursor) && chars.Clear(cursor) && i < |chars.values| && j < |chars.values|
      modifies chars`pairs, chars.buf
      ensures chars.Valid(cursor) && chars.Clear(cursor)
      ensures equal <==> chars.values[i] == chars.values[j]
    {
      hide Holds;
      var p := chars.GetStr(i, cursor);
      equal := SameName(j, i, cursor);
    }

    /** One turn of the child list: identify a node, parse it, and check it. */
    method ParseNode(p: nat) returns (found: bool, r: NodeRead, line: nat)
      requires Parsing(p)
      modifies this`parseCurLineNum, this`parsingDepth, this`error, this`errorLineNum
      modifies chars`pairs, chars`values, chars.buf
      ensures old(chars.values) <= chars.values && parsingDepth == old(parsingDepth)
      ensures var result := TakeNode(options, chars.text[p..], old(parsingDepth));
        if found then
          && result.Some?
          && Settled(p, old(parsingDepth), NodeErrorLine(options, chars.text, p, old(parsingDepth)), result.value, r)
        else result.None? && error.None? && Readable()
      ensures found ==> line == LineAt(chars.text, First(chars.text, p))
      ensures found && !r.NoNode? ==> p < r.next
      decreases |chars.text| - p, 1
    {
      hide ElementDeep, XmlGrammar.CheckElement, TakeLeaf, XmlGrammar.Identify, LineAt, Holds, KindOf, NodeIs;
      hide ElementIs, NodeErrorLine, FoundAt, First, XmlText.SkipWhiteSpace;
      r, line := NoNode, 0;
      var f := Identify(p);
      found := f.Some?;
      if found {
        line := f.value.line;
        ghost var wrong := NodeErrorLine(options, chars.text, p, parsingDepth);
        NodeErrors(options, chars.text, p, parsingDepth, f.value);
        if f.value.kind == KElement {
          var e := ParseElement(f.value, p);
          ghost var d := ElementDeep(options, chars.text[f.value.next..], parsingDepth);
          r := CheckElement(f.value, e, p, parsingDepth, wrong, d);
        } else {
          r := ParseLeaf(f.value, p, parsingDepth);
          Settle(r, line, p, parsingDepth, TakeLeaf(options, f.value.kind, chars.text[f.value.next..]));
        }
        NodeMoves(p, parsingDepth, wrong, TakeNode(options, chars.text[p..], parsingDepth).value, r);
      }
    }

    lemma NodeMoves(p: nat, depth: nat, wrong: nat, result: NodeResult, r: NodeRead)
      requires p <= |chars.text| && NodeIs(p, depth, wrong, result, r)
      requires !result.Bad? ==> |result.rest| < |chars.text| - p
      ensures !r.NoNode? ==> p < r.next
    {
      hide Denotes, Lined, LineAt, Holds;
    }

    /** The loop of XMLNode::ParseDeep that began at `c`, now at `p`, with `nodes` linked so far and `goal` and `wrong`
        what the grammar says of the list. */
    ghost predicate Listing(c: nat, p: nat, nodes: seq<LazyNode>, before: seq<Node>, inDocument: bool,
            goal: ListResult, wrong: nat)
      reads this, chars, chars.buf
    {
      && Parsing(p) && DenotesAll(chars.values, nodes, before)
      && c <= |chars.text| && p == NodePlace(options, chars.text, c, parsingDepth, |nodes|)
      && AllLined(options, chars.text, c, parsingDepth, nodes)
      && TakeList(options, chars.text[p..], parsingDepth, inDocument, before) == goal
      && ListErrorLine(options, chars.text, p, parsingDepth, inDocument, before) == wrong
    }

    method ParseList(p: nat, inDocument: bool) returns (nodes: seq<LazyNode>, end: ListEnd)
      requires Parsing(p)
      modifies this`parseCurLineNum, this`parsingDepth, this`error, this`errorLineNum
      modifies chars`pairs, chars`values, chars.buf
      ensures old(chars.values) <= chars.values && parsingDepth == old(parsingDepth)
      ensures ListIs(p, parsingDepth, ListErrorLine(options, chars.text, p, parsingDepth, inDocument, []),
                     TakeList(options, chars.text[p..], parsingDepth, inDocument, []), nodes, end)
      ensures end.AtTag? ==> p < end.next
      decreases |chars.text| - p, 3
    {
      hide TakeList, LineAt, Holds, ListIs, ListErrorLine;
      ghost var goal := TakeList(options, chars.text[p..], parsingDepth, inDocument, []);
      ghost var wrong := ListErrorLine(options, chars.text, p, parsingDepth, inDocument, []);
      var q, done := p, false;
      nodes, end := [], NoEnd;
      ghost var before := [];
      while !done
        invariant old(chars.values) <= chars.values && parsingDepth == old(parsingDepth) && p <= q
        invariant !done ==> Listing(p, q, nodes, before, inDocument, goal, wrong)
        invariant done ==> ListIs(p, parsingDepth, wrong, goal, nodes, end) && (end.AtTag? ==> p < end.next)
        decreases !done, |chars.text| - q
      {
        done, end, q, nodes, before := ListTurn(p, q, inDocument, nodes, before, goal, wrong);
      }
    }

    /** One turn: the next node is linked, or the list ends. */
    method ListTurn(ghost c: nat, p: nat, inDocument: bool, nodes: seq<LazyNode>, ghost before: seq<Node>,
            ghost goal: ListResult, ghost wrong: nat)
      returns (done: bool, end: ListEnd, p': nat, nodes': seq<LazyNode>, ghost before': seq<Node>)
      requires Listing(c, p, nodes, before, inDocument, goal, wrong)
      modifies this`parseCurLineNum, this`parsingDepth, this`error, this`errorLineNum
      modifies chars`pairs, chars`values, chars.buf
      ensures old(chars.values) <= chars.values && parsingDepth == old(parsingDepth) && p <= p'
      ensures done ==> ListIs(c, parsingDepth, wrong, goal, nodes', end) && (end.AtTag? ==> p < end.next)
      ensures !done ==> Listing(c, p', nodes', before', inDocument, goal, wrong) && p < p'
      decreases |chars.text| - p, 2
    {
      hide TakeList, TakeNode, LineAt, Holds, CharBuffer.Valid, Denotes, Lined, AllLined, NodePlace, ListErrorLine;
      hide NodeErrorLine, First;
      ghost var result := TakeNode(options, chars.text[p..], parsingDepth);
      ListUnfolds(options, chars.text[p..], parsingDepth, inDocument, before);
      ListErrors(options, chars.text, p, parsingDepth, inDocument, before);
      done, end, p', nodes', before' := true, NoEnd, p, nodes, before;
      var found, r, line := ParseNode(p);
      DenotesAllGrows(old(chars.values), chars.values, nodes, before);
      if found {
        if r.EndTag? {
          end := AtTag(r.name, r.next);
          StaysReadable(r.next);
        } else if r.NodeRead? {
          StaysReadable(r.next);
          SameLocation(chars.values, nodes, before, r.node, result.value.node);
          if IsDeclaration(r.node) && !(inDocument && DeclarationsOnly(nodes)) {
            SetError(ErrorParsingDeclaration, line);
          } else {
            NodeEnds(options, chars.text, c, parsingDepth, |nodes|, r.next);
            AllStayLined(options, chars.text, c, parsingDepth, nodes, r.node);
            done, p', nodes', before' := false, r.next, nodes + [r.node], before + [result.value.node];
          }
        }
      }
    }

    /** What the document holds when the grammar says `result` of its text: on success its children, every string of
        which reads as the grammar decodes it; on failure the error, and no children. */
    ghost predicate DocumentIs(result: ParseResult)
      reads this, chars, chars.buf
    {
      && Readable()
      && match result
         case Ok(d) =>
           error.None? && writeBOM == d.bom && DenotesAll(chars.values, children, d.children)
             && AllLined(options, chars.text, DocumentPlace(chars.text), 1, children)
         case Error(e, _) =>
           error == Some(e) && errorLineNum == DocumentErrorLine(options, chars.text) && children == []
    }

    /** XMLDocument::Parse on the text given to the constructor. */
    method Parse()
      requires chars.Valid(0) && chars.pairs == [] && parseCurLineNum == 1 && parsingDepth == 0
      requires error == None && children == [] && !writeBOM
      modifies this, chars, chars.buf
      ensures DocumentIs(XmlGrammar.Parse(options, chars.text)) && parsingDepth == 0
    {
      hide Holds, TakeLevel, XmlText.SkipWhiteSpace, Apart, DenotesAll, AllLined, LevelErrorLine, First;
      chars.EndOfText(0);
      if chars.buf[0] == NUL {
        SetError(ErrorEmptyDocument, 0);
        return;
      }
      assert LineAt(chars.text, 0) == 1;
      var p := ParseStart();
      if chars.buf[p] == NUL {
        SetError(ErrorEmptyDocument, 0);
        return;
      }
      var end;
      children, end := ParseLevel(p, true);
      if error.Some? {
        children := [];
      }
    }

    /** Leading white space and the byte order mark. */
    method ParseStart() returns (p: nat)
      requires At(0) && chars.pairs == [] && !writeBOM
      modifies this`parseCurLineNum, this`writeBOM
      ensures At(p) && p == DocumentPlace(chars.text) && (chars.buf[p] == NUL <==> chars.text[p..] == [])
      ensures var s := XmlText.SkipWhiteSpace(chars.text);
        writeBOM == (BOM <= s) && chars.text[p..] == if BOM <= s then s[3..] else s
    {
      hide Holds, XmlText.SkipWhiteSpace;
      assert chars.text[0..] == chars.text;
      p := SkipSpace(0);
      chars.Unread(p);
      var found := StrNCmp(chars.buf, p, BOM, |chars.text|);
      if found {
        writeBOM := true;
        BomHasNoLineFeed(chars.text, p);
        p := p + 3;
      }
    }

    /** The headers, tried in the order of the source. */
    method HeaderAt(q: nat) returns (k: Kind)
      requires At(q) && q < |chars.text|
      ensures k == KindOf(chars.text[q..])
    {
      hide Holds;
      chars.Unread(q);
      var b := StrNCmp(chars.buf, q, Header(KDeclaration), |chars.text|);
      if b {
        return KDeclaration;
      }
      b := StrNCmp(chars.buf, q, Header(KComment), |chars.text|);
      if b {
        return KComment;
      }
      b := StrNCmp(chars.buf, q, Header(KCData), |chars.text|);
      if b {
        return KCData;
      }
      b := StrNCmp(chars.buf, q, Header(KUnknown), |chars.text|);
      if b {
        return KUnknown;
      }
      b := StrNCmp(chars.buf, q, Header(KElement), |chars.text|);
      return if b then KElement else KText;
    }

    /** StrPair::ParseText with the document's line counter; no end tag contains a line feed. */
    method ParseSpan(p: nat, tag: string, flags: Flags) returns (r: Option<nat>)
      requires At(p) && chars.Clear(p) && tag != [] && NoNul(tag) && forall i :: 0 <= i < |tag| ==> tag[i] != LF
      modifies this`parseCurLineNum, chars`pairs, chars`values
      ensures old(chars.values) <= chars.values
      ensures match TakeSpan(chars.text[p..], tag)
        case None => r.None? && chars.pairs == old(chars.pairs) && chars.values == old(chars.values)
        case Some((span, rest)) =>
          && r == Some(p + |span| + |tag|) && At(r.value) && chars.text[r.value..] == rest
          && chars.pairs == old(chars.pairs) + [StrPair(p, p + |span|, flags, true)]
          && chars.values == old(chars.values) + [Value(flags, span)]
    {
      hide Holds, Value, TakeSpan;
      var lines;
      r, lines := chars.ParseText(p, tag, flags);
      parseCurLineNum := parseCurLineNum + lines;
      LineSkipsSpan(chars.text, p, tag);
    }
  }

  /** The attribute read from its place ends at the next one. */
  lemma AttributeEnds(o: Options, text: string, p: nat, i: nat, q: nat, next: nat)
    requires p <= |text| && q <= |text| && next <= |text|
    requires text[q..] == XmlText.SkipWhiteSpace(text[AttributePlace(o, text, p, i)..])
    requires TakeAttribute(o, text[q..]).Some? && TakeAttribute(o, text[q..]).value.1 == text[next..]
    ensures next == AttributePlace(o, text, p, i + 1) && q == First(text, AttributePlace(o, text, p, i))
  {
    hide XmlText.SkipWhiteSpace, TakeAttribute;
  }

  /** The node read from its place ends at the next one. */
  lemma NodeEnds(o: Options, text: string, c: nat, depth: nat, i: nat, next: nat)
    requires c <= |text| && next <= |text|
    requires var r := TakeNode(o, text[NodePlace(o, text, c, depth, i)..], depth);
      r.Some? && r.value.Parsed? && r.value.rest == text[next..]
    ensures next == NodePlace(o, text, c, depth, i + 1)
  {
    hide TakeNode;
  }

  // ---------- the lines of errors ----------

  lemma EndErrorLine(o: Options, text: string, p: nat, q: nat, seen: seq<Attribute>, line: nat)
    requires p <= q <= |text| && text[q..] == XmlText.SkipWhiteSpace(text[p..])
    requires q == |text| || !IsNameStartChar(text[q])
    ensures AttributesErrorLine(o, text, p, seen, line) == line
  {
    hide XmlText.SkipWhiteSpace, LineAt;
  }

  lemma AttributeErrorLine(o: Options, text: string, p: nat, q: nat, seen: seq<Attribute>, line: nat)
    requires p <= q < |text| && text[q..] == XmlText.SkipWhiteSpace(text[p..]) && IsNameStartChar(text[q])
    ensures var r := TakeAttribute(o, text[q..]);
      && (!Fresh(r, seen) ==> AttributesErrorLine(o, text, p, seen, line) == LineAt(text, q))
      && (Fresh(r, seen) ==>
            AttributesErrorLine(o, text, p, seen, line)
              == AttributesErrorLine(o, text, |text| - |r.value.1|, seen + [r.value.0], line))
  {
    hide XmlText.SkipWhiteSpace, LineAt, TakeAttribute, HasAttribute;
  }

  /** A node that Identify has found. */
  lemma NodeErrors(o: Options, text: string, p: nat, depth: nat, f: Found)
    requires p <= |text| && FoundAt(text, p, f)
    ensures f.line == LineAt(text, First(text, p))
    ensures f.kind != KElement ==> NodeErrorLine(o, text, p, depth) == f.line
    ensures f.kind == KElement ==> f.next <= |text|
    ensures f.kind == KElement ==>
      var d := ElementDeep(o, text[f.next..], depth);
      !(d.DeepFailed? && d.error.Some?) ==> NodeErrorLine(o, text, p, depth) == f.line
  {
    hide First, LineAt, KindOf, ElementDeep, ElementErrorLine, NodeErrorLine, TakeTag, TakeLevel;
    if f.kind == KElement {
      ElementErrors(o, text, p, depth, f);
      ElementFails(o, text[f.next..], depth);
    } else {
      LeafErrors(o, text, p, depth, f);
    }
  }

  lemma LeafErrors(o: Options, text: string, p: nat, depth: nat, f: Found)
    requires p <= |text| && FoundAt(text, p, f) && f.kind != KElement
    ensures NodeErrorLine(o, text, p, depth) == f.line
  {
    hide First, LineAt, KindOf, ElementErrorLine;
  }

  /** When an element fails with an error of its own: in its tag, or in its list. */
  lemma ElementFails(o: Options, s: string, depth: nat)
    ensures var t, d := TakeTag(o, s), ElementDeep(o, s, depth);
      d.DeepFailed? && d.error.Some? <==>
        (t.NoTag? && t.error.Some?)
        || (t.Tag? && t.rest != [] && t.closing == OPEN && TakeLevel(o, t.rest, depth, false).stop.Failed?)
  {
    hide TakeTag, TakeLevel;
  }

  /** An element, by what becomes of its tag and its list. */
  lemma ElementErrors(o: Options, text: string, p: nat, depth: nat, f: Found)
    requires p <= |text| && FoundAt(text, p, f) && f.kind == KElement
    ensures f.next <= |text|
    ensures var t, wrong := TakeTag(o, text[f.next..]), NodeErrorLine(o, text, p, depth);
      && (t.NoTag? && t.error.Some? ==> wrong == TagErrorLine(o, text, f.next, f.line))
      && (t.NoTag? && t.error.None? ==> wrong == f.line)
      && (t.Tag? && t.rest != [] && t.closing == OPEN && TakeLevel(o, t.rest, depth, false).stop.Failed? ==>
            wrong == LevelErrorLine(o, text, |text| - |t.rest|, depth, false))
      && (t.Tag? && !(t.rest != [] && t.closing == OPEN && TakeLevel(o, t.rest, depth, false).stop.Failed?) ==>
            wrong == f.line)
  {
    hide First, LineAt, KindOf, TakeTag, TakeLevel, TagErrorLine, LevelErrorLine;
  }

  /** One turn of a list. */
  lemma ListErrors(o: Options, text: string, p: nat, depth: nat, inDocument: bool, before: seq<Node>)
    requires p <= |text|
    ensures var r, wrong := TakeNode(o, text[p..], depth), ListErrorLine(o, text, p, depth, inDocument, before);
      && (r.Some? && r.value.Bad? ==> wrong == NodeErrorLine(o, text, p, depth))
      && (r.Some? && r.value.Parsed? ==>
            wrong == if r.value.node.Declaration? && !WellLocated(inDocument, before) then LineAt(text, First(text, p))
                     else ListErrorLine(o, text, |text| - |r.value.rest|, depth, inDocument, before + [r.value.node]))
  {
    hide TakeNode, NodeErrorLine, LineAt, First, WellLocated;
  }

  /** An attribute was read and its name is not taken. */
  predicate Fresh(r: Option<(Attribute, string)>, seen: seq<Attribute>) {
    r.Some? && !HasAttribute(seen, r.value.0.name)
  }

  /** One turn of TakeAttributes that reads an attribute. */
  lemma AttributesTurn(o: Options, s: string, t: string, seen: seq<Attribute>)
    requires t == XmlText.SkipWhiteSpace(s) && t != [] && IsNameStartChar(t[0])
    ensures var r := TakeAttribute(o, t);
      TakeAttributes(o, s, seen) == if Fresh(r, seen) then TakeAttributes(o, r.value.1, seen + [r.value.0])
                                    else BadAttributes(ErrorParsingAttribute)
  {
    hide TakeAttribute, HasAttribute;
  }

  /** Its last turn. */
  lemma AttributesEnd(o: Options, s: string, t: string, seen: seq<Attribute>)
    requires t == XmlText.SkipWhiteSpace(s) && !(t != [] && IsNameStartChar(t[0]))
    ensures TakeAttributes(o, s, seen) == TakeTagEnd(t, seen)
  {
  }

  lemma NoValueAtEnd(o: Options, text: string, p: nat)
    requires p == |text|
    ensures TakeValue(o, text[p..]).None?
  {
  }

  /** What Identify finds from `p` on: the header stands at the first significant character, the line is that place's,
      and ParseDeep starts after the header, or for text where the white space began. */
  predicate FoundAt(text: string, p: nat, f: Found)
    requires p <= |text|
  {
    var q := First(text, p);
    && q < |text| && KindOf(text[q..]) == f.kind && f.line == LineAt(text, q)
    && f.next == if f.kind == KText then p else q + |Header(f.kind)|
  }

  lemma SpanEndsAtTag(text: string, p: nat, tag: string)
    requires p <= |text| && tag != []
    ensures match TakeSpan(text[p..], tag)
      case None => true
      case Some((span, rest)) => var q := p + |span| + |tag|; q <= |text| && text[q - 1] == tag[|tag| - 1]
  {
    hide Find;
  }

  lemma LeafTaken(o: Options, k: Kind, s: string)
    requires k != KElement
    ensures TakeSpan(s, LeafTag(k)).None? ==> TakeLeaf(o, k, s) == Bad(LeafError(k))
    ensures TakeSpan(s, LeafTag(k)).Some? ==>
      var (span, rest) := TakeSpan(s, LeafTag(k)).value;
      && (k == KText && rest == [] ==> TakeLeaf(o, k, s) == Bad(ErrorParsing))
      && (k == KText && rest != [] ==>
            TakeLeaf(o, k, s) == Parsed(Leaf(k, Value(LeafFlags(o, k), span)), ['<'] + rest))
      && (k != KText ==> TakeLeaf(o, k, s) == Parsed(Leaf(k, Value(LeafFlags(o, k), span)), rest))
  {
    hide TakeSpan, Value;
  }

  lemma LeafDenotes(o: Options, text: string, p: nat, depth: nat, values: seq<string>, f: Found, index: nat, v: string)
    requires f.kind != KElement && index < |values| && values[index] == v && p <= |text| && FoundAt(text, p, f)
    ensures Denotes(values, LazyLeaf(f.line, f.kind, index), Leaf(f.kind, v))
    ensures Lined(o, text, p, depth, LazyLeaf(f.line, f.kind, index))
  {
    hide KindOf;
  }

  lemma NameStops(s: string)
    requires TakeName(s).Some?
    ensures var rest := TakeName(s).value.1; rest == [] || !IsNameStartChar(rest[0])
  {
  }

  lemma TagUnfolds(o: Options, text: string, p: nat, q: nat)
    requires p <= q <= |text| && text[q..] == XmlText.SkipWhiteSpace(text[p..])
    ensures TakeTag(o, text[p..])
         == if q < |text| && text[q] == '/' then TakeNamed(o, text[q + 1..], true) else TakeNamed(o, text[q..], false)
    ensures NamePlace(text, p) == if q < |text| && text[q] == '/' then q + 1 else q
  {
    hide TakeNamed, XmlText.SkipWhiteSpace;
    var t := text[q..];
    assert q < |text| ==> t[0] == text[q] && t[1..] == text[q + 1..];
  }

  lemma ChildlessDenotes(o: Options, text: string, p: nat, depth: nat, values: seq<string>, f: Found, tag: NamedTag,
          t: TagResult)
    requires p <= |text| && FoundAt(text, p, f) && f.kind == KElement && tag.Named?
    requires t.Tag? && Names(values, tag.name, t.name) && DenotesAttributes(values, tag.attributes, t.attributes)
    requires AttributesLined(o, text, AfterName(text, NamePlace(text, f.next)), tag.attributes)
    ensures Denotes(values, LazyElement(f.line, tag.name, tag.attributes, []), Element(t.name, t.attributes, []))
    ensures Lined(o, text, p, depth, LazyElement(f.line, tag.name, tag.attributes, []))
  {
    hide KindOf, NamePlace, AfterName, AfterTag;
  }

  lemma ElementLined(o: Options, text: string, p: nat, depth: nat, f: Found, tag: NamedTag, nodes: seq<LazyNode>)
    requires p <= |text| && FoundAt(text, p, f) && f.kind == KElement && tag.Named?
    requires AttributesLined(o, text, AfterName(text, NamePlace(text, f.next)), tag.attributes)
    requires AllLined(o, text, AfterTag(o, text, f.next), depth + 1, nodes)
    ensures Lined(o, text, p, depth, LazyElement(f.line, tag.name, tag.attributes, nodes))
  {
    hide KindOf, NamePlace, AfterName, AfterTag, AttributesLined, AllLined, First, LineAt;
  }

  predicate IsDeclaration(n: LazyNode) {
    n.LazyLeaf? && n.kind == KDeclaration
  }

  /** As the source tests it: nothing linked yet, or the first and the last node are declarations. */
  predicate DeclarationsOnly(nodes: seq<LazyNode>) {
    nodes == [] || (IsDeclaration(nodes[0]) && IsDeclaration(nodes[|nodes| - 1]))
  }

  lemma SameLocation(values: seq<string>, nodes: seq<LazyNode>, before: seq<Node>, n: LazyNode, v: Node)
    requires DenotesAll(values, nodes, before) && Denotes(values, n, v)
    ensures IsDeclaration(n) <==> v.Declaration?
    ensures DeclarationsOnly(nodes) <==> WellLocated(true, before)
  {
    KindDenotes(values, n, v);
    if nodes != [] {
      KindDenotes(values, nodes[0], before[0]);
      KindDenotes(values, nodes[|nodes| - 1], before[|nodes| - 1]);
    }
  }

  lemma KindDenotes(values: seq<string>, n: LazyNode, v: Node)
    requires Denotes(values, n, v)
    ensures IsDeclaration(n) <==> v.Declaration?
  {
  }

  /** One turn of TakeList. */
  lemma ListUnfolds(o: Options, s: string, depth: nat, inDocument: bool, before: seq<Node>)
    ensures var r, list := TakeNode(o, s, depth), TakeList(o, s, depth, inDocument, before);
      && (r.None? ==> list == ListResult(before, EndOfText))
      && (r.Some? && r.value.Bad? ==> list == ListResult(before, Failed(r.value.error)))
      && (r.Some? && r.value.ClosingTag? ==> list == ListResult(before, Closed(r.value.name, r.value.rest)))
      && (r.Some? && r.value.Parsed? ==>
            list == if r.value.node.Declaration? && !WellLocated(inDocument, before)
                    then ListResult(before, Failed(ErrorParsingDeclaration))
                    else TakeList(o, r.value.rest, depth, inDocument, before + [r.value.node]))
  {
    hide TakeNode;
  }

  lemma BomHasNoLineFeed(text: string, p: nat)
    requires p <= |text| && BOM <= text[p..]
    ensures p + 3 <= |text| && LineAt(text, p + 3) == LineAt(text, p) && text[p + 3..] == text[p..][3..]
  {
    LineMoves(text, p, p + 3);
    assert text[p..p + 3] == text[p..][..3] == BOM;
    NoLineFeeds(BOM);
  }

  lemma NothingIdentified(text: string, p: nat, q: nat)
    requires p <= q == |text| && text[q..] == XmlText.SkipWhiteSpace(text[p..])
    ensures XmlGrammar.Identify(text[p..]).None?
  {
    assert text[q..] == [];
  }

  lemma IdentifiedAt(text: string, p: nat, q: nat, k: Kind)
    requires p <= q < |text| && text[q..] == XmlText.SkipWhiteSpace(text[p..]) && k == KindOf(text[q..])
    ensures q + |Header(k)| <= |text|
    ensures XmlGrammar.Identify(text[p..]) == Some((k, if k == KText then text[p..] else text[q + |Header(k)|..]))
    ensures k == KText ==> text[p] != '<'
  {
    hide KindOf, XmlText.SkipWhiteSpace;
    assert text[q..][|Header(k)|..] == text[q + |Header(k)|..];
    if k == KText {
      TextBeginsNoTag(text[q..]);
      XmlText.SkipsOnlySpace(text[p..]);
      assert p < q ==> text[p] == text[p..][0];
      assert p == q ==> text[p] == text[q..][0];
    }
  }

  lemma TextBeginsNoTag(t: string)
    requires t != [] && KindOf(t) == KText
    ensures t[0] != '<'
  {
    assert t[..1] == [t[0]];
  }

  lemma LineSkipsHeader(text: string, q: nat, k: Kind)
    requires q + |Header(k)| <= |text| && Header(k) <= text[q..]
    ensures LineAt(text, q + |Header(k)|) == LineAt(text, q)
  {
    LineMoves(text, q, q + |Header(k)|);
    assert text[q..q + |Header(k)|] == Header(k);
    NoLineFeeds(Header(k));
  }

  lemma LineSkipsSpan(text: string, p: nat, tag: string)
    requires p <= |text| && tag != [] && forall i :: 0 <= i < |tag| ==> tag[i] != LF
    ensures match TakeSpan(text[p..], tag)
      case None => true
      case Some((span, rest)) =>
        p + |span| + |tag| <= |text| && LineAt(text, p + |span| + |tag|) == LineAt(text, p) + LineFeeds(span)
  {
    hide Find;
    var r := TakeSpan(text[p..], tag);
    if r.Some? {
      var (span, rest) := r.value;
      var q := p + |span| + |tag|;
      assert text[p..q] == span + tag;
      LineMoves(text, p, q);
      LineFeedsSplit(span, tag);
      NoLineFeeds(tag);
    }
  }
}
