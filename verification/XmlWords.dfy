/** What collapsing white space does: the words of a text, one space between them
    (drivers/Mach3/tinyxml2.cpp:238-264; drivers/Mach3/tinyxml2.h:551-576). */
module XmlWords {
  import opened XmlUtil
  import opened XmlText

  /** The six characters that are white space, whatever else the text holds. */
  lemma WhiteSpaceIs(c: char)
    ensures IsWhiteSpace(c) <==> c in [' ', '\t', '\n', '\U{B}', '\U{C}', '\r']
  {
  }

  /** The characters a name can begin with, by their codes: every byte from 128 on, the letters, the colon and the
      underscore; and those it can go on with: these, the digits, the full stop and the hyphen. */
  lemma NameCharactersAre(c: char)
    ensures var n := c as int;
      && (IsNameStartChar(c) <==> n >= 128 || 65 <= n <= 90 || 97 <= n <= 122 || n == 58 || n == 95)
      && (IsNameChar(c) <==> IsNameStartChar(c) || 48 <= n <= 57 || n == 46 || n == 45)
  {
  }

  predicate IsBlank(s: string) {
    forall i :: 0 <= i < |s| ==> IsWhiteSpace(s[i])
  }

  predicate IsWord(s: string) {
    s != "" && forall i :: 0 <= i < |s| ==> !IsWhiteSpace(s[i])
  }

  /** Words with one space between two of them. */
  function Joined(words: seq<string>): string {
    if words == [] then "" else if |words| == 1 then words[0] else words[0] + " " + Joined(words[1..])
  }

  /** Words with white space before each of them, and after the last one. */
  datatype Spacing = Spacing(gap: string, word: string)

  function Spread(words: seq<Spacing>, end: string): string {
    if words == [] then end else words[0].gap + (words[0].word + Spread(words[1..], end))
  }

  /** Between two words there is some white space; before the first and after the last there may be. */
  predicate AreWords(words: seq<Spacing>, end: string) {
    && IsBlank(end)
    && (forall i :: 0 <= i < |words| ==> IsBlank(words[i].gap) && IsWord(words[i].word))
    && (forall i :: 1 <= i < |words| ==> words[i].gap != "")
  }

  function WordsOf(words: seq<Spacing>): seq<string> {
    seq(|words|, i requires 0 <= i < |words| => words[i].word)
  }

  lemma {:induction false} BlankIsSkipped(gap: string, s: string)
    requires IsBlank(gap)
    ensures SkipWhiteSpace(gap + s) == SkipWhiteSpace(s)
  {
    if gap == "" {
      assert gap + s == s;
    } else {
      assert (gap + s)[1..] == gap[1..] + s;
      BlankIsSkipped(gap[1..], s);
    }
  }

  lemma {:induction false} WordIsKept(word: string, s: string)
    requires forall i :: 0 <= i < |word| ==> !IsWhiteSpace(word[i])
    ensures Squeeze(word + s) == word + Squeeze(s)
  {
    if word == "" {
      assert word + s == s && word + Squeeze(s) == Squeeze(s);
    } else {
      assert (word + s)[1..] == word[1..] + s;
      WordIsKept(word[1..], s);
      assert [word[0]] + (word[1..] + Squeeze(s)) == word + Squeeze(s);
    }
  }

  lemma WordIsSignificant(word: string, s: string)
    requires IsWord(word)
    ensures SkipWhiteSpace(word + s) == word + s
  {
    assert (word + s)[0] == word[0];
  }

  /** White space before a word becomes one space, whatever it was. */
  lemma GapIsOneSpace(gap: string, word: string, s: string)
    requires IsBlank(gap) && gap != "" && IsWord(word)
    ensures Squeeze(gap + (word + s)) == " " + Squeeze(word + s)
  {
    hide IsWhiteSpace, Squeeze, SkipWhiteSpace;
    var t := gap + (word + s);
    BlankIsSkipped(gap, word + s);
    WordIsSignificant(word, s);
    assert (word + s)[0] == word[0] && t[0] == gap[0];
    BlankIsSqueezed(t);
  }

  lemma BlankIsSqueezed(t: string)
    requires t != "" && IsWhiteSpace(t[0]) && SkipWhiteSpace(t) != "" && !IsWhiteSpace(SkipWhiteSpace(t)[0])
    ensures Squeeze(t) == " " + Squeeze(SkipWhiteSpace(t))
  {
    hide SkipWhiteSpace, IsWhiteSpace;
    var u := SkipWhiteSpace(t);
    assert Squeeze(u) == [u[0]] + Squeeze(u[1..]);
  }

  lemma BlankIsDropped(end: string)
    requires IsBlank(end)
    ensures Squeeze(end) == "" && SkipWhiteSpace(end) == ""
  {
    BlankIsSkipped(end, "");
    assert end + "" == end;
  }

  /** After a word, every gap is one space and the end is dropped. */
  lemma {:induction false} SqueezeSpread(words: seq<Spacing>, end: string)
    requires AreWords(words, end) && (words != [] ==> words[0].gap != "")
    ensures Squeeze(Spread(words, end)) == (if words == [] then "" else " ") + Joined(WordsOf(words))
  {
    hide Squeeze, IsWord, IsBlank;
    if words == [] {
      BlankIsDropped(end);
    } else {
      var more := Spread(words[1..], end);
      RestAreWords(words, end);
      GapIsOneSpace(words[0].gap, words[0].word, more);
      KeepsWord(words[0].word, more);
      SqueezeSpread(words[1..], end);
      JoinedFirst(words);
    }
  }

  lemma KeepsWord(word: string, s: string)
    requires IsWord(word)
    ensures Squeeze(word + s) == word + Squeeze(s)
  {
    WordIsKept(word, s);
  }

  lemma RestAreWords(words: seq<Spacing>, end: string)
    requires AreWords(words, end) && words != []
    ensures AreWords(words[1..], end) && (|words| > 1 ==> words[1..][0].gap != "")
    ensures WordsOf(words)[0] == words[0].word && WordsOf(words)[1..] == WordsOf(words[1..])
  {
    hide IsWord, IsBlank;
  }

  lemma JoinedFirst(words: seq<Spacing>)
    requires words != [] && WordsOf(words)[1..] == WordsOf(words[1..])
    ensures Joined(WordsOf(words))
         == words[0].word + ((if |words| == 1 then "" else " ") + Joined(WordsOf(words[1..])))
  {
    if |words| == 1 {
      assert words[0].word + ("" + "") == words[0].word;
    }
  }

  /** Collapsing gives the words with one space between them, whatever white space was around and between them. */
  lemma CollapseJoinsWords(words: seq<Spacing>, end: string)
    requires AreWords(words, end)
    ensures Collapse(Spread(words, end)) == Joined(WordsOf(words))
  {
    hide Squeeze, SkipWhiteSpace, IsWord, IsBlank, Joined;
    if words == [] {
      BlankIsDropped(end);
      NothingJoined();
    } else {
      var more := Spread(words[1..], end);
      RestAreWords(words, end);
      BlankIsSkipped(words[0].gap, words[0].word + more);
      WordIsSignificant(words[0].word, more);
      KeepsWord(words[0].word, more);
      SqueezeSpread(words[1..], end);
      JoinedFirst(words);
      if |words| == 1 {
        NothingJoined();
      }
    }
  }

  lemma NothingJoined()
    ensures Squeeze("") == "" && Joined(WordsOf([])) == ""
  {
  }

  /** Every text is made of words in this way. */
  lemma {:induction false} EveryTextIsWords(s: string) returns (words: seq<Spacing>, end: string)
    ensures AreWords(words, end) && Spread(words, end) == s
    decreases |s|
  {
    hide AreWords, Spread, IsWord, IsBlank;
    if BlankRun(s) == |s| {
      words, end := [], s;
      OnlyBlank(s);
    } else {
      var gap, word, rest := FirstWord(s);
      var more;
      more, end := EveryTextIsWords(rest);
      words := [Spacing(gap, word)] + more;
      OneMoreWord(gap, word, more, end, rest);
    }
  }

  lemma OnlyBlank(s: string)
    requires BlankRun(s) == |s|
    ensures AreWords([], s) && Spread([], s) == s
  {
    assert s[..|s|] == s;
  }

  lemma FirstWord(s: string) returns (gap: string, word: string, rest: string)
    requires BlankRun(s) < |s|
    ensures IsBlank(gap) && IsWord(word) && s == gap + (word + rest) && |rest| < |s|
    ensures rest != "" ==> IsWhiteSpace(rest[0])
  {
    hide IsWhiteSpace, IsBlank;
    var g := BlankRun(s);
    var t := s[g..];
    var w := WordRun(t);
    gap, word, rest := s[..g], t[..w], t[w..];
  }

  lemma OneMoreWord(gap: string, word: string, more: seq<Spacing>, end: string, rest: string)
    requires IsBlank(gap) && IsWord(word) && AreWords(more, end) && Spread(more, end) == rest
    requires rest != "" ==> IsWhiteSpace(rest[0])
    ensures var words := [Spacing(gap, word)] + more;
      AreWords(words, end) && Spread(words, end) == gap + (word + rest)
  {
    hide IsBlank;
    var words := [Spacing(gap, word)] + more;
    assert words[1..] == more;
    if more != [] {
      GapBefore(more, end);
    }
  }

  lemma GapBefore(more: seq<Spacing>, end: string)
    requires more != [] && IsWord(more[0].word)
    ensures Spread(more, end) != "" && (IsWhiteSpace(Spread(more, end)[0]) ==> more[0].gap != "")
  {
    var rest := more[0].word + Spread(more[1..], end);
    assert rest[0] == more[0].word[0] && "" + rest == rest;
  }

  function BlankRun(s: string): (n: nat)
    ensures n <= |s| && IsBlank(s[..n]) && (n < |s| ==> !IsWhiteSpace(s[n]))
  {
    if s == "" || !IsWhiteSpace(s[0]) then 0
    else
      var n := 1 + BlankRun(s[1..]);
      assert s[..n] == [s[0]] + s[1..][..n - 1];
      n
  }

  function WordRun(s: string): (n: nat)
    ensures n <= |s| && (forall i :: 0 <= i < n ==> !IsWhiteSpace(s[i])) && (n < |s| ==> IsWhiteSpace(s[n]))
  {
    if s == "" || IsWhiteSpace(s[0]) then 0 else 1 + WordRun(s[1..])
  }
}
