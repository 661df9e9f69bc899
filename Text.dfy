/** The string operations the script applies through pandas' `.str` accessor
    and Python's `str` methods: character removal, splitting on a separator,
    whitespace tokenisation, suffix tests and string ordering. */
module Text {

  /** Number of characters of `s` that belong to `cs`. */
  function CountIn(s: string, cs: set<char>): nat
  {
    if s == [] then 0 else (if s[0] in cs then 1 else 0) + CountIn(s[1..], cs)
  }

  /** No character of `s` belongs to `cs`. */
  predicate NoneIn(s: string, cs: set<char>)
  {
    forall i :: 0 <= i < |s| ==> s[i] !in cs
  }

  lemma {:induction false} NoneInMeansNoCount(s: string, cs: set<char>)
    requires NoneIn(s, cs)
    ensures CountIn(s, cs) == 0
  {
    if s != [] {
      NoneInMeansNoCount(s[1..], cs);
    }
  }

  /** `s` with every character of `cs` deleted and the others kept in order:
      the effect of `replace({c: ""}, regex=True)` for single-character
      patterns `c`. */
  function RemoveAll(s: string, cs: set<char>): (r: string)
    ensures NoneIn(r, cs)
    ensures |r| == |s| - CountIn(s, cs)
  {
    if s == [] then []
    else
      if s[0] in cs then RemoveAll(s[1..], cs) else [s[0]] + RemoveAll(s[1..], cs)
  }

  /** Every character outside the removed set keeps its multiplicity. */
  lemma {:induction false} RemoveAllKeepsOthers(s: string, cs: set<char>)
    ensures forall c :: c !in cs ==> multiset(RemoveAll(s, cs))[c] == multiset(s)[c]
  {
    if s != [] {
      assert s == [s[0]] + s[1..];
      RemoveAllKeepsOthers(s[1..], cs);
    }
  }

  /** Removal works character by character, so it distributes over concatenation. */
  lemma {:induction false} RemoveAllAppend(a: string, b: string, cs: set<char>)
    ensures RemoveAll(a + b, cs) == RemoveAll(a, cs) + RemoveAll(b, cs)
  {
    if a == [] {
      assert a + b == b;
    } else {
      assert (a + b)[1..] == a[1..] + b;
      RemoveAllAppend(a[1..], b, cs);
    }
  }

  /** Two removal passes in sequence are one pass removing both sets. */
  lemma {:induction false} RemoveAllTwice(s: string, a: set<char>, b: set<char>)
    ensures RemoveAll(RemoveAll(s, a), b) == RemoveAll(s, a + b)
  {
    if s != [] {
      RemoveAllTwice(s[1..], a, b);
    }
  }

  /** Removing characters that do not occur changes nothing. */
  lemma {:induction false} RemoveAllAbsent(s: string, cs: set<char>)
    requires NoneIn(s, cs)
    ensures RemoveAll(s, cs) == s
  {
    if s != [] {
      RemoveAllAbsent(s[1..], cs);
    }
  }

  /** Removing a set that covers every character leaves nothing. */
  lemma {:induction false} RemoveAllCovered(s: string, cs: set<char>)
    requires forall i :: 0 <= i < |s| ==> s[i] in cs
    ensures RemoveAll(s, cs) == []
  {
    if s != [] {
      RemoveAllCovered(s[1..], cs);
    }
  }

  /** Python's `s.split(sep)` generalised to a set of one-character
      separators: the pieces between separators, empty ones included. */
  function SplitOn(s: string, seps: set<char>): (pieces: seq<string>)
    ensures |pieces| == CountIn(s, seps) + 1
    ensures forall i :: 0 <= i < |pieces| ==> NoneIn(pieces[i], seps)
  {
    if s == [] then [""]
    else
      var rest := SplitOn(s[1..], seps);
      if s[0] in seps then [""] + rest
      else [[s[0]] + rest[0]] + rest[1..]
  }

  /** Python's `s.split(sep)` for a one-character separator. */
  function Split(s: string, sep: char): (pieces: seq<string>)
    ensures |pieces| == CountIn(s, {sep}) + 1
    ensures forall i :: 0 <= i < |pieces| ==> sep !in pieces[i]
  {
    var pieces := SplitOn(s, {sep});
    assert forall i :: 0 <= i < |pieces| ==> NoneIn(pieces[i], {sep});
    pieces
  }

  /** Python's `sep.join(pieces)`. */
  function Join(pieces: seq<string>, sep: char): string
  {
    if |pieces| == 0 then ""
    else if |pieces| == 1 then pieces[0]
    else pieces[0] + [sep] + Join(pieces[1..], sep)
  }

  /** Splitting loses nothing: joining the pieces back gives the input. */
  lemma {:induction false} JoinSplit(s: string, sep: char)
    ensures Join(Split(s, sep), sep) == s
  {
    if s != [] {
      JoinSplit(s[1..], sep);
      var rest := SplitOn(s[1..], {sep});
      if s[0] != sep {
        var pieces := SplitOn(s, {sep});
        assert pieces[0] == [s[0]] + rest[0];
        assert pieces[1..] == rest[1..];
        if |rest| > 1 {
          assert Join(rest, sep) == rest[0] + [sep] + Join(rest[1..], sep);
        }
      }
    }
  }

  /** Splitting in front of a piece without separators extends the first piece. */
  lemma {:induction false} SplitOnPrefix(w: string, tail: string, seps: set<char>)
    requires NoneIn(w, seps)
    ensures SplitOn(w + tail, seps)
         == [w + SplitOn(tail, seps)[0]] + SplitOn(tail, seps)[1..]
  {
    if w != [] {
      assert (w + tail)[1..] == w[1..] + tail;
      assert (w + tail)[0] == w[0];
      SplitOnPrefix(w[1..], tail, seps);
      var t := SplitOn(tail, seps);
      var r := SplitOn(w[1..] + tail, seps);
      assert r[0] == w[1..] + t[0] && r[1..] == t[1..];
      assert w[0] !in seps;
      assert SplitOn(w + tail, seps) == [[w[0]] + r[0]] + r[1..];
      assert [w[0]] + (w[1..] + t[0]) == w + t[0];
    } else {
      var t := SplitOn(tail, seps);
      assert w + tail == tail && w + t[0] == t[0];
      assert t == [t[0]] + t[1..];
    }
  }

  /** Joining pieces that hold no separator and splitting again gives the pieces. */
  lemma {:induction false} SplitJoin(pieces: seq<string>, sep: char, seps: set<char>)
    requires |pieces| > 0 && sep in seps
    requires forall i :: 0 <= i < |pieces| ==> NoneIn(pieces[i], seps)
    ensures SplitOn(Join(pieces, sep), seps) == pieces
  {
    if |pieces| == 1 {
      SplitOnPrefix(pieces[0], "", seps);
      assert pieces[0] + "" == pieces[0];
    } else {
      var tail := [sep] + Join(pieces[1..], sep);
      assert Join(pieces, sep) == pieces[0] + tail;
      SplitJoin(pieces[1..], sep, seps);
      SplitOnPrefix(pieces[0], tail, seps);
      assert tail[1..] == Join(pieces[1..], sep);
      assert SplitOn(tail, seps) == [""] + pieces[1..];
      assert pieces[0] + "" == pieces[0];
      assert pieces == [pieces[0]] + pieces[1..];
    }
  }

  /** The characters Python's `str.split()` (no argument) treats as whitespace. */
  const Whitespace: set<char> := {
    '\t', '\n', '\U{000B}', '\U{000C}', '\r',
    '\U{001C}', '\U{001D}', '\U{001E}', '\U{001F}', ' ',
    '\U{0085}', '\U{00A0}', '\U{1680}',
    '\U{2000}', '\U{2001}', '\U{2002}', '\U{2003}', '\U{2004}', '\U{2005}',
    '\U{2006}', '\U{2007}', '\U{2008}', '\U{2009}', '\U{200A}',
    '\U{2028}', '\U{2029}', '\U{202F}', '\U{205F}', '\U{3000}'
  }

  /** The non-empty pieces, in order. */
  function DropEmpty(pieces: seq<string>): (r: seq<string>)
    ensures |r| <= |pieces|
    ensures forall w :: w in r <==> w in pieces && w != ""
  {
    if pieces == [] then []
    else (if pieces[0] == "" then [] else [pieces[0]]) + DropEmpty(pieces[1..])
  }

  lemma {:induction false} DropEmptyKeepsNonEmpty(pieces: seq<string>)
    requires forall i :: 0 <= i < |pieces| ==> pieces[i] != ""
    ensures DropEmpty(pieces) == pieces
  {
    if pieces != [] {
      DropEmptyKeepsNonEmpty(pieces[1..]);
    }
  }

  /** Python's `s.split()`: runs of whitespace separate words, and leading or
      trailing whitespace yields no empty word. */
  function Words(s: string): (words: seq<string>)
    ensures forall w :: w in words ==> w != "" && NoneIn(w, Whitespace)
  {
    var pieces := SplitOn(s, Whitespace);
    assert forall w :: w in pieces ==> NoneIn(w, Whitespace);
    DropEmpty(pieces)
  }

  /** Words joined by single spaces are split back into the same words. */
  lemma WordsOfJoin(words: seq<string>)
    requires forall i :: 0 <= i < |words| ==> words[i] != "" && NoneIn(words[i], Whitespace)
    ensures Words(Join(words, ' ')) == words
  {
    if words != [] {
      SplitJoin(words, ' ', Whitespace);
      DropEmptyKeepsNonEmpty(words);
    }
  }

  /** A string has no words exactly when it is made of whitespace only. */
  lemma {:induction false} NoWordsIffBlank(s: string)
    ensures Words(s) == [] <==> forall i :: 0 <= i < |s| ==> s[i] in Whitespace
  {
    if s != [] {
      NoWordsIffBlank(s[1..]);
      var rest := SplitOn(s[1..], Whitespace);
      if s[0] in Whitespace {
        assert SplitOn(s, Whitespace) == [""] + rest;
        assert DropEmpty([""] + rest) == DropEmpty(rest) by {
          assert ([""] + rest)[1..] == rest;
        }
        assert forall i :: 1 <= i < |s| ==> s[i] == s[1..][i - 1];
      } else {
        var first := [s[0]] + rest[0];
        assert SplitOn(s, Whitespace)[0] == first;
        assert first in Words(s);
      }
    }
  }

  /** A separator character closes the last piece of what precedes it and
      opens the first piece of what follows. */
  lemma SplitOnSeparator(a: string, b: string, c: char, seps: set<char>)
    requires c in seps
    ensures SplitOn(a + [c] + b, seps) == SplitOn(a, seps) + SplitOn(b, seps)
  {
    var s := a + [c] + b;
    assert s[..|a|] == a && s[|a|] == c && s[|a| + 1..] == b;
    SplitOnAt(s, |a|, seps);
  }

  /** The same, for a separator at position `i` of one text. */
  lemma {:induction false} SplitOnAt(s: string, i: nat, seps: set<char>)
    requires i < |s| && s[i] in seps
    ensures SplitOn(s, seps) == SplitOn(s[..i], seps) + SplitOn(s[i + 1..], seps)
  {
    if i > 0 {
      var t := s[1..];
      SplitOnAt(t, i - 1, seps);
      assert t[..i - 1] == s[..i][1..] && t[i..] == s[i + 1..];
      SplitOnStep(s, seps);
      SplitOnStep(s[..i], seps);
      ConsPieces(s[0], s[0] in seps, SplitOn(t[..i - 1], seps), SplitOn(s[i + 1..], seps));
    }
  }

  /** One step of `SplitOn` on a nonempty text. */
  lemma SplitOnStep(s: string, seps: set<char>)
    requires s != []
    ensures var rest := SplitOn(s[1..], seps);
      SplitOn(s, seps) == if s[0] in seps then [""] + rest else [[s[0]] + rest[0]] + rest[1..]
  {
  }

  /** Growing the first piece of a list, or adding an empty piece in front,
      commutes with appending further pieces. */
  lemma ConsPieces(x: char, sep: bool, left: seq<string>, right: seq<string>)
    requires left != []
    ensures var whole := left + right;
      (if sep then [""] + whole else [[x] + whole[0]] + whole[1..])
      == (if sep then [""] + left else [[x] + left[0]] + left[1..]) + right
  {
    if !sep {
      assert (left + right)[1..] == left[1..] + right;
    }
  }

  lemma {:induction false} DropEmptyAppend(p: seq<string>, q: seq<string>)
    ensures DropEmpty(p + q) == DropEmpty(p) + DropEmpty(q)
  {
    if p == [] {
      assert p + q == q;
    } else {
      assert (p + q)[1..] == p[1..] + q;
      DropEmptyAppend(p[1..], q);
    }
  }

  /** One whitespace character between two texts: the words are those of
      the left text followed by those of the right. With an empty side this
      says leading and trailing whitespace yield no word, and repeated, it
      says a run of whitespace separates like a single character. */
  lemma WordsSeparator(a: string, b: string, c: char)
    requires c in Whitespace
    ensures Words(a + [c] + b) == Words(a) + Words(b)
  {
    SplitOnSeparator(a, b, c, Whitespace);
    DropEmptyAppend(SplitOn(a, Whitespace), SplitOn(b, Whitespace));
  }

  /** A nonempty text without whitespace is a single word. */
  lemma WordsOfWord(w: string)
    requires w != "" && NoneIn(w, Whitespace)
    ensures Words(w) == [w]
  {
    SplitOnPrefix(w, "", Whitespace);
    assert w + "" == w;
  }

  /** Python's `s.endswith(c)` for a one-character suffix. */
  predicate EndsWith(s: string, c: char)
  {
    |s| > 0 && s[|s| - 1] == c
  }

  /** Python's `a <= b` on strings: lexicographic by code point. */
  predicate LexLe(a: string, b: string)
  {
    a == [] || (b != [] && (a[0] < b[0] || (a[0] == b[0] && LexLe(a[1..], b[1..]))))
  }

  lemma {:induction false} LexLeTotal(a: string, b: string)
    ensures LexLe(a, b) || LexLe(b, a)
  {
    if a != [] && b != [] && a[0] == b[0] {
      LexLeTotal(a[1..], b[1..]);
    }
  }

  lemma {:induction false} LexLeTransitive(a: string, b: string, c: string)
    requires LexLe(a, b) && LexLe(b, c)
    ensures LexLe(a, c)
  {
    if a != [] && b != [] && c != [] && a[0] == b[0] && b[0] == c[0] {
      LexLeTransitive(a[1..], b[1..], c[1..]);
    }
  }
}
