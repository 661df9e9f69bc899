/** The title-length analysis: the number of words of every title, the
    frequency table of those lengths over all talks and over the high-view
    subset, and the running total of frequencies in table order. */
module TitleLength {
  import opened Collections
  import opened Text
  import opened Sorting
  import opened Frequency
  import opened Talks

  /** `title.split()` followed by `len`: the number of whitespace-separated
      words. A title has no words exactly when it is blank. */
  function WordCount(title: string): (n: nat)
    ensures n == 0 <==> forall i :: 0 <= i < |title| ==> title[i] in Whitespace
  {
    NoWordsIffBlank(title);
    |Words(title)|
  }

  /** A title made of words joined by single spaces has as many words as were joined. */
  lemma WordCountOfJoin(words: seq<string>)
    requires forall i :: 0 <= i < |words| ==> words[i] != "" && NoneIn(words[i], Whitespace)
    ensures WordCount(Join(words, ' ')) == |words|
  {
    WordsOfJoin(words);
  }

  /** A whitespace character adds no word of its own: the count of a title
      is the sum of the counts on either side of it. */
  lemma WordCountSeparator(a: string, b: string, c: char)
    requires c in Whitespace
    ensures WordCount(a + [c] + b) == WordCount(a) + WordCount(b)
  {
    WordsSeparator(a, b, c);
  }

  /** A nonempty title without whitespace counts one word. */
  lemma WordCountOfWord(w: string)
    requires w != "" && NoneIn(w, Whitespace)
    ensures WordCount(w) == 1
  {
    WordsOfWord(w);
  }

  /** The `count` column: one word count per talk, in talk order. */
  function WordCountsOf(talks: seq<Talk>): (counts: seq<nat>)
    ensures |counts| == |talks|
    ensures forall i :: 0 <= i < |talks| ==> counts[i] == WordCount(talks[i].title)
  {
    if talks == [] then [] else [WordCount(talks[0].title)] + WordCountsOf(talks[1..])
  }

  /** `value_counts` of the word counts (lines 361-362): one row per distinct
      length, most frequent first, whose frequencies add up to the number of
      talks (the `totcount` of line 363). */
  function LengthTable(talks: seq<Talk>): (t: Table<nat>)
    ensures IsTableOf(t, WordCountsOf(talks))
    ensures SortedBy(t, ByCountDesc)
    ensures Total(t) == |talks|
    ensures forall e :: e in t ==> e.1 > 0
  {
    ValueCounts(WordCountsOf(talks))
  }

  /** The same table over the talks with at least 4,000,000 views (lines 374-376). */
  function PopularLengthTable(talks: seq<Talk>): (t: Table<nat>)
    ensures IsTableOf(t, WordCountsOf(PopularTalks(talks)))
    ensures SortedBy(t, ByCountDesc)
    ensures Total(t) == |PopularTalks(talks)|
    ensures forall e :: e in t ==> e.1 > 0
  {
    ValueCounts(WordCountsOf(PopularTalks(talks)))
  }

  /** A length occurs among the high-view talks at most as often as among all talks. */
  lemma {:induction false} PopularLengthCount(talks: seq<Talk>, n: nat)
    ensures Count(WordCountsOf(PopularTalks(talks)), n) <= Count(WordCountsOf(talks), n)
  {
    if talks != [] {
      PopularLengthCount(talks[1..], n);
      var head := if IsPopular(talks[0]) then [talks[0]] else [];
      assert PopularTalks(talks) == head + PopularTalks(talks[1..]);
      WordCountsOfAppend(head, PopularTalks(talks[1..]));
      assert WordCountsOf(talks) == [WordCount(talks[0].title)] + WordCountsOf(talks[1..]);
    }
  }

  lemma {:induction false} WordCountsOfAppend(a: seq<Talk>, b: seq<Talk>)
    ensures WordCountsOf(a + b) == WordCountsOf(a) + WordCountsOf(b)
  {
    if a == [] {
      assert a + b == b;
    } else {
      assert (a + b)[1..] == a[1..] + b;
      WordCountsOfAppend(a[1..], b);
    }
  }

  /** Every length of the high-view table appears in the full table with a
      frequency no smaller. */
  lemma PopularLengthsBounded(talks: seq<Talk>)
    ensures forall e :: e in PopularLengthTable(talks) ==>
      exists f :: f in LengthTable(talks) && f.0 == e.0 && e.1 <= f.1
  {
    var full, top := LengthTable(talks), PopularLengthTable(talks);
    forall e | e in top ensures exists f :: f in full && f.0 == e.0 && e.1 <= f.1 {
      PopularLengthCount(talks, e.0);
      assert e.0 in Keys(top);
      assert e.0 in Elements(WordCountsOf(PopularTalks(talks)));
      assert Count(WordCountsOf(talks), e.0) > 0;
      assert e.0 in Elements(WordCountsOf(talks));
      var f :| f in full && f.0 == e.0;
    }
  }

  /** `tednv_count['Frequency'].cumsum()` over the full table (line 365): in
      table order the running totals never decrease, and the last one is the
      number of talks. */
  method CumulativeLengthFrequencies(talks: seq<Talk>) returns (cum: seq<nat>)
    ensures |cum| == |LengthTable(talks)|
    ensures forall i :: 0 <= i < |cum| ==> cum[i] == Total(LengthTable(talks)[..i + 1])
    ensures forall i, j :: 0 <= i <= j < |cum| ==> cum[i] <= cum[j]
    ensures |cum| > 0 ==> cum[|cum| - 1] == |talks|
    ensures |cum| == 0 <==> talks == []
  {
    var table := LengthTable(talks);
    if talks != [] {
      assert WordCountsOf(talks)[0] in Elements(WordCountsOf(talks));
    }
    cum := CumulativeSums(table);
  }

  /** The same running totals over the high-view table (line 379). */
  method CumulativePopularLengthFrequencies(talks: seq<Talk>) returns (cum: seq<nat>)
    ensures |cum| == |PopularLengthTable(talks)|
    ensures forall i :: 0 <= i < |cum| ==> cum[i] == Total(PopularLengthTable(talks)[..i + 1])
    ensures forall i, j :: 0 <= i <= j < |cum| ==> cum[i] <= cum[j]
    ensures |cum| > 0 ==> cum[|cum| - 1] == |PopularTalks(talks)|
  {
    cum := CumulativeSums(PopularLengthTable(talks));
  }
}
