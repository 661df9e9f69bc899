/** The theme analysis: every talk's comma-joined tag text is split into
    pieces, each piece becomes one (views, theme) row after four character
    removals, and the rows are counted per theme, over all talks and over
    the high-view subset, keeping the ten most frequent. */
module Themes {
  import opened Collections
  import opened Text
  import opened Sorting
  import opened Frequency
  import opened Talks

  /** One exploded row: the talk's view count and one cleaned tag. */
  datatype ThemeRow = ThemeRow(views: nat, theme: string)

  /** The characters deleted from every piece: quote, brackets and space. */
  const Stripped: set<char> := {'\'', '[', ']', ' '}

  /** A tag piece with the four removed characters gone: no removed
      character is left, and every other character is kept as often as it
      occurred. */
  function CleanTheme(piece: string): (theme: string)
    ensures NoneIn(theme, Stripped)
    ensures forall c :: c !in Stripped ==> multiset(theme)[c] == multiset(piece)[c]
  {
    RemoveAllKeepsOthers(piece, Stripped);
    RemoveAll(piece, Stripped)
  }

  /** The four column rewrites, in the order the script applies them
      (remove `'`, then `[`, then `]`, then ` `), clean a piece. */
  lemma CleanThemeIsOnePass(piece: string)
    ensures RemoveAll(RemoveAll(RemoveAll(RemoveAll(piece, {'\''}), {'['}), {']'}), {' '})
         == CleanTheme(piece)
  {
    var quote, open, close, space := {'\''}, {'['}, {']'}, {' '};
    RemoveAllTwice(piece, quote, open);
    RemoveAllTwice(piece, quote + open, close);
    RemoveAllTwice(piece, quote + open + close, space);
    assert quote + open + close + space == Stripped;
  }

  /** Cleaning a cleaned theme changes nothing. */
  lemma CleanThemeIdempotent(piece: string)
    ensures CleanTheme(CleanTheme(piece)) == CleanTheme(piece)
  {
    RemoveAllAbsent(CleanTheme(piece), Stripped);
  }

  /** The rows one talk contributes (`str.split(',')`, then one row per
      piece): a tag text with k commas yields k + 1 rows, each carrying the
      talk's view count and a cleaned theme. */
  function RowsOf(talk: Talk): (rows: seq<ThemeRow>)
    ensures |rows| == CountIn(talk.tags, {','}) + 1
    ensures forall r :: r in rows ==> r.views == talk.views && NoneIn(r.theme, Stripped)
  {
    var pieces := Split(talk.tags, ',');
    seq(|pieces|, i requires 0 <= i < |pieces| => ThemeRow(talk.views, CleanTheme(pieces[i])))
  }

  /** Row i of a talk is piece i of its tag text, cleaned. */
  lemma RowsOfPieces(talk: Talk)
    ensures var pieces := Split(talk.tags, ',');
      |RowsOf(talk)| == |pieces|
      && forall i :: 0 <= i < |pieces| ==> RowsOf(talk)[i] == ThemeRow(talk.views, CleanTheme(pieces[i]))
  {
  }

  /** Number of tag pieces over all talks. */
  function PieceCount(talks: seq<Talk>): nat
  {
    if talks == [] then 0 else CountIn(talks[0].tags, {','}) + 1 + PieceCount(talks[1..])
  }

  /** The exploded table: the rows of every talk, talk by talk. It has one row
      per tag piece, and every row's view count is that of a talk. */
  function Explode(talks: seq<Talk>): (rows: seq<ThemeRow>)
    ensures |rows| == PieceCount(talks)
    ensures forall r :: r in rows ==> NoneIn(r.theme, Stripped)
    ensures forall r :: r in rows ==> exists t :: t in talks && r.views == t.views
  {
    if talks == [] then []
    else
      var first, rest := RowsOf(talks[0]), Explode(talks[1..]);
      assert forall r :: r in rest ==> exists t :: t in talks[1..] && r.views == t.views;
      assert forall t :: t in talks[1..] ==> t in talks;
      first + rest
  }

  lemma {:induction false} ExplodeAppend(a: seq<Talk>, b: seq<Talk>)
    ensures Explode(a + b) == Explode(a) + Explode(b)
  {
    if a == [] {
      assert a + b == b;
    } else {
      assert (a + b)[1..] == a[1..] + b;
      ExplodeAppend(a[1..], b);
    }
  }

  /** The theme column of a row table. */
  function ThemesOf(rows: seq<ThemeRow>): seq<string>
  {
    if rows == [] then [] else [rows[0].theme] + ThemesOf(rows[1..])
  }

  predicate IsPopularRow(r: ThemeRow)
  {
    r.views >= PopularViews
  }

  /** `tedtv1[tedtv1['views'] >= 4000000]`: exactly the rows of high-view talks. */
  function PopularRows(rows: seq<ThemeRow>): (r: seq<ThemeRow>)
    ensures |r| <= |rows|
    ensures forall x :: x in r <==> x in rows && x.views >= PopularViews
  {
    Filter(rows, IsPopularRow)
  }

  lemma PopularRowsKeepOrder(a: seq<ThemeRow>, b: seq<ThemeRow>)
    ensures PopularRows(a + b) == PopularRows(a) + PopularRows(b)
  {
    FilterAppend(a, b, IsPopularRow);
  }

  /** A theme occurs in the high-view rows at most as often as in all rows. */
  lemma {:induction false} PopularThemeCount(rows: seq<ThemeRow>, x: string)
    ensures Count(ThemesOf(PopularRows(rows)), x) <= Count(ThemesOf(rows), x)
  {
    if rows != [] {
      PopularThemeCount(rows[1..], x);
      var head := if IsPopularRow(rows[0]) then [rows[0]] else [];
      assert PopularRows(rows) == head + PopularRows(rows[1..]);
      ThemesOfAppend(head, PopularRows(rows[1..]));
      assert ThemesOf(rows) == [rows[0].theme] + ThemesOf(rows[1..]);
    }
  }

  lemma {:induction false} ThemesOfAppend(a: seq<ThemeRow>, b: seq<ThemeRow>)
    ensures ThemesOf(a + b) == ThemesOf(a) + ThemesOf(b)
  {
    if a == [] {
      assert a + b == b;
    } else {
      assert (a + b)[1..] == a[1..] + b;
      ThemesOfAppend(a[1..], b);
    }
  }

  /** `value_counts` of the theme column over all talks: one row per
      distinct theme with its number of rows; the counts add up to the
      number of tag pieces, and no theme keeps a removed character. */
  function ThemeTable(talks: seq<Talk>): (t: Table<string>)
    ensures IsTableOf(t, ThemesOf(Explode(talks)))
    ensures Total(t) == PieceCount(talks)
    ensures forall e :: e in t ==> e.1 > 0 && NoneIn(e.0, Stripped)
  {
    CleanRowsTable(Explode(talks));
    ValueCounts(ThemesOf(Explode(talks)))
  }

  /** The same table over the rows of high-view talks. */
  function PopularThemeTable(talks: seq<Talk>): (t: Table<string>)
    ensures IsTableOf(t, ThemesOf(PopularRows(Explode(talks))))
    ensures Total(t) == |PopularRows(Explode(talks))|
    ensures forall e :: e in t ==> e.1 > 0 && NoneIn(e.0, Stripped)
  {
    CleanRowsTable(PopularRows(Explode(talks)));
    ValueCounts(ThemesOf(PopularRows(Explode(talks))))
  }

  /** Counting the themes of clean rows gives a table whose counts add up to
      the number of rows and whose themes are clean. */
  lemma CleanRowsTable(rows: seq<ThemeRow>)
    requires forall r :: r in rows ==> NoneIn(r.theme, Stripped)
    ensures Total(ValueCounts(ThemesOf(rows))) == |rows|
    ensures forall e :: e in ValueCounts(ThemesOf(rows)) ==> NoneIn(e.0, Stripped)
  {
    var themes := ThemesOf(rows);
    var t := ValueCounts(themes);
    ThemesOfRows(rows);
    forall e | e in t ensures NoneIn(e.0, Stripped) {
      assert e.0 in Keys(t);
      assert e.0 in Elements(themes);
    }
  }

  lemma {:induction false} ThemesOfRows(rows: seq<ThemeRow>)
    ensures |ThemesOf(rows)| == |rows|
    ensures forall x :: x in ThemesOf(rows) ==> exists r :: r in rows && r.theme == x
  {
    if rows != [] {
      ThemesOfRows(rows[1..]);
      assert forall r :: r in rows[1..] ==> r in rows;
    }
  }

  /** Every theme of the high-view table is a theme of the full table, with
      a frequency no larger. */
  lemma PopularThemesBounded(talks: seq<Talk>)
    ensures forall e :: e in PopularThemeTable(talks) ==>
      exists f :: f in ThemeTable(talks) && f.0 == e.0 && e.1 <= f.1
  {
    var rows := Explode(talks);
    var full, top := ThemeTable(talks), PopularThemeTable(talks);
    forall e | e in top ensures exists f :: f in full && f.0 == e.0 && e.1 <= f.1 {
      PopularThemeCount(rows, e.0);
      assert e.0 in Keys(top);
      assert e.0 in ThemesOf(PopularRows(rows));
      assert Count(ThemesOf(rows), e.0) > 0;
      assert e.0 in Elements(ThemesOf(rows));
      var f :| f in full && f.0 == e.0;
    }
  }

  /** The ten most frequent themes over all talks: min(10, number of
      distinct themes) rows of the theme table, most frequent first, none
      outweighed by a row left out. */
  function TopThemes(talks: seq<Talk>): (r: Table<string>)
    ensures |r| == Min(10, |Elements(ThemesOf(Explode(talks)))|)
    ensures multiset(r) <= multiset(ThemeTable(talks))
    ensures Keys(r) <= Keys(ThemeTable(talks))
    ensures SortedBy(r, ByCountDesc)
    ensures forall e, f :: e in r && f in multiset(ThemeTable(talks)) - multiset(r) ==> e.1 >= f.1
  {
    TopKKeys(ThemeTable(talks), 10);
    TopK(ThemeTable(talks), 10)
  }

  /** The ten most frequent themes among high-view talks. */
  function TopPopularThemes(talks: seq<Talk>): (r: Table<string>)
    ensures |r| == Min(10, |Elements(ThemesOf(PopularRows(Explode(talks))))|)
    ensures multiset(r) <= multiset(PopularThemeTable(talks))
    ensures Keys(r) <= Keys(PopularThemeTable(talks))
    ensures SortedBy(r, ByCountDesc)
    ensures forall e, f :: e in r && f in multiset(PopularThemeTable(talks)) - multiset(r) ==> e.1 >= f.1
  {
    TopKKeys(PopularThemeTable(talks), 10);
    TopK(PopularThemeTable(talks), 10)
  }

  /** `set(top['Theme']) & set(top1['Theme'])`: themes in both top-10 lists;
      there are at most ten of them. */
  function CommonThemes(talks: seq<Talk>): (common: set<string>)
    ensures forall x :: x in common <==> x in Keys(TopThemes(talks)) && x in Keys(TopPopularThemes(talks))
    ensures common <= Keys(ThemeTable(talks)) && common <= Keys(PopularThemeTable(talks))
    ensures |common| <= 10
  {
    var a, b := TopThemes(talks), TopPopularThemes(talks);
    CommonKeysBound(a, b);
    Keys(a) * Keys(b)
  }

  /** Keys shared by two tables are no more than the rows of the first. */
  lemma CommonKeysBound(a: Table<string>, b: Table<string>)
    ensures |Keys(a) * Keys(b)| <= |a|
  {
    KeysCardinalityBound(a);
    SubsetCardinality(Keys(a) * Keys(b), Keys(a));
  }

  lemma {:induction false} SubsetCardinality(small: set<string>, large: set<string>)
    requires small <= large
    ensures |small| <= |large|
    decreases |small|
  {
    if small != {} {
      var x :| x in small;
      SubsetCardinality(small - {x}, large - {x});
    }
  }

  /** A table has no more keys than rows. */
  lemma {:induction false} KeysCardinalityBound(t: Table<string>)
    ensures |Keys(t)| <= |t|
  {
    if t != [] {
      KeysOfSuffix(t);
      KeysCardinalityBound(t[1..]);
    } else {
      assert Keys(t) == {};
    }
  }

  /** Cleaning a word wrapped in removed characters gives the word. */
  lemma CleanWrapped(piece: string, open: string, w: string, close: string)
    requires piece == open + w + close
    requires forall i :: 0 <= i < |open| ==> open[i] in Stripped
    requires forall i :: 0 <= i < |close| ==> close[i] in Stripped
    requires NoneIn(w, Stripped)
    ensures CleanTheme(piece) == w
  {
    RemoveAllAppend(open + w, close, Stripped);
    RemoveAllAppend(open, w, Stripped);
    RemoveAllCovered(open, Stripped);
    RemoveAllCovered(close, Stripped);
    RemoveAllAbsent(w, Stripped);
  }

  /** The tag text of a two-tag talk, `['a', 'b']`, splits at its one comma. */
  lemma TwoTagSplit(a: string, b: string)
    requires NoneIn(a, {','}) && NoneIn(b, {','})
    ensures Split("['" + a + "', '" + b + "']", ',') == ["['" + a + "'", " '" + b + "']"]
  {
    var first, second := "['" + a + "'", " '" + b + "']";
    var pieces := [first, second];
    assert Join(pieces[1..], ',') == second;
    assert "['" + a + "', '" + b + "']" == first + [','] + second;
    assert NoneIn(first, {','});
    assert NoneIn(second, {','});
    SplitJoin(pieces, ',', {','});
  }

  /** A talk tagged `['a', 'b']` contributes exactly the rows (views, a)
      and (views, b), in that order. */
  lemma TwoTagRows(talk: Talk, a: string, b: string)
    requires NoneIn(a, Stripped + {','}) && NoneIn(b, Stripped + {','})
    requires talk.tags == "['" + a + "', '" + b + "']"
    ensures RowsOf(talk) == [ThemeRow(talk.views, a), ThemeRow(talk.views, b)]
  {
    var first, second := "['" + a + "'", " '" + b + "']";
    TwoTagSplit(a, b);
    RowsOfTwoPieces(talk, first, second);
    CleanWrapped(first, "['", a, "'");
    CleanWrapped(second, " '", b, "']");
  }

  lemma RowsOfTwoPieces(talk: Talk, p: string, q: string)
    requires Split(talk.tags, ',') == [p, q]
    ensures RowsOf(talk) == [ThemeRow(talk.views, CleanTheme(p)), ThemeRow(talk.views, CleanTheme(q))]
  {
    RowsOfPieces(talk);
  }

  /** Spaces are removed everywhere in a piece, not only around it: a
      two-word tag `'a b'` becomes `ab`. */
  lemma InnerSpaceRemoved(a: string, b: string)
    requires NoneIn(a, Stripped) && NoneIn(b, Stripped)
    ensures CleanTheme(" '" + a + " " + b + "'") == a + b
  {
    var left, right := " '" + a, " " + b + "'";
    QuotedHeadCleaned(a, left);
    SpacedTailCleaned(b, right);
    assert " '" + a + " " + b + "'" == left + right;
    RemoveAllAppend(left, right, Stripped);
  }

  /** The first half `'a` of such a piece cleans to `a`. */
  lemma QuotedHeadCleaned(a: string, left: string)
    requires NoneIn(a, Stripped) && left == " '" + a
    ensures CleanTheme(left) == a
  {
    CleanWrapped(left, " '", a, "");
  }

  /** The second half ` b'` of such a piece cleans to `b`. */
  lemma SpacedTailCleaned(b: string, right: string)
    requires NoneIn(b, Stripped) && right == " " + b + "'"
    ensures CleanTheme(right) == b
  {
    CleanWrapped(right, " ", b, "'");
  }

  /** Lines 204-207 as the script runs them: the theme column is rewritten
      in place four times, one removed character per pass. */
  method CleanThemeColumn(col: array<string>)
    modifies col
    ensures forall i :: 0 <= i < col.Length ==> col[i] == CleanTheme(old(col[i]))
  {
    ghost var original := col[..];
    RemoveInColumn(col, '\'');
    RemoveInColumn(col, '[');
    RemoveInColumn(col, ']');
    RemoveInColumn(col, ' ');
    forall i | 0 <= i < col.Length ensures col[i] == CleanTheme(original[i]) {
      CleanThemeIsOnePass(original[i]);
    }
  }

  /** One `replace({c: ""}, regex=True)` pass over the column. */
  method RemoveInColumn(col: array<string>, c: char)
    modifies col
    ensures forall i :: 0 <= i < col.Length ==> col[i] == RemoveAll(old(col[i]), {c})
  {
    forall i | 0 <= i < col.Length {
      col[i] := RemoveAll(col[i], {c});
    }
  }
}
