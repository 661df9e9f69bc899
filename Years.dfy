/** The talks-per-year count: the year field of every film date, counted per
    distinct year and listed in ascending year order. */
module Years {
  import opened Collections
  import opened Text
  import opened Sorting
  import opened Frequency
  import opened Talks

  /** `date.split('-')[2]`: the third dash-separated field. Python raises
      `IndexError` when the date has fewer than two dashes. */
  function YearOf(date: string): (year: Option<string>)
    ensures year.Some? <==> CountIn(date, {'-'}) >= 2
    ensures year.Some? ==> '-' !in year.value
  {
    var fields := Split(date, '-');
    if |fields| > 2 then Some(fields[2]) else None
  }

  /** A `dd-mm-YYYY` date yields its year. */
  lemma YearOfFormatted(date: string, day: string, month: string, year: string)
    requires '-' !in day && '-' !in month && '-' !in year
    requires date == day + ['-'] + month + ['-'] + year
    ensures YearOf(date) == Some(year)
  {
    var fields := [day, month, year];
    assert Join(fields[2..], '-') == year;
    assert Join(fields[1..], '-') == month + ['-'] + year;
    assert Join(fields, '-') == date;
    forall i | 0 <= i < |fields| ensures NoneIn(fields[i], {'-'}) {
      assert '-' !in fields[i];
    }
    SplitJoin(fields, '-', {'-'});
  }

  /** The `year` column (line 50): one year per talk, or the `IndexError`
      when some film date has fewer than two dashes. */
  function YearsOf(talks: seq<Talk>): (years: Option<seq<string>>)
    ensures years.Some? <==> forall i :: 0 <= i < |talks| ==> YearOf(talks[i].filmDate).Some?
    ensures years.Some? ==> |years.value| == |talks|
    ensures years.Some? ==>
      forall i :: 0 <= i < |talks| ==> YearOf(talks[i].filmDate) == Some(years.value[i])
  {
    if talks == [] then Some([])
    else
      var rest := YearsOf(talks[1..]);
      assert forall i :: 1 <= i < |talks| ==> talks[i] == talks[1..][i - 1];
      match YearOf(talks[0].filmDate)
      case None => None
      case Some(y) =>
        match rest
        case None => None
        case Some(ys) => Some([y] + ys)
  }

  /** Table rows ordered by year, as `sort_values('year', ascending=True)`
      orders them: string comparison. */
  predicate ByYearAsc(a: (string, nat), b: (string, nat))
  {
    LexLe(a.0, b.0)
  }

  lemma ByYearAscIsPreorder()
    ensures TotalPreorder(ByYearAsc)
  {
    forall a: (string, nat), b: (string, nat) ensures ByYearAsc(a, b) || ByYearAsc(b, a) {
      LexLeTotal(a.0, b.0);
    }
    forall a: (string, nat), b: (string, nat), c: (string, nat) | ByYearAsc(a, b) && ByYearAsc(b, c)
      ensures ByYearAsc(a, c)
    {
      LexLeTransitive(a.0, b.0, c.0);
    }
  }

  /** Lines 50-53: the number of talks per year, one row per distinct year
      in strictly ascending order, every count positive and the counts
      adding up to the number of talks; or the `IndexError` of line 50. */
  function TalksPerYear(talks: seq<Talk>): (r: Option<Table<string>>)
    ensures r.None? <==> exists i :: 0 <= i < |talks| && YearOf(talks[i].filmDate).None?
    ensures r.Some? ==> IsTableOf(r.value, YearsOf(talks).value)
    ensures r.Some? ==> Total(r.value) == |talks|
    ensures r.Some? ==> forall e :: e in r.value ==> e.1 > 0
    ensures r.Some? ==> forall i, j :: 0 <= i < j < |r.value| ==>
      LexLe(r.value[i].0, r.value[j].0) && r.value[i].0 != r.value[j].0
  {
    match YearsOf(talks)
    case None => None
    case Some(years) =>
      YearTableProperties(years);
      Some(Sort(ValueCounts(years), ByYearAsc))
  }

  lemma YearTableProperties(years: seq<string>)
    ensures var t := Sort(ValueCounts(years), ByYearAsc);
      && IsTableOf(t, years) && Total(t) == |years|
      && (forall e :: e in t ==> e.1 > 0)
      && (forall i, j :: 0 <= i < j < |t| ==> LexLe(t[i].0, t[j].0) && t[i].0 != t[j].0)
  {
    var counted := ValueCounts(years);
    var t := Sort(counted, ByYearAsc);
    SortKeepsTable(counted, years, ByYearAsc);
    ByYearAscIsPreorder();
    SortSorted(counted, ByYearAsc);
    forall e | e in t ensures e.1 > 0 {
      assert e in multiset(t);
      assert e in multiset(counted);
    }
    forall i, j | 0 <= i < j < |t| ensures LexLe(t[i].0, t[j].0) && t[i].0 != t[j].0 {
      assert ByYearAsc(t[i], t[j]);
    }
  }
}
