/** The title-shape analysis: titles ending in `?`, titles ending in `!`
    and the remaining "statement" titles, counted over all talks and over
    the high-view subset, and the share of each class that reaches the
    high-view subset. */
module TitleShapes {
  import opened Collections
  import opened Text
  import opened Talks

  predicate IsQuestion(t: Talk)
  {
    EndsWith(t.title, '?')
  }

  predicate IsExclamation(t: Talk)
  {
    EndsWith(t.title, '!')
  }

  /** A title that ends in neither `?` nor `!`. */
  predicate IsStatement(t: Talk)
  {
    !IsQuestion(t) && !IsExclamation(t)
  }

  /** `tednv.loc[tednv['title'].str.endswith('?')]` */
  function Questions(talks: seq<Talk>): (r: seq<Talk>)
    ensures forall t :: t in r <==> t in talks && EndsWith(t.title, '?')
  {
    Filter(talks, IsQuestion)
  }

  /** `tednv.loc[tednv['title'].str.endswith('!')]` */
  function Exclamations(talks: seq<Talk>): (r: seq<Talk>)
    ensures forall t :: t in r <==> t in talks && EndsWith(t.title, '!')
  {
    Filter(talks, IsExclamation)
  }

  /** The talks whose title ends in neither character: the independent
      definition of what the script computes as a remainder. */
  function Statements(talks: seq<Talk>): (r: seq<Talk>)
    ensures forall t :: t in r <==> t in talks && !EndsWith(t.title, '?') && !EndsWith(t.title, '!')
  {
    Filter(talks, IsStatement)
  }

  /** Number of question, exclamation and statement titles. */
  datatype ShapeCounts = ShapeCounts(question: nat, exclamation: nat, statement: nat)

  /** The three counts, with the statement count taken as the script takes
      it, total minus the other two. No title ends in both characters, so
      the remainder is never negative, it is exactly the number of titles
      ending in neither, and the three classes add up to the number of talks. */
  function CountShapes(talks: seq<Talk>): (c: ShapeCounts)
    ensures c.question == |Questions(talks)| && c.exclamation == |Exclamations(talks)|
    ensures c.statement == |Statements(talks)|
    ensures c.question + c.exclamation + c.statement == |talks|
  {
    var q, e := |Questions(talks)|, |Exclamations(talks)|;
    FilterPartition(talks, IsQuestion, IsExclamation, IsStatement);
    ShapeCounts(q, e, |talks| - q - e)
  }

  /** Lines 307-309 as written: the variable reported as the question
      count holds the number of `!` titles, and the one reported as the
      exclamation count holds the number of `?` titles. */
  function CountShapesAsWritten(talks: seq<Talk>): (c: ShapeCounts)
    ensures c.question + c.exclamation + c.statement == |talks|
  {
    var q, e := |Questions(talks)|, |Exclamations(talks)|;
    FilterPartition(talks, IsQuestion, IsExclamation, IsStatement);
    ShapeCounts(e, q, |talks| - q - e)
  }

  /** The as-written counts are the true counts with the first two labels swapped. */
  lemma AsWrittenSwapsLabels(talks: seq<Talk>)
    ensures CountShapesAsWritten(talks).question == CountShapes(talks).exclamation
    ensures CountShapesAsWritten(talks).exclamation == CountShapes(talks).question
    ensures CountShapesAsWritten(talks).statement == CountShapes(talks).statement
  {
  }

  /** One talk titled "Why?": it is a question, yet the as-written question count is 0. */
  lemma AsWrittenMislabelsQuestion()
    ensures CountShapes([Talk("Why?", 0, "", "")]).question == 1
    ensures CountShapesAsWritten([Talk("Why?", 0, "", "")]).question == 0
  {
    var talks := [Talk("Why?", 0, "", "")];
    assert talks[1..] == [];
    assert IsQuestion(talks[0]) && !IsExclamation(talks[0]);
  }

  /** The same counts over the talks with at least 4,000,000 views (lines 316-321). */
  function PopularShapes(talks: seq<Talk>): (c: ShapeCounts)
    ensures c == CountShapes(PopularTalks(talks))
    ensures c.question <= CountShapes(talks).question
    ensures c.exclamation <= CountShapes(talks).exclamation
    ensures c.statement <= CountShapes(talks).statement
  {
    FilterOfFilterBound(talks, IsPopular, IsQuestion);
    FilterOfFilterBound(talks, IsPopular, IsExclamation);
    FilterOfFilterBound(talks, IsPopular, IsStatement);
    CountShapes(PopularTalks(talks))
  }

  /** `(top / full) * 100` on exact numbers: Python raises
      `ZeroDivisionError` when the full-set class is empty, and otherwise
      the rate times the class size is a hundred times the high-view count. */
  function SuccessRate(top: nat, full: nat): (r: Option<real>)
    ensures r.None? <==> full == 0
    ensures r.Some? ==> r.value * (full as real) == 100.0 * (top as real)
    ensures r.Some? && top <= full ==> 0.0 <= r.value <= 100.0
  {
    if full == 0 then None else Some(100.0 * (top as real) / (full as real))
  }

  /** The three success rates, in percent. */
  datatype Rates = Rates(question: real, exclamation: real, statement: real)

  /** Lines 331-333: the step fails as soon as one title class is empty in
      the full set; otherwise every rate is a percentage between 0 and 100. */
  function SuccessRates(talks: seq<Talk>): (r: Option<Rates>)
    ensures var full := CountShapes(talks);
      r.None? <==> full.question == 0 || full.exclamation == 0 || full.statement == 0
    ensures r.Some? ==>
      && 0.0 <= r.value.question <= 100.0
      && 0.0 <= r.value.exclamation <= 100.0
      && 0.0 <= r.value.statement <= 100.0
  {
    var top, full := PopularShapes(talks), CountShapes(talks);
    var q := SuccessRate(top.question, full.question);
    var e := SuccessRate(top.exclamation, full.exclamation);
    var s := SuccessRate(top.statement, full.statement);
    if q.None? || e.None? || s.None? then None else Some(Rates(q.value, e.value, s.value))
  }

  /** When all three rates exist, each one is the rate of its class as
      `SuccessRate` gives it (lines 331, 332 and 333), so times the full-set
      class size it is a hundred times the high-view count of that class. */
  lemma SuccessRatesValues(talks: seq<Talk>)
    ensures var r, top, full := SuccessRates(talks), PopularShapes(talks), CountShapes(talks);
      r.Some? ==>
        && r.value.question == SuccessRate(top.question, full.question).value
        && r.value.exclamation == SuccessRate(top.exclamation, full.exclamation).value
        && r.value.statement == SuccessRate(top.statement, full.statement).value
  {
  }
}
