/** The talk record as the analysis uses it, and the high-view subset. */
module Talks {
  import opened Collections

  /** One row of the talks table, restricted to the columns the modelled
      steps read. `filmDate` is already in the `dd-mm-YYYY` text form the
      script gives it after loading. */
  datatype Talk = Talk(title: string, views: nat, tags: string, filmDate: string)

  /** The fixed cut-off for "most viewed" talks. */
  const PopularViews: nat := 4000000

  predicate IsPopular(t: Talk)
  {
    t.views >= PopularViews
  }

  /** `tednv[tednv['views'] >= 4000000]`: exactly the talks with at least
      4,000,000 views. */
  function PopularTalks(talks: seq<Talk>): (r: seq<Talk>)
    ensures |r| <= |talks|
    ensures forall t :: t in r <==> t in talks && t.views >= PopularViews
  {
    Filter(talks, IsPopular)
  }

  /** The subset keeps the relative order of the talks it keeps. */
  lemma PopularTalksKeepOrder(a: seq<Talk>, b: seq<Talk>)
    ensures PopularTalks(a + b) == PopularTalks(a) + PopularTalks(b)
  {
    FilterAppend(a, b, IsPopular);
  }

  /** A kept talk appears as often as in the input, a dropped one never. */
  lemma PopularTalksMultiplicity(talks: seq<Talk>)
    ensures forall t :: multiset(PopularTalks(talks))[t]
                     == if t.views >= PopularViews then multiset(talks)[t] else 0
  {
    forall t ensures multiset(PopularTalks(talks))[t]
                  == if t.views >= PopularViews then multiset(talks)[t] else 0 {
      FilterMultiplicity(talks, IsPopular, t);
    }
  }
}
