/** The `/recommended` university ranking: a fit score between 50 and 100
    built from four components, the Dream/Target/Safe classification, and
    the ordering of the results by fit score. */
module Scoring {
  import opened Common
  import opened Catalog
  import opened Profiles

  /** The budget cap of each `budgetRange` value. The handler's fallback of
      50000 for an unknown text cannot arise for a value of the enum. */
  function BudgetCap(b: Budget): (r: int)
    ensures r > 0
  {
    match b
    case Under10k => 10000
    case From10kTo30k => 30000
    case From30kTo50k => 50000
    case From50kTo100k => 100000
    case Over100k => 200000
  }

  /** +20 when the university's country is a preferred one. */
  function CountryPoints(u: University, p: Profile): (r: nat)
    ensures r == 20 <==> u.country in p.preferredCountries
    ensures r == 0 <==> u.country !in p.preferredCountries
  {
    if u.country in p.preferredCountries then 20 else 0
  }

  /** +15 when the GPA meets a (truthy) requirement, +5 when it is within
      0.3 below it, nothing when either number is missing. */
  function GpaPoints(u: University, p: Profile): (r: nat)
    ensures r == 15 <==> Truthy(u.gpaRequirement) && p.gpa.Some? && p.gpa.value >= u.gpaRequirement.value
    ensures r == 5 <==> Truthy(u.gpaRequirement) && p.gpa.Some?
                        && u.gpaRequirement.value - 0.3 <= p.gpa.value < u.gpaRequirement.value
    ensures r == 0 || r == 5 || r == 15
  {
    if Truthy(u.gpaRequirement) && p.gpa.Some? then
      var req := u.gpaRequirement.value;
      if p.gpa.value >= req then 15
      else if p.gpa.value >= req - 0.3 then 5
      else 0
    else 0
  }

  /** +15 when a budget is given and the maximum tuition is within its cap. */
  function BudgetPoints(u: University, p: Profile): (r: nat)
    ensures r == 15 <==> p.budgetRange.Some? && u.tuitionFee.max.Some?
                         && u.tuitionFee.max.value <= BudgetCap(p.budgetRange.value)
    ensures r == 0 || r == 15
  {
    if p.budgetRange.Some? && u.tuitionFee.max.Some? && u.tuitionFee.max.value <= BudgetCap(p.budgetRange.value)
    then 15 else 0
  }

  /** +10 above 60 % acceptance, +5 above 40 %. */
  function AcceptancePoints(u: University): (r: nat)
    ensures r == 10 <==> u.acceptanceRate.Some? && u.acceptanceRate.value > 60.0
    ensures r == 5 <==> u.acceptanceRate.Some? && 40.0 < u.acceptanceRate.value <= 60.0
    ensures r == 0 || r == 5 || r == 10
  {
    if Truthy(u.acceptanceRate) then
      if u.acceptanceRate.value > 60.0 then 10
      else if u.acceptanceRate.value > 40.0 then 5
      else 0
    else 0
  }

  /** `calculateFitScore`: base 50 plus the four components, capped at 100. */
  function FitScore(u: University, p: Profile): (r: int)
    ensures 50 <= r <= 100
  {
    Min(100, 50 + CountryPoints(u, p) + GpaPoints(u, p) + BudgetPoints(u, p) + AcceptancePoints(u))
  }

  /** Preferring the university's country raises its score by exactly 20, up to the cap. */
  lemma PreferringCountryAddsTwenty(u: University, p: Profile)
    requires u.country !in p.preferredCountries
    ensures FitScore(u, p.(preferredCountries := p.preferredCountries + [u.country]))
            == Min(100, FitScore(u, p) + 20)
  {
    var q := p.(preferredCountries := p.preferredCountries + [u.country]);
    assert u.country == q.preferredCountries[|p.preferredCountries|];
    assert GpaPoints(u, q) == GpaPoints(u, p);
    assert BudgetPoints(u, q) == BudgetPoints(u, p);
  }

  /** A higher GPA never lowers the fit score. */
  lemma FitScoreGpaMonotone(u: University, p: Profile, lo: real, hi: real)
    requires lo <= hi
    ensures FitScore(u, p.(gpa := Some(lo))) <= FitScore(u, p.(gpa := Some(hi)))
  {
    var a := p.(gpa := Some(lo));
    var b := p.(gpa := Some(hi));
    assert CountryPoints(u, a) == CountryPoints(u, b);
    assert BudgetPoints(u, a) == BudgetPoints(u, b);
    assert GpaPoints(u, a) <= GpaPoints(u, b);
  }

  /** A larger budget never lowers the fit score. */
  lemma FitScoreBudgetMonotone(u: University, p: Profile, small: Budget, large: Budget)
    requires BudgetCap(small) <= BudgetCap(large)
    ensures FitScore(u, p.(budgetRange := Some(small))) <= FitScore(u, p.(budgetRange := Some(large)))
  {
    var a := p.(budgetRange := Some(small));
    var b := p.(budgetRange := Some(large));
    assert CountryPoints(u, a) == CountryPoints(u, b);
    assert GpaPoints(u, a) == GpaPoints(u, b);
    assert BudgetPoints(u, a) <= BudgetPoints(u, b);
  }

  /** A missing or zero acceptance rate counts as 50. */
  function AcceptanceOr50(u: University): real {
    if Truthy(u.acceptanceRate) then u.acceptanceRate.value else 50.0
  }

  /** The classification of one result: Dream for a top-50 ranking with a
      GPA under 3.5 or acceptance under 30 %, else Safe above 60 % acceptance
      when the GPA is at most 0.3 below the requirement, else Target. */
  function Classify(u: University, p: Profile): (r: Category)
    ensures r == Dream <==> u.ranking.Some? && u.ranking.value != 0 && u.ranking.value <= 50
                            && (GpaOrZero(p) < 3.5 || AcceptanceOr50(u) < 30.0)
    ensures r == Safe <==> r != Dream && AcceptanceOr50(u) > 60.0
                           && (!Truthy(u.gpaRequirement) || GpaOrZero(p) >= u.gpaRequirement.value - 0.3)
    ensures r == Target <==> r != Dream && r != Safe
  {
    var gpa := GpaOrZero(p);
    var acceptance := AcceptanceOr50(u);
    if u.ranking.Some? && u.ranking.value != 0 && u.ranking.value <= 50 && (gpa < 3.5 || acceptance < 30.0) then Dream
    else if acceptance > 60.0 && (!Truthy(u.gpaRequirement) || gpa >= u.gpaRequirement.value - 0.3) then Safe
    else Target
  }

  /** Dream before Target before Safe. */
  function Tier(c: Category): nat {
    match c
    case Dream => 0
    case Target => 1
    case Safe => 2
  }

  /** A higher GPA never moves a university towards Dream. */
  lemma ClassifyGpaMonotone(u: University, p: Profile, lo: real, hi: real)
    requires lo <= hi
    ensures Tier(Classify(u, p.(gpa := Some(lo)))) <= Tier(Classify(u, p.(gpa := Some(hi))))
  {
    var a := p.(gpa := Some(lo));
    var b := p.(gpa := Some(hi));
    assert GpaOrZero(a) == lo && GpaOrZero(b) == hi;
  }

  /** Without an acceptance rate a university is never Safe. */
  lemma NoAcceptanceNeverSafe(u: University, p: Profile)
    requires !Truthy(u.acceptanceRate)
    ensures Classify(u, p) != Safe
  {
  }

  /** One result of `/recommended`. */
  datatype Scored = Scored(uni: University, category: Category, fitScore: int)

  function Annotate(unis: seq<University>, p: Profile): (r: seq<Scored>)
    ensures |r| == |unis|
    ensures forall i :: 0 <= i < |r| ==>
              r[i] == Scored(unis[i], Classify(unis[i], p), FitScore(unis[i], p))
  {
    seq(|unis|, i requires 0 <= i < |unis| => Scored(unis[i], Classify(unis[i], p), FitScore(unis[i], p)))
  }

  predicate ByFitDescending(xs: seq<Scored>) {
    forall i, j :: 0 <= i < j < |xs| ==> xs[i].fitScore >= xs[j].fitScore
  }

  /** Inserts `x` into a list ordered by fit score, before the first entry
      that does not beat it. */
  function Insert(x: Scored, xs: seq<Scored>): (r: seq<Scored>)
    ensures multiset(r) == multiset(xs) + multiset{x}
  {
    if xs == [] || xs[0].fitScore <= x.fitScore then [x] + xs
    else
      assert xs == [xs[0]] + xs[1..];
      [xs[0]] + Insert(x, xs[1..])
  }

  /** Inserting into an ordered list keeps it ordered. */
  lemma {:induction false} InsertOrdered(x: Scored, xs: seq<Scored>)
    requires ByFitDescending(xs)
    ensures ByFitDescending(Insert(x, xs))
  {
    if xs != [] && xs[0].fitScore > x.fitScore {
      var rest := Insert(x, xs[1..]);
      InsertOrdered(x, xs[1..]);
      var r := [xs[0]] + rest;
      forall k | 0 < k < |r|
        ensures xs[0].fitScore >= r[k].fitScore
      {
        assert r[k] == rest[k - 1];
        assert r[k] in multiset(xs[1..]) + multiset{x};
        if r[k] != x {
          assert r[k] in multiset(xs[1..]);
          var m :| 0 <= m < |xs[1..]| && xs[1..][m] == r[k];
          assert xs[m + 1] == r[k];
        }
      }
    }
  }

  /** `sort((a, b) => b.fitScore - a.fitScore)`. */
  function SortByFit(xs: seq<Scored>): (r: seq<Scored>)
    ensures ByFitDescending(r)
    ensures multiset(r) == multiset(xs)
  {
    if xs == [] then []
    else
      assert xs == [xs[0]] + xs[1..];
      var sorted := SortByFit(xs[1..]);
      InsertOrdered(xs[0], sorted);
      Insert(xs[0], sorted)
  }

  /** The results with fit score `v`, in their order. */
  function WithScore(xs: seq<Scored>, v: int): (r: seq<Scored>)
    ensures forall i :: 0 <= i < |r| ==> r[i].fitScore == v
  {
    if xs == [] then []
    else if xs[0].fitScore == v then [xs[0]] + WithScore(xs[1..], v)
    else WithScore(xs[1..], v)
  }

  lemma {:induction false} WithScoreAppend(a: seq<Scored>, b: seq<Scored>, v: int)
    ensures WithScore(a + b, v) == WithScore(a, v) + WithScore(b, v)
  {
    if a == [] {
      assert a + b == b;
    } else {
      WithScoreAppend(a[1..], b, v);
      assert (a + b)[0] == a[0] && (a + b)[1..] == a[1..] + b;
    }
  }

  lemma WithScoreOne(x: Scored, v: int)
    ensures WithScore([x], v) == if x.fitScore == v then [x] else []
  {
    assert [x][1..] == [];
  }

  /** Insertion passes only entries that score strictly higher, so among equal
      scores the inserted entry comes first. */
  lemma {:induction false} InsertStable(x: Scored, xs: seq<Scored>, v: int)
    ensures WithScore(Insert(x, xs), v) == WithScore([x], v) + WithScore(xs, v)
  {
    if xs == [] || xs[0].fitScore <= x.fitScore {
      assert Insert(x, xs) == [x] + xs;
      WithScoreAppend([x], xs, v);
    } else {
      InsertStable(x, xs[1..], v);
      assert Insert(x, xs) == [xs[0]] + Insert(x, xs[1..]);
      PassHigher(x, xs[0], Insert(x, xs[1..]), WithScore(xs[1..], v), v);
      WithScoreAppend([xs[0]], xs[1..], v);
      assert xs == [xs[0]] + xs[1..];
    }
  }

  /** Past an entry `y` that scores higher than `x`: if `x` keeps its place
      among equal scores in `rest`, it keeps it in `[y] + rest`. */
  lemma PassHigher(x: Scored, y: Scored, rest: seq<Scored>, tail: seq<Scored>, v: int)
    requires y.fitScore > x.fitScore
    requires WithScore(rest, v) == WithScore([x], v) + tail
    ensures WithScore([y] + rest, v) == WithScore([x], v) + (WithScore([y], v) + tail)
  {
    WithScoreAppend([y], rest, v);
    WithScoreOne(x, v);
    WithScoreOne(y, v);
  }

  /** The sort is stable: the entries of any one fit score keep their input order. */
  lemma {:induction false} SortByFitStable(xs: seq<Scored>, v: int)
    ensures WithScore(SortByFit(xs), v) == WithScore(xs, v)
  {
    if xs != [] {
      SortByFitStable(xs[1..], v);
      InsertStable(xs[0], SortByFit(xs[1..]), v);
      WithScoreAppend([xs[0]], xs[1..], v);
      assert xs == [xs[0]] + xs[1..];
    }
  }

  /** The results of `/recommended` for the universities the profile query
      returned: each classified and scored, best fit first. */
  function Recommended(unis: seq<University>, p: Profile): (r: seq<Scored>)
    ensures ByFitDescending(r)
    ensures multiset(r) == multiset(Annotate(unis, p))
  {
    SortByFit(Annotate(unis, p))
  }

  /** Every result is a queried university with its own category and score,
      and every queried university is among the results. */
  lemma RecommendedEntries(unis: seq<University>, p: Profile)
    ensures var r := Recommended(unis, p);
            && |r| == |unis|
            && (forall i :: 0 <= i < |r| ==>
                  r[i].uni in unis && r[i].category == Classify(r[i].uni, p) && r[i].fitScore == FitScore(r[i].uni, p))
            && (forall u :: u in unis ==> exists i :: 0 <= i < |r| && r[i].uni == u)
  {
    var r := Recommended(unis, p);
    var a := Annotate(unis, p);
    assert |r| == |multiset(r)| == |multiset(a)| == |a|;
    forall i | 0 <= i < |r|
      ensures r[i].uni in unis && r[i].category == Classify(r[i].uni, p) && r[i].fitScore == FitScore(r[i].uni, p)
    {
      assert r[i] in multiset(a);
      var k :| 0 <= k < |a| && a[k] == r[i];
    }
    forall u | u in unis
      ensures exists i :: 0 <= i < |r| && r[i].uni == u
    {
      var k :| 0 <= k < |unis| && unis[k] == u;
      assert a[k] in multiset(r);
      var i :| 0 <= i < |r| && r[i] == a[k];
    }
  }
}
