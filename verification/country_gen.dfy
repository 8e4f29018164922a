/** The deterministic half of the country recommender: the retry loop's
    result, the tier-1-first fallback, the filter against the store's counts,
    and the top-up loop. */
module CountryGen {
  import opened Common
  import opened Text
  import opened Catalog
  import opened Profiles
  import opened Progress
  import opened Oracle

  /** One element of the AI's parsed JSON array. */
  datatype CountryPick = CountryPick(country: string, reason: string, avgTuition: string)

  /** A country chosen before the store is consulted for its count. */
  datatype Candidate = Candidate(country: string, reason: CountryReason, avgTuition: TuitionNote)

  const WantedCountries: nat := 5

  const Tier1: seq<string> := ["United States", "United Kingdom", "Canada", "Australia", "Germany",
                               "Ireland", "New Zealand", "Netherlands", "France", "Singapore"]

  /** Used when the store lists no country at all. */
  const DefaultCountries: seq<string> := ["USA", "United Kingdom", "Canada", "Australia", "Germany"]

  /** The distinct countries of the store, or the defaults when it is empty. */
  function AvailableCountries(cat: Catalog): (r: seq<string>)
    ensures r != [] && NoDuplicates(r)
    ensures cat != [] ==> forall c :: c in r <==> exists i :: 0 <= i < |cat| && cat[i].country == c
  {
    var d := DistinctCountries(cat);
    if d == [] then DefaultCountries else d
  }

  /** `tiers.some(t => c.includes(t) || t.includes(c))`. */
  predicate MatchesAny(c: string, tiers: seq<string>)
    decreases |tiers|
  {
    tiers != [] && (Contains(c, tiers[0]) || Contains(tiers[0], c) || MatchesAny(c, tiers[1..]))
  }

  predicate IsTier1(c: string) {
    MatchesAny(c, Tier1)
  }

  /** Tier-1 countries are picked before all others: an available tier-1
      country is left out only when every pick is tier-1. */
  predicate Tier1Preferred(r: seq<Candidate>, available: seq<string>) {
    forall c :: c in available && IsTier1(c) && (forall i :: 0 <= i < |r| ==> r[i].country != c) ==>
      forall i :: 0 <= i < |r| ==> IsTier1(r[i].country)
  }

  /** A sort with a random comparator, modelled as an arbitrary permutation:
      `choices` picks, at each step, which remaining element comes next. Every
      permutation arises from some choice sequence. */
  function Shuffle<T>(xs: seq<T>, choices: seq<nat>): (r: seq<T>)
    ensures multiset(r) == multiset(xs)
    ensures |r| == |xs|
    decreases |xs|
  {
    if xs == [] then []
    else
      var k := (if choices == [] then 0 else choices[0]) % |xs|;
      var rest := xs[..k] + xs[k + 1..];
      var tail := Shuffle(rest, if choices == [] then [] else choices[1..]);
      RemoveAt(xs, k);
      [xs[k]] + tail
  }

  /** Taking out one element leaves the rest of the multiset. */
  lemma RemoveAt<T>(xs: seq<T>, k: nat)
    requires k < |xs|
    ensures multiset(xs) == multiset(xs[..k] + xs[k + 1..]) + multiset{xs[k]}
  {
    assert xs == xs[..k] + [xs[k]] + xs[k + 1..];
  }

  /** The fallback selection: tier-1 countries first (each group shuffled),
      at most five, each with the generic reason for the student's course. */
  function FallbackPicks(available: seq<string>, course: string,
                         preferredChoices: seq<nat>, otherChoices: seq<nat>): (r: seq<Candidate>)
    requires NoDuplicates(available)
    ensures |r| == Min(WantedCountries, |available|)
    ensures forall i :: 0 <= i < |r| ==> r[i].country in available
    ensures forall i :: 0 <= i < |r| ==> r[i] == Candidate(r[i].country, PopularFor(course), Varies)
    ensures forall i, j :: 0 <= i < j < |r| && IsTier1(r[j].country) ==> IsTier1(r[i].country)
    ensures Tier1Preferred(r, available)
    ensures forall i, j :: 0 <= i < j < |r| ==> r[i].country != r[j].country
  {
    var preferred := Filter(available, IsTier1);
    var others := Filter(available, (c: string) => c !in preferred);
    var sp := Shuffle(preferred, preferredChoices);
    var so := Shuffle(others, otherChoices);
    GroupsPartition(available, preferred, others);
    ShuffledTier1(available, preferred, sp);
    ShuffledOthers(available, preferred, others, so);
    PermutationOf(sp + so, available);
    forall c | c in available && IsTier1(c)
      ensures c in sp
    {
      assert c in preferred;
      assert c in multiset(preferred);
    }
    var r := TakeFallback(sp + so, course);
    FallbackOrder(sp, so, available, course, r);
    r
  }

  /** Membership in the tier-1 group is exactly being tier-1, over the available countries. */
  lemma PreferredExactly(available: seq<string>, preferred: seq<string>)
    requires preferred == Filter(available, IsTier1)
    ensures forall i :: 0 <= i < |available| ==> ((available[i] !in preferred) == !IsTier1(available[i]))
  {
    forall i | 0 <= i < |available|
      ensures (available[i] !in preferred) == !IsTier1(available[i])
    {
      if available[i] in preferred {
        var k :| 0 <= k < |preferred| && preferred[k] == available[i];
        assert IsTier1(preferred[k]);
      }
    }
  }

  /** The tier-1 group and the rest together hold each available country once. */
  lemma GroupsPartition(available: seq<string>, preferred: seq<string>, others: seq<string>)
    requires preferred == Filter(available, IsTier1)
    requires others == Filter(available, (c: string) => c !in preferred)
    ensures multiset(preferred) + multiset(others) == multiset(available)
  {
    PreferredExactly(available, preferred);
    FilterSplit(available, IsTier1, (c: string) => c !in preferred);
  }

  /** The first five of the tier-1 group followed by the others: tier-1 first, no repeats. */
  lemma FallbackOrder(sp: seq<string>, so: seq<string>, available: seq<string>, course: string, r: seq<Candidate>)
    requires forall i :: 0 <= i < |sp| ==> IsTier1(sp[i])
    requires forall i :: 0 <= i < |so| ==> !IsTier1(so[i])
    requires NoDuplicates(sp + so)
    requires forall i :: 0 <= i < |sp + so| ==> (sp + so)[i] in available
    requires forall c :: c in available && IsTier1(c) ==> c in sp
    requires r == TakeFallback(sp + so, course)
    ensures forall i :: 0 <= i < |r| ==> r[i].country in available
    ensures forall i, j :: 0 <= i < j < |r| && IsTier1(r[j].country) ==> IsTier1(r[i].country)
    ensures Tier1Preferred(r, available)
    ensures forall i, j :: 0 <= i < j < |r| ==> r[i].country != r[j].country
  {
    var all := sp + so;
    assert forall i :: 0 <= i < |r| ==> r[i].country == all[i];
    forall i, j | 0 <= i < j < |r| && IsTier1(r[j].country)
      ensures IsTier1(r[i].country)
    {
      assert j < |sp|;
      assert all[i] == sp[i];
    }
    Tier1First(sp, so, available, course, r);
  }

  /** A tier-1 country missing from the first picks must lie past them, so they are all tier-1. */
  lemma Tier1First(sp: seq<string>, so: seq<string>, available: seq<string>, course: string, r: seq<Candidate>)
    requires forall i :: 0 <= i < |sp| ==> IsTier1(sp[i])
    requires forall c :: c in available && IsTier1(c) ==> c in sp
    requires r == TakeFallback(sp + so, course)
    ensures Tier1Preferred(r, available)
  {
    var all := sp + so;
    forall c | c in available && IsTier1(c) && (exists i :: 0 <= i < |r| && !IsTier1(r[i].country))
      ensures exists i :: 0 <= i < |r| && r[i].country == c
    {
      var m :| 0 <= m < |sp| && sp[m] == c;
      var i :| 0 <= i < |r| && !IsTier1(r[i].country);
      assert r[i].country == all[i];
      assert |sp| <= i;
      assert r[m].country == all[m] == c;
    }
  }

  /** A permutation of a duplicate-free list has its length, its members and no duplicates. */
  lemma PermutationOf(xs: seq<string>, ys: seq<string>)
    requires multiset(xs) == multiset(ys) && NoDuplicates(ys)
    ensures |xs| == |ys| && NoDuplicates(xs)
    ensures forall i :: 0 <= i < |xs| ==> xs[i] in ys
  {
    assert |multiset(xs)| == |multiset(ys)|;
    NoDuplicatesPermutation(xs, ys);
    forall i | 0 <= i < |xs|
      ensures xs[i] in ys
    {
      assert xs[i] in multiset(ys);
    }
  }

  /** Whatever order the shuffle picks, the tier-1 group holds only tier-1 countries. */
  lemma ShuffledTier1(available: seq<string>, preferred: seq<string>, sp: seq<string>)
    requires preferred == Filter(available, IsTier1)
    requires multiset(sp) == multiset(preferred)
    ensures forall i :: 0 <= i < |sp| ==> IsTier1(sp[i])
  {
    forall i | 0 <= i < |sp|
      ensures IsTier1(sp[i])
    {
      assert sp[i] in multiset(preferred);
      var k :| 0 <= k < |preferred| && preferred[k] == sp[i];
    }
  }

  /** Whatever order the shuffle picks, the other group holds no tier-1 country. */
  lemma ShuffledOthers(available: seq<string>, preferred: seq<string>, others: seq<string>, so: seq<string>)
    requires preferred == Filter(available, IsTier1)
    requires others == Filter(available, (c: string) => c !in preferred)
    requires multiset(so) == multiset(others)
    ensures forall i :: 0 <= i < |so| ==> !IsTier1(so[i])
  {
    PreferredExactly(available, preferred);
    forall i | 0 <= i < |so|
      ensures !IsTier1(so[i])
    {
      assert so[i] in multiset(others);
      var k :| 0 <= k < |others| && others[k] == so[i];
      assert others[k] in available && others[k] !in preferred;
      var m :| 0 <= m < |available| && available[m] == others[k];
    }
  }

  /** The fallback candidates from an ordered country list: the first five, with the generic reason. */
  function TakeFallback(combined: seq<string>, course: string): (r: seq<Candidate>)
    ensures |r| == Min(WantedCountries, |combined|)
    ensures forall i :: 0 <= i < |r| ==> r[i] == Candidate(combined[i], PopularFor(course), Varies)
  {
    var n := Min(WantedCountries, |combined|);
    seq(n, i requires 0 <= i < n => Candidate(combined[i], PopularFor(course), Varies))
  }

  /** Keeps the candidates the store has programs for, with their count
      (the `for (const item of finalSelection)` loop). */
  function KeepListed(cands: seq<Candidate>, cat: Catalog): (r: seq<CountryEntry>)
    ensures |r| <= |cands|
    ensures forall i :: 0 <= i < |r| ==> r[i].universitiesCount > 0
                                         && r[i].universitiesCount == CountryCount(cat, r[i].country)
    ensures forall i :: 0 <= i < |r| ==> AsCandidate(r[i]) in cands
    ensures forall j :: 0 <= j < |cands| && CountryCount(cat, cands[j].country) > 0 ==> cands[j] in Candidates(r)
    ensures (forall j :: 0 <= j < |cands| ==> CountryCount(cat, cands[j].country) > 0) ==>
              |r| == |cands| && forall i :: 0 <= i < |r| ==> AsCandidate(r[i]) == cands[i]
  {
    var listed := Filter(cands, (c: Candidate) => CountryCount(cat, c.country) > 0);
    var r := seq(|listed|, i requires 0 <= i < |listed| =>
                 CountryEntry(listed[i].country, listed[i].reason, listed[i].avgTuition, CountryCount(cat, listed[i].country)));
    assert Candidates(r) == listed;
    r
  }

  function AsCandidate(e: CountryEntry): Candidate {
    Candidate(e.country, e.reason, e.avgTuition)
  }

  function Candidates(es: seq<CountryEntry>): (r: seq<Candidate>)
    ensures |r| == |es| && forall i :: 0 <= i < |es| ==> r[i] == AsCandidate(es[i])
  {
    seq(|es|, i requires 0 <= i < |es| => AsCandidate(es[i]))
  }

  /** An appended entry: a remaining country, with the "Alternative option"
      reason, tuition "Varies" and the store's program count. */
  predicate IsAlternative(x: CountryEntry, remaining: seq<string>, cat: Catalog) {
    x.country in remaining && x.reason == Alternative && x.avgTuition == Varies
    && x.universitiesCount == CountryCount(cat, x.country)
  }

  /** The top-up loop `for (let i = 0; i < (5 - proposed.length); i++) if (remaining[i]) push(...)`.
      The bound is re-read after every push. */
  function TopUp(proposed: seq<CountryEntry>, remaining: seq<string>, i: nat, cat: Catalog): (r: seq<CountryEntry>)
    ensures |proposed| <= |r| && r[..|proposed|] == proposed
    ensures forall k :: |proposed| <= k < |r| ==> IsAlternative(r[k], remaining, cat)
    decreases WantedCountries - |proposed| - i
  {
    if i >= WantedCountries - |proposed| then proposed
    else if i < |remaining| && remaining[i] != "" then
      var e := CountryEntry(remaining[i], Alternative, Varies, CountryCount(cat, remaining[i]));
      var grown := proposed + [e];
      var r := TopUp(grown, remaining, i + 1, cat);
      assert r[..|proposed|] == r[..|grown|][..|proposed|] == proposed;
      assert r[|proposed|] == r[..|grown|][|proposed|] == e;
      assert IsAlternative(e, remaining, cat);
      r
    else TopUp(proposed, remaining, i + 1, cat)
  }

  /** The countries the AI answer yields, when it parsed to an array of at least five. */
  function FromAi(picks: seq<CountryPick>): (r: seq<Candidate>)
    ensures |r| == |picks|
    ensures forall i :: 0 <= i < |r| ==> r[i] == Candidate(picks[i].country, Suggested(picks[i].reason), Quoted(picks[i].avgTuition))
  {
    seq(|picks|, i requires 0 <= i < |picks| => Candidate(picks[i].country, Suggested(picks[i].reason), Quoted(picks[i].avgTuition)))
  }

  /** The AI answer is used as is only when it is an array of at least five items. */
  predicate AiAnswerUsable(parsed: Option<Option<seq<CountryPick>>>) {
    parsed.Some? && parsed.value.Some? && |parsed.value.value| >= WantedCountries
  }

  /** The candidate list before the store is consulted. */
  function Selection(cat: Catalog, course: string, calls: seq<CallOutcome<Option<seq<CountryPick>>>>,
                     preferredChoices: seq<nat>, otherChoices: seq<nat>): seq<Candidate>
  {
    var parsed := Retry(calls).reply;
    if AiAnswerUsable(parsed) then FromAi(parsed.value.value)
    else FallbackPicks(AvailableCountries(cat), course, preferredChoices, otherChoices)
  }

  /** The countries not already proposed, in availability order. */
  function Remaining(cat: Catalog, kept: seq<CountryEntry>): seq<string> {
    var used := seq(|kept|, i requires 0 <= i < |kept| => kept[i].country);
    Filter(AvailableCountries(cat), (c: string) => c !in used)
  }

  /** The full proposed-country list of `ensureCountryRecommendation`. */
  function Recommend(cat: Catalog, course: string, calls: seq<CallOutcome<Option<seq<CountryPick>>>>,
                     preferredChoices: seq<nat>, otherChoices: seq<nat>): seq<CountryEntry>
  {
    var kept := KeepListed(Selection(cat, course, calls, preferredChoices, otherChoices), cat);
    if |kept| < WantedCountries then TopUp(kept, Remaining(cat, kept), 0, cat) else kept
  }

  /** `ensureCountryRecommendation`: always regenerates, writing only `task0.proposedCountries`. */
  function EnsureCountry(rec: Record, cat: Catalog, profile: Option<Profile>,
                         calls: seq<CallOutcome<Option<seq<CountryPick>>>>,
                         preferredChoices: seq<nat>, otherChoices: seq<nat>): (r: Record)
    ensures r == rec.(task0 := rec.task0.(proposedCountries := r.task0.proposedCountries))
  {
    rec.(task0 := rec.task0.(proposedCountries := Recommend(cat, Course(profile), calls, preferredChoices, otherChoices)))
  }

  /** How many countries the top-up loop appends, given the list so far and the
      remaining candidates (all non-empty): the bound `5 - length` shrinks with
      every push, so from `i` on it appends at most `(6 - length + i) / 2 - i`. */
  lemma {:induction false} TopUpLength(proposed: seq<CountryEntry>, remaining: seq<string>, i: nat, cat: Catalog)
    requires |proposed| <= WantedCountries + i
    requires forall k :: 0 <= k < |remaining| ==> remaining[k] != ""
    ensures |TopUp(proposed, remaining, i, cat)|
            == |proposed| + Max(0, Min(|remaining|, (WantedCountries + 1 - |proposed| + i) / 2) - i)
    decreases WantedCountries - |proposed| - i
  {
    if i >= WantedCountries - |proposed| {
    } else if i < |remaining| {
      var e := CountryEntry(remaining[i], Alternative, Varies, CountryCount(cat, remaining[i]));
      TopUpLength(proposed + [e], remaining, i + 1, cat);
    } else {
      TopUpLength(proposed, remaining, i + 1, cat);
    }
  }

  /** With `L < 5` countries kept and enough candidates left, the top-up adds
      ceil((5 - L) / 2) countries, not 5 - L: from an empty list it ends at three. */
  lemma TopUpAddsHalf(kept: seq<CountryEntry>, remaining: seq<string>, cat: Catalog)
    requires |kept| < WantedCountries
    requires |remaining| >= WantedCountries - |kept|
    requires forall k :: 0 <= k < |remaining| ==> remaining[k] != ""
    ensures |TopUp(kept, remaining, 0, cat)| == |kept| + (WantedCountries - |kept| + 1) / 2
    ensures |kept| == 0 ==> |TopUp(kept, remaining, 0, cat)| == 3
    ensures |kept| <= 2 ==> |TopUp(kept, remaining, 0, cat)| < WantedCountries
  {
    TopUpLength(kept, remaining, 0, cat);
  }

  /** The top-up appends only countries that are not proposed yet. */
  lemma RemainingIsNew(cat: Catalog, kept: seq<CountryEntry>)
    ensures forall k :: 0 <= k < |Remaining(cat, kept)| ==>
              Remaining(cat, kept)[k] in AvailableCountries(cat)
              && forall j :: 0 <= j < |kept| ==> kept[j].country != Remaining(cat, kept)[k]
  {
    var used := seq(|kept|, i requires 0 <= i < |kept| => kept[i].country);
    forall k, j | 0 <= k < |Remaining(cat, kept)| && 0 <= j < |kept|
      ensures kept[j].country != Remaining(cat, kept)[k]
    {
      assert used[j] == kept[j].country;
    }
  }

  /** With a non-empty store, every proposed country is one the store lists,
      and its count is the store's count of programs there. */
  lemma RecommendFromStore(cat: Catalog, course: string, calls: seq<CallOutcome<Option<seq<CountryPick>>>>,
                           preferredChoices: seq<nat>, otherChoices: seq<nat>)
    requires cat != []
    ensures forall i :: 0 <= i < |Recommend(cat, course, calls, preferredChoices, otherChoices)| ==>
              var e := Recommend(cat, course, calls, preferredChoices, otherChoices)[i];
              e.universitiesCount > 0 && e.universitiesCount == CountryCount(cat, e.country)
  {
    var kept := KeepListed(Selection(cat, course, calls, preferredChoices, otherChoices), cat);
    if |kept| < WantedCountries {
      TopUpCounted(cat, kept);
    }
  }

  /** Topping up entries that carry their store count yields entries that carry theirs. */
  lemma TopUpCounted(cat: Catalog, kept: seq<CountryEntry>)
    requires cat != []
    requires forall i :: 0 <= i < |kept| ==>
               kept[i].universitiesCount > 0 && kept[i].universitiesCount == CountryCount(cat, kept[i].country)
    ensures var r := TopUp(kept, Remaining(cat, kept), 0, cat);
            forall i :: 0 <= i < |r| ==> r[i].universitiesCount > 0 && r[i].universitiesCount == CountryCount(cat, r[i].country)
  {
    var rem := Remaining(cat, kept);
    var r := TopUp(kept, rem, 0, cat);
    forall i | |kept| <= i < |r|
      ensures r[i].universitiesCount > 0
    {
      assert r[i].country in rem;
      var k :| 0 <= k < |rem| && rem[k] == r[i].country;
      RemainingIsNew(cat, kept);
      CountPositiveIffListed(cat, r[i].country);
    }
    assert forall i :: 0 <= i < |kept| ==> r[i] == kept[i];
  }

  /** Every fallback pick is a country the store lists, so none is dropped. */
  lemma FallbackAllListed(cat: Catalog, picks: seq<Candidate>)
    requires cat != []
    requires forall i :: 0 <= i < |picks| ==> picks[i].country in AvailableCountries(cat)
    ensures forall j :: 0 <= j < |picks| ==> CountryCount(cat, picks[j].country) > 0
  {
    forall j | 0 <= j < |picks|
      ensures CountryCount(cat, picks[j].country) > 0
    {
      CountPositiveIffListed(cat, picks[j].country);
    }
  }

  /** With an unusable AI answer the selection is the fallback, of five
      countries the store lists. */
  lemma FallbackSelected(cat: Catalog, course: string, calls: seq<CallOutcome<Option<seq<CountryPick>>>>,
                         preferredChoices: seq<nat>, otherChoices: seq<nat>)
    requires !AiAnswerUsable(Retry(calls).reply)
    requires |DistinctCountries(cat)| >= WantedCountries
    ensures var s := Selection(cat, course, calls, preferredChoices, otherChoices);
            && |s| == WantedCountries
            && (forall j :: 0 <= j < |s| ==> CountryCount(cat, s[j].country) > 0)
            && (forall i :: 0 <= i < |s| ==> s[i].reason == PopularFor(course))
            && (forall i, j :: 0 <= i < j < |s| && IsTier1(s[j].country) ==> IsTier1(s[i].country))
            && Tier1Preferred(s, AvailableCountries(cat))
  {
    var picks := FallbackPicks(AvailableCountries(cat), course, preferredChoices, otherChoices);
    assert |DistinctCountries(cat)| > 0;
    assert cat != [];
    FallbackAllListed(cat, picks);
  }

  /** When the AI answer is unusable and the store lists at least five
      countries, the fallback alone yields five countries, tier-1 ones first,
      each with the generic reason. */
  lemma FallbackGivesFive(cat: Catalog, course: string, calls: seq<CallOutcome<Option<seq<CountryPick>>>>,
                          preferredChoices: seq<nat>, otherChoices: seq<nat>)
    requires !AiAnswerUsable(Retry(calls).reply)
    requires |DistinctCountries(cat)| >= WantedCountries
    ensures var r := Recommend(cat, course, calls, preferredChoices, otherChoices);
            && |r| == WantedCountries
            && (forall i :: 0 <= i < |r| ==> r[i].reason == PopularFor(course))
            && (forall i, j :: 0 <= i < j < |r| && IsTier1(r[j].country) ==> IsTier1(r[i].country))
            && Tier1Preferred(Candidates(r), AvailableCountries(cat))
  {
    var picks := Selection(cat, course, calls, preferredChoices, otherChoices);
    FallbackSelected(cat, course, calls, preferredChoices, otherChoices);
    var kept := KeepListed(picks, cat);
    assert Recommend(cat, course, calls, preferredChoices, otherChoices) == kept;
    KeptInOrder(picks, kept, AvailableCountries(cat), course);
  }

  /** Entries that match the candidates one for one keep their reasons and their tier order. */
  lemma KeptInOrder(picks: seq<Candidate>, kept: seq<CountryEntry>, available: seq<string>, course: string)
    requires |kept| == |picks| && forall i :: 0 <= i < |kept| ==> AsCandidate(kept[i]) == picks[i]
    requires forall i :: 0 <= i < |picks| ==> picks[i].reason == PopularFor(course)
    requires forall i, j :: 0 <= i < j < |picks| && IsTier1(picks[j].country) ==> IsTier1(picks[i].country)
    requires Tier1Preferred(picks, available)
    ensures forall i :: 0 <= i < |kept| ==> kept[i].reason == PopularFor(course)
    ensures forall i, j :: 0 <= i < j < |kept| && IsTier1(kept[j].country) ==> IsTier1(kept[i].country)
    ensures Tier1Preferred(Candidates(kept), available)
  {
    forall i | 0 <= i < |kept|
      ensures kept[i].reason == PopularFor(course)
    {
      assert AsCandidate(kept[i]) == picks[i];
    }
    forall i, j | 0 <= i < j < |kept| && IsTier1(kept[j].country)
      ensures IsTier1(kept[i].country)
    {
      assert AsCandidate(kept[i]) == picks[i];
      assert AsCandidate(kept[j]) == picks[j];
    }
    assert Candidates(kept) == picks;
  }
}
