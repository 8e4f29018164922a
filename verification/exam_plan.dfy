/** The deterministic half of `ensureExamPlan`: the skip conditions, the
    default plan used when the AI answer is unusable, the per-university
    normalisation that keeps the exam list realistic, and the aggregation of
    the required exams across universities. */
module ExamPlan {
  import opened Common
  import opened Text
  import opened Catalog
  import opened Profiles
  import opened Progress

  const DemoteNote := " (alternative option, not required if you take the main English test)."
  const AdvisoryNote := " (sometimes requested, but not typically required for this country/degree)."
  const AddedIeltsNote := "Typical English requirement; TOEFL is usually accepted as an alternative."
  const DefaultPlanNote := "Typical English requirement (TOEFL usually accepted as alternative)."

  /** The IELTS item appended to an entry that names no English test. */
  const AddedIelts: ExamItem := ExamItem("IELTS", Some(6.5), Some(true), AddedIeltsNote)

  /** An item's exam name, lower-cased: the key every rule compares. */
  function Key(e: ExamItem): string {
    Lower(e.exam)
  }

  predicate IsEnglish(key: string) {
    key == "ielts" || key == "toefl"
  }

  predicate IsUndergradOnly(key: string) {
    key == "sat" || key == "act"
  }

  predicate IsGraduate(key: string) {
    key == "gre" || key == "gmat"
  }

  /** The facts about the student and the university the rules depend on:
      the degree flags and whether the university's country is the US or Canada. */
  datatype Context = Context(isBachelors: bool, isMba: bool, usOrCanada: bool)

  /** `/united states|usa|u\.s\.a|canada/i`. */
  predicate UsOrCanada(country: string) {
    var c := Lower(country);
    Contains(c, "united states") || Contains(c, "usa") || Contains(c, "u.s.a") || Contains(c, "canada")
  }

  /** The degree flags, from the lower-cased intended degree (default "Masters"). */
  function DegreeFlags(profile: Option<Profile>): (bool, bool) {
    var intended := Lower(IntendedText(profile));
    (Contains(intended, "bachelor"), Contains(intended, "mba"))
  }

  /** The context of the plan entry for university `name`. */
  function ContextFor(unis: seq<University>, profile: Option<Profile>, name: string): Context {
    var flags := DegreeFlags(profile);
    Context(flags.0, flags.1, UsOrCanada(CountryOf(unis, name)))
  }

  /** The university's country for a plan entry: among the universities with a
      non-empty name equal to the entry's, the last one's country; "" when none. */
  function CountryOf(unis: seq<University>, name: string): (c: string)
    ensures c != "" ==> exists i :: 0 <= i < |unis| && unis[i].name == name && unis[i].country == c
    ensures name == "" ==> c == ""
  {
    if unis == [] then ""
    else
      var last := unis[|unis| - 1];
      if last.name != "" && last.name == name then last.country
      else
        var c := CountryOf(unis[..|unis| - 1], name);
        assert c != "" ==> exists i :: 0 <= i < |unis| - 1 && unis[i].name == name && unis[i].country == c;
        c
  }

  /** One item under the rules, given whether an English test was already
      kept as required for this entry; `None` when the item is dropped. */
  function NormalizeOne(e: ExamItem, englishSeen: bool, ctx: Context): (r: Option<ExamItem>)
    ensures r.Some? ==> ObeysRules(r.value, ctx) && r.value.exam == e.exam && r.value.minScore == e.minScore
    ensures r.Some? ==> (RequiredEnglish(r.value) <==> !englishSeen && IsEnglish(Key(e)))
    ensures IsEnglish(Key(e)) ==> r.Some?
    ensures r.None? <==> Dropped(e, ctx)
  {
    var key := Key(e);
    if key == "" then None
    else if IsEnglish(key) then
      if englishSeen then Some(e.(required := Some(false), notes := e.notes + DemoteNote))
      else Some(e.(required := Some(true)))
    else if IsUndergradOnly(key) && !ctx.isBachelors then None
    else if IsGraduate(key) then
      if !ctx.usOrCanada && !ctx.isMba
      then Some(e.(required := Some(false), notes := e.notes + AdvisoryNote))
      else Some(e.(required := Some(true)))
    else Some(e.(required := Some(false)))
  }

  /** `o` carries the exam name and minimum score of one of `items`. */
  predicate DerivedFrom(o: ExamItem, items: seq<ExamItem>) {
    exists k :: 0 <= k < |items| && o.exam == items[k].exam && o.minScore == items[k].minScore
  }

  /** Whether the item list names an English test. */
  predicate HasEnglish(items: seq<ExamItem>) {
    exists i :: 0 <= i < |items| && IsEnglish(Key(items[i]))
  }

  /** A required English test. */
  predicate RequiredEnglish(e: ExamItem) {
    IsEnglish(Key(e)) && e.required == Some(true)
  }

  /** What the rules promise of every normalised item, English tests aside:
      SAT/ACT only for a bachelor's and never required; GRE/GMAT required
      exactly for the US or Canada or an MBA; anything else optional. */
  predicate ObeysRules(e: ExamItem, ctx: Context) {
    var key := Key(e);
    && key != ""
    && e.required.Some?
    && (IsUndergradOnly(key) ==> ctx.isBachelors && e.required == Some(false))
    && (IsGraduate(key) ==> (e.required == Some(true) <==> ctx.usOrCanada || ctx.isMba))
    && (!IsEnglish(key) && !IsGraduate(key) ==> e.required == Some(false))
  }

  /** The `forEach` over an entry's items: each item normalised in turn, the
      dropped ones left out. */
  function Kept(items: seq<ExamItem>, englishSeen: bool, ctx: Context): (out: seq<ExamItem>)
    ensures |out| <= |items|
  {
    if items == [] then []
    else
      var rest := Kept(items[1..], englishSeen || IsEnglish(Key(items[0])), ctx);
      match NormalizeOne(items[0], englishSeen, ctx)
      case None => rest
      case Some(n) => [n] + rest
  }

  /** Every item of `out` obeys the rules and carries the name and score of one of `items`. */
  predicate ObeyingItemsOf(out: seq<ExamItem>, items: seq<ExamItem>, ctx: Context) {
    forall i :: 0 <= i < |out| ==> ObeysRules(out[i], ctx) && DerivedFrom(out[i], items)
  }

  /** Each kept item is an input item with only `required` and `notes`
      changed, and obeys the rules. */
  lemma {:induction false} KeptObeysRules(items: seq<ExamItem>, englishSeen: bool, ctx: Context)
    ensures ObeyingItemsOf(Kept(items, englishSeen, ctx), items, ctx)
  {
    if items != [] {
      var e := items[0];
      var seen := englishSeen || IsEnglish(Key(e));
      KeptObeysRules(items[1..], seen, ctx);
      var rest := Kept(items[1..], seen, ctx);
      var out := Kept(items, englishSeen, ctx);
      assert ObeyingItemsOf(rest, items[1..], ctx);
      forall i | 0 <= i < |rest|
        ensures ObeysRules(rest[i], ctx) && DerivedFrom(rest[i], items)
      {
        var k :| 0 <= k < |items[1..]| && rest[i].exam == items[1..][k].exam && rest[i].minScore == items[1..][k].minScore;
        assert items[1..][k] == items[k + 1];
      }
      match NormalizeOne(e, englishSeen, ctx)
      case None =>
        assert out == rest;
      case Some(n) =>
        assert out == [n] + rest;
        assert DerivedFrom(n, items) by {
          assert n.exam == items[0].exam && n.minScore == items[0].minScore;
        }
        forall i | 0 <= i < |out|
          ensures ObeysRules(out[i], ctx) && DerivedFrom(out[i], items)
        {
          if i > 0 {
            assert out[i] == rest[i - 1];
          }
        }
    }
  }

  /** Once an English test was seen, no kept English test is required. */
  lemma {:induction false} KeptNoneAfterSeen(items: seq<ExamItem>, ctx: Context)
    ensures !SomeRequiredEnglish(Kept(items, true, ctx))
  {
    if items != [] {
      KeptNoneAfterSeen(items[1..], ctx);
      var rest := Kept(items[1..], true, ctx);
      match NormalizeOne(items[0], true, ctx)
      case None =>
        assert Kept(items, true, ctx) == rest;
      case Some(n) =>
        var out := Kept(items, true, ctx);
        assert out == [n] + rest;
        forall i | 0 <= i < |out|
          ensures !RequiredEnglish(out[i])
        {
          if i > 0 {
            assert out[i] == rest[i - 1];
          }
        }
    }
  }

  /** No two items are required English tests. */
  predicate AtMostOneRequiredEnglish(out: seq<ExamItem>) {
    forall i, j :: 0 <= i < j < |out| && RequiredEnglish(out[i]) ==> !RequiredEnglish(out[j])
  }

  /** At most one kept English test is required. */
  lemma {:induction false} KeptAtMostOne(items: seq<ExamItem>, englishSeen: bool, ctx: Context)
    ensures AtMostOneRequiredEnglish(Kept(items, englishSeen, ctx))
  {
    if items != [] {
      var e := items[0];
      var seen := englishSeen || IsEnglish(Key(e));
      KeptAtMostOne(items[1..], seen, ctx);
      var rest := Kept(items[1..], seen, ctx);
      match NormalizeOne(e, englishSeen, ctx)
      case None =>
        assert Kept(items, englishSeen, ctx) == rest;
      case Some(n) =>
        var out := Kept(items, englishSeen, ctx);
        assert out == [n] + rest;
        if RequiredEnglish(n) {
          KeptNoneAfterSeen(items[1..], ctx);
        }
        forall i, j | 0 <= i < j < |out| && RequiredEnglish(out[i])
          ensures !RequiredEnglish(out[j])
        {
          assert out[j] == rest[j - 1];
          if i > 0 {
            assert out[i] == rest[i - 1];
          } else {
            assert !RequiredEnglish(rest[j - 1]);
          }
        }
    }
  }

  /** Some item is a required English test. */
  predicate SomeRequiredEnglish(out: seq<ExamItem>) {
    exists i :: 0 <= i < |out| && RequiredEnglish(out[i])
  }

  /** With no English test seen yet, a list that names one keeps one as required. */
  lemma {:induction false} KeptAtLeastOne(items: seq<ExamItem>, ctx: Context)
    requires HasEnglish(items)
    ensures SomeRequiredEnglish(Kept(items, false, ctx))
  {
    var e := items[0];
    var out := Kept(items, false, ctx);
    if IsEnglish(Key(e)) {
      var n := NormalizeOne(e, false, ctx).value;
      assert out == [n] + Kept(items[1..], true, ctx);
      assert RequiredEnglish(out[0]);
    } else {
      assert HasEnglish(items[1..]) by {
        var k :| 0 <= k < |items| && IsEnglish(Key(items[k]));
        assert items[1..][k - 1] == items[k];
      }
      KeptAtLeastOne(items[1..], ctx);
      var rest := Kept(items[1..], false, ctx);
      var i :| 0 <= i < |rest| && RequiredEnglish(rest[i]);
      match NormalizeOne(e, false, ctx)
      case None =>
        assert out == rest;
      case Some(n) =>
        assert out == [n] + rest;
        assert out[i + 1] == rest[i];
    }
  }

  /** One normalised plan entry: the kept items, plus IELTS 6.5 when the entry
      names no English test. The university name is kept. */
  function NormalizeEntry(entry: UniPlan, ctx: Context): (r: UniPlan)
    ensures r.universityName == entry.universityName
    ensures forall i :: 0 <= i < |r.exams| ==> ObeysRules(r.exams[i], ctx)
    ensures forall i :: 0 <= i < |r.exams| ==> r.exams[i] == AddedIelts || DerivedFrom(r.exams[i], entry.exams)
  {
    var out := Kept(entry.exams, false, ctx);
    KeptObeysRules(entry.exams, false, ctx);
    if HasEnglish(entry.exams) then entry.(exams := out)
    else
      AddedIeltsObeys(ctx);
      AppendOne(out, AddedIelts);
      entry.(exams := out + [AddedIelts])
  }

  /** The added IELTS item is a required English test under every context. */
  lemma AddedIeltsObeys(ctx: Context)
    ensures Key(AddedIelts) == "ielts"
    ensures ObeysRules(AddedIelts, ctx) && RequiredEnglish(AddedIelts)
  {
    assert Lower("S") == "s";
    assert Lower("TS") == "ts";
    assert Lower("LTS") == "lts";
    assert Lower("ELTS") == "elts";
    assert Lower("IELTS") == "ielts";
  }

  /** The positions of `xs + [x]`: those of `xs`, then `x`. */
  lemma AppendOne<T>(xs: seq<T>, x: T)
    ensures |xs + [x]| == |xs| + 1 && (xs + [x])[|xs|] == x
    ensures forall i :: 0 <= i < |xs| ==> (xs + [x])[i] == xs[i]
  {
  }

  /** Every normalised entry has exactly one required English test. */
  lemma ExactlyOneEnglish(entry: UniPlan, ctx: Context)
    ensures var r := NormalizeEntry(entry, ctx);
            && (exists i :: 0 <= i < |r.exams| && RequiredEnglish(r.exams[i]))
            && (forall i, j :: 0 <= i < |r.exams| && 0 <= j < |r.exams| && RequiredEnglish(r.exams[i]) && RequiredEnglish(r.exams[j]) ==> i == j)
  {
    var out := Kept(entry.exams, false, ctx);
    KeptObeysRules(entry.exams, false, ctx);
    KeptAtMostOne(entry.exams, false, ctx);
    if HasEnglish(entry.exams) {
      KeptAtLeastOne(entry.exams, ctx);
    }
    var r := NormalizeEntry(entry, ctx);
    AddedIeltsObeys(ctx);
    if !HasEnglish(entry.exams) {
      forall i | 0 <= i < |out|
        ensures !IsEnglish(Key(out[i]))
      {
        var k :| 0 <= k < |entry.exams| && out[i].exam == entry.exams[k].exam;
        assert Key(out[i]) == Key(entry.exams[k]);
      }
      assert RequiredEnglish(r.exams[|out|]);
    }
  }

  /** Every exam item of the plan, entry by entry. */
  function AllItems(plan: seq<UniPlan>): (r: seq<ExamItem>)
    ensures forall k :: 0 <= k < |r| ==> exists p :: 0 <= p < |plan| && r[k] in plan[p].exams
    ensures forall p, k :: 0 <= p < |plan| && 0 <= k < |plan[p].exams| ==> plan[p].exams[k] in r
  {
    if plan == [] then []
    else
      var rest := AllItems(plan[1..]);
      assert forall p :: 1 <= p < |plan| ==> plan[p] == plan[1..][p - 1];
      plan[0].exams + rest
  }

  /** An item that takes part in the aggregation: it has a name and is not
      marked `required: false`. */
  predicate Counted(e: ExamItem) {
    Key(e) != "" && e.required != Some(false)
  }

  /** An aggregated exam's lower-cased name. */
  function RKey(x: RequiredExam): string {
    Lower(x.exam)
  }

  /** `minScore || null`. */
  function Norm(m: Option<real>): (r: Option<real>)
    ensures r.Some? ==> Truthy(r) && r == m
    ensures Truthy(m) ==> r == m
  {
    if Truthy(m) then m else None
  }

  /** The position of the aggregated exam with a given key, if any. */
  function KeyIndex(acc: seq<RequiredExam>, key: string): (r: Option<nat>)
    ensures r.Some? ==> r.value < |acc| && RKey(acc[r.value]) == key
    ensures r.None? ==> forall i :: 0 <= i < |acc| ==> RKey(acc[i]) != key
  {
    if acc == [] then None
    else if RKey(acc[0]) == key then Some(0)
    else
      match KeyIndex(acc[1..], key)
      case None => None
      case Some(i) => Some(i + 1)
  }

  /** No two aggregated exams share a lower-cased name. */
  predicate DistinctKeys(acc: seq<RequiredExam>) {
    forall i, j :: 0 <= i < j < |acc| ==> RKey(acc[i]) != RKey(acc[j])
  }

  /** One step of the aggregation: a new name is appended with `minScore || null`;
      a known one takes the new score when it is truthy and the stored one is
      missing or lower. */
  function AddItem(acc: seq<RequiredExam>, e: ExamItem): (r: seq<RequiredExam>)
    requires DistinctKeys(acc)
    ensures DistinctKeys(r)
  {
    if !Counted(e) then acc
    else
      match KeyIndex(acc, Key(e))
      case None => acc + [RequiredExam(e.exam, Norm(e.minScore))]
      case Some(i) =>
        if Truthy(e.minScore) && (!Truthy(acc[i].minScore) || e.minScore.value > acc[i].minScore.value)
        then acc[i := acc[i].(minScore := e.minScore)]
        else acc
  }

  /** The aggregation over all items, in order (the `requiredMap` loop). */
  function Aggregate(items: seq<ExamItem>): (r: seq<RequiredExam>)
    ensures DistinctKeys(r)
    decreases |items|
  {
    if items == [] then [] else AddItem(Aggregate(items[..|items| - 1]), items[|items| - 1])
  }

  /** Some counted item has the lower-cased name of `x`. */
  predicate Justified(x: RequiredExam, items: seq<ExamItem>) {
    exists k :: 0 <= k < |items| && Counted(items[k]) && Key(items[k]) == RKey(x)
  }

  /** The aggregated names are exactly the names of the counted items. */
  predicate KeysExact(r: seq<RequiredExam>, items: seq<ExamItem>) {
    && (forall k :: 0 <= k < |items| && Counted(items[k]) ==> KeyIndex(r, Key(items[k])).Some?)
    && (forall i :: 0 <= i < |r| ==> Justified(r[i], items))
  }

  /** A name justified by some items stays justified when more items follow. */
  lemma JustifiedGrows(x: RequiredExam, init: seq<ExamItem>, e: ExamItem)
    requires Justified(x, init)
    ensures Justified(x, init + [e])
  {
    var k :| 0 <= k < |init| && Counted(init[k]) && Key(init[k]) == RKey(x);
    assert (init + [e])[k] == init[k];
  }

  /** Aggregation keeps one entry for each lower-cased name of a counted item, and no other. */
  lemma {:induction false} AggregateKeys(items: seq<ExamItem>)
    ensures KeysExact(Aggregate(items), items)
    decreases |items|
  {
    if items != [] {
      var n := |items| - 1;
      AggregateKeys(items[..n]);
      assert items == items[..n] + [items[n]];
      AddKeepsKeys(Aggregate(items[..n]), items[..n], items[n]);
    }
  }

  /** One aggregation step keeps `KeysExact`. */
  lemma AddKeepsKeys(acc: seq<RequiredExam>, init: seq<ExamItem>, e: ExamItem)
    requires DistinctKeys(acc) && KeysExact(acc, init)
    ensures KeysExact(AddItem(acc, e), init + [e])
  {
    var items := init + [e];
    var r := AddItem(acc, e);
    forall k | 0 <= k < |init| && Counted(items[k])
      ensures KeyIndex(acc, Key(items[k])).Some?
    {
      assert items[k] == init[k];
    }
    if !Counted(e) {
      assert r == acc;
    } else if KeyIndex(acc, Key(e)).None? {
      assert r == acc + [RequiredExam(e.exam, Norm(e.minScore))];
      KeyIndexAppend(acc, RequiredExam(e.exam, Norm(e.minScore)));
      assert Justified(r[|acc|], items) by {
        assert items[|init|] == e;
      }
    } else {
      KnownSameKeys(acc, e);
    }
    forall i | 0 <= i < |r| && i < |acc| && RKey(r[i]) == RKey(acc[i])
      ensures Justified(r[i], items)
    {
      JustifiedGrows(acc[i], init, e);
    }
    forall k | 0 <= k < |items| && Counted(items[k])
      ensures KeyIndex(r, Key(items[k])).Some?
    {
      var i := if k < |init| then KeyIndex(acc, Key(items[k])).value else |acc|;
      if k < |init| || KeyIndex(acc, Key(e)).Some? {
        if k == |init| {
          i := KeyIndex(acc, Key(e)).value;
        }
        KeyIndexFound(r, i, Key(items[k]));
      } else {
        KeyIndexFound(r, |acc|, Key(items[k]));
      }
    }
  }

  /** A key at some position is found by `KeyIndex`. */
  lemma {:induction false} KeyIndexFound(r: seq<RequiredExam>, i: int, key: string)
    requires 0 <= i < |r| && RKey(r[i]) == key
    ensures KeyIndex(r, key).Some?
  {
    if i > 0 && RKey(r[0]) != key {
      KeyIndexFound(r[1..], i - 1, key);
    }
  }

  /** Appending keeps the earlier positions. */
  lemma KeyIndexAppend(acc: seq<RequiredExam>, x: RequiredExam)
    ensures |acc + [x]| == |acc| + 1 && (acc + [x])[|acc|] == x
    ensures forall i :: 0 <= i < |acc| ==> (acc + [x])[i] == acc[i]
  {
  }

  /** Raising a known exam's score keeps every name in place. */
  lemma KnownSameKeys(acc: seq<RequiredExam>, e: ExamItem)
    requires DistinctKeys(acc) && Counted(e) && KeyIndex(acc, Key(e)).Some?
    ensures |AddItem(acc, e)| == |acc|
    ensures forall i :: 0 <= i < |acc| ==> AddItem(acc, e)[i].exam == acc[i].exam
  {
  }

  /** Each aggregated score is the largest truthy score among the counted items
      of that name, and `None` when none of them has a truthy score. */
  predicate ScoresExact(r: seq<RequiredExam>, items: seq<ExamItem>) {
    && (forall i, k :: 0 <= i < |r| && 0 <= k < |items| && Counted(items[k]) && Key(items[k]) == RKey(r[i])
                       && Truthy(items[k].minScore) ==>
                         Truthy(r[i].minScore) && items[k].minScore.value <= r[i].minScore.value)
    && (forall i :: 0 <= i < |r| && r[i].minScore.Some? ==>
          Truthy(r[i].minScore) && ScoreWitness(r[i], items))
  }

  /** Some counted item of the same name carries exactly this score. */
  predicate ScoreWitness(x: RequiredExam, items: seq<ExamItem>) {
    exists k :: 0 <= k < |items| && Counted(items[k]) && Key(items[k]) == RKey(x) && items[k].minScore == x.minScore
  }

  /** Aggregation keeps the maximum truthy score of each name. */
  lemma {:induction false} AggregateScores(items: seq<ExamItem>)
    ensures ScoresExact(Aggregate(items), items)
    decreases |items|
  {
    if items != [] {
      var n := |items| - 1;
      AggregateScores(items[..n]);
      AggregateKeys(items[..n]);
      assert items == items[..n] + [items[n]];
      var acc := Aggregate(items[..n]);
      if !Counted(items[n]) {
        AddSkippedScores(acc, items[..n], items[n]);
      } else if KeyIndex(acc, Key(items[n])).None? {
        AddNewScores(acc, items[..n], items[n]);
      } else {
        AddKnownScores(acc, items[..n], items[n]);
      }
    }
  }

  lemma AddSkippedScores(acc: seq<RequiredExam>, init: seq<ExamItem>, e: ExamItem)
    requires DistinctKeys(acc) && ScoresExact(acc, init)
    requires !Counted(e)
    ensures ScoresExact(AddItem(acc, e), init + [e])
  {
    var items := init + [e];
    assert AddItem(acc, e) == acc;
    forall i | 0 <= i < |acc| && acc[i].minScore.Some?
      ensures ScoreWitness(acc[i], items)
    {
      var k :| 0 <= k < |init| && Counted(init[k]) && Key(init[k]) == RKey(acc[i]) && init[k].minScore == acc[i].minScore;
      assert items[k] == init[k];
    }
    forall i, k | 0 <= i < |acc| && 0 <= k < |items| && Counted(items[k]) && Key(items[k]) == RKey(acc[i])
                  && Truthy(items[k].minScore)
      ensures Truthy(acc[i].minScore) && items[k].minScore.value <= acc[i].minScore.value
    {
      assert k < |init|;
      assert items[k] == init[k];
    }
  }

  lemma AddNewScores(acc: seq<RequiredExam>, init: seq<ExamItem>, e: ExamItem)
    requires DistinctKeys(acc) && ScoresExact(acc, init) && KeysExact(acc, init)
    requires Counted(e) && KeyIndex(acc, Key(e)).None?
    ensures ScoresExact(AddItem(acc, e), init + [e])
  {
    var items := init + [e];
    var x := RequiredExam(e.exam, Norm(e.minScore));
    var r := acc + [x];
    assert AddItem(acc, e) == r;
    assert RKey(x) == Key(e);
    forall i | 0 <= i < |r| && r[i].minScore.Some?
      ensures ScoreWitness(r[i], items)
    {
      if i < |acc| {
        var k :| 0 <= k < |init| && Counted(init[k]) && Key(init[k]) == RKey(acc[i]) && init[k].minScore == acc[i].minScore;
        assert items[k] == init[k];
      } else {
        assert items[|init|] == e;
      }
    }
    forall i, k | 0 <= i < |r| && 0 <= k < |items| && Counted(items[k]) && Key(items[k]) == RKey(r[i])
                  && Truthy(items[k].minScore)
      ensures Truthy(r[i].minScore) && items[k].minScore.value <= r[i].minScore.value
    {
      if k < |init| {
        assert items[k] == init[k];
      }
    }
  }

  lemma AddKnownScores(acc: seq<RequiredExam>, init: seq<ExamItem>, e: ExamItem)
    requires DistinctKeys(acc) && ScoresExact(acc, init)
    requires Counted(e) && KeyIndex(acc, Key(e)).Some?
    ensures ScoresExact(AddItem(acc, e), init + [e])
  {
    var items := init + [e];
    var j := KeyIndex(acc, Key(e)).value;
    var r := AddItem(acc, e);
    var raise := Truthy(e.minScore) && (!Truthy(acc[j].minScore) || e.minScore.value > acc[j].minScore.value);
    assert r == if raise then acc[j := acc[j].(minScore := e.minScore)] else acc;
    assert forall i :: 0 <= i < |r| ==> RKey(r[i]) == RKey(acc[i]);
    forall i | 0 <= i < |r| && r[i].minScore.Some?
      ensures ScoreWitness(r[i], items)
    {
      if i == j && raise {
        assert items[|init|] == e;
      } else {
        assert r[i] == acc[i];
        var k :| 0 <= k < |init| && Counted(init[k]) && Key(init[k]) == RKey(acc[i]) && init[k].minScore == acc[i].minScore;
        assert items[k] == init[k];
      }
    }
    forall i, k | 0 <= i < |r| && 0 <= k < |items| && Counted(items[k]) && Key(items[k]) == RKey(r[i])
                  && Truthy(items[k].minScore)
      ensures Truthy(r[i].minScore) && items[k].minScore.value <= r[i].minScore.value
    {
      if k < |init| {
        assert items[k] == init[k];
      }
    }
  }

  /** `x` is named as the first counted item of its lower-cased name. */
  predicate FirstName(x: RequiredExam, items: seq<ExamItem>) {
    exists k :: 0 <= k < |items| && Counted(items[k]) && items[k].exam == x.exam && NoEarlier(items, k, RKey(x))
  }

  /** No counted item before position `k` has name `key`. */
  predicate NoEarlier(items: seq<ExamItem>, k: int, key: string)
    requires 0 <= k <= |items|
  {
    forall k' :: 0 <= k' < k && Counted(items[k']) ==> Key(items[k']) != key
  }

  /** Some counted item before position `k` has the name of `x`. */
  predicate Precedes(x: RequiredExam, items: seq<ExamItem>, k: int) {
    exists k' :: 0 <= k' < k && k' < |items| && Counted(items[k']) && Key(items[k']) == RKey(x)
  }

  /** The aggregated exams come in first-seen order: each takes the spelling
      of the first counted item of its name, and every item named like a later
      entry is preceded by an item named like each earlier entry. */
  predicate FirstSeenOrder(r: seq<RequiredExam>, items: seq<ExamItem>) {
    && (forall i :: 0 <= i < |r| ==> FirstName(r[i], items))
    && (forall i, j, k :: 0 <= i < j < |r| && 0 <= k < |items| && Counted(items[k]) && Key(items[k]) == RKey(r[j]) ==>
          Precedes(r[i], items, k))
  }

  lemma {:induction false} AggregateOrder(items: seq<ExamItem>)
    ensures FirstSeenOrder(Aggregate(items), items)
    decreases |items|
  {
    if items != [] {
      var n := |items| - 1;
      AggregateOrder(items[..n]);
      AggregateKeys(items[..n]);
      assert items == items[..n] + [items[n]];
      var acc := Aggregate(items[..n]);
      if !Counted(items[n]) {
        AddSkippedOrder(acc, items[..n], items[n]);
      } else if KeyIndex(acc, Key(items[n])).None? {
        AddNewOrder(acc, items[..n], items[n]);
      } else {
        AddKnownOrder(acc, items[..n], items[n]);
      }
    }
  }

  /** Facts about earlier positions carry over to a longer input. */
  lemma OrderCarries(acc: seq<RequiredExam>, init: seq<ExamItem>, e: ExamItem)
    requires FirstSeenOrder(acc, init)
    ensures forall i :: 0 <= i < |acc| ==> FirstName(acc[i], init + [e])
    ensures forall i, j, k :: 0 <= i < j < |acc| && 0 <= k < |init| && Counted(init[k]) && Key(init[k]) == RKey(acc[j]) ==>
              Precedes(acc[i], init + [e], k)
  {
    var items := init + [e];
    forall i | 0 <= i < |acc|
      ensures FirstName(acc[i], items)
    {
      assert FirstName(acc[i], init);
      var k :| 0 <= k < |init| && Counted(init[k]) && init[k].exam == acc[i].exam && NoEarlier(init, k, RKey(acc[i]));
      assert items[k] == init[k];
      assert forall k' :: 0 <= k' < k ==> items[k'] == init[k'];
    }
    forall i, j, k | 0 <= i < j < |acc| && 0 <= k < |init| && Counted(init[k]) && Key(init[k]) == RKey(acc[j])
      ensures Precedes(acc[i], items, k)
    {
      assert Precedes(acc[i], init, k);
      var k' :| 0 <= k' < k && k' < |init| && Counted(init[k']) && Key(init[k']) == RKey(acc[i]);
      assert items[k'] == init[k'];
    }
  }

  lemma AddSkippedOrder(acc: seq<RequiredExam>, init: seq<ExamItem>, e: ExamItem)
    requires DistinctKeys(acc) && FirstSeenOrder(acc, init)
    requires !Counted(e)
    ensures FirstSeenOrder(AddItem(acc, e), init + [e])
  {
    var items := init + [e];
    assert AddItem(acc, e) == acc;
    OrderCarries(acc, init, e);
    forall i, j, k | 0 <= i < j < |acc| && 0 <= k < |items| && Counted(items[k]) && Key(items[k]) == RKey(acc[j])
      ensures Precedes(acc[i], items, k)
    {
      assert items[k] == init[k];
    }
  }

  lemma AddNewOrder(acc: seq<RequiredExam>, init: seq<ExamItem>, e: ExamItem)
    requires DistinctKeys(acc) && FirstSeenOrder(acc, init) && KeysExact(acc, init)
    requires Counted(e) && KeyIndex(acc, Key(e)).None?
    ensures FirstSeenOrder(AddItem(acc, e), init + [e])
  {
    var items := init + [e];
    var x := RequiredExam(e.exam, Norm(e.minScore));
    var r := acc + [x];
    assert AddItem(acc, e) == r;
    OrderCarries(acc, init, e);
    NewIsFirst(acc, init, e);
    forall i | 0 <= i < |r|
      ensures FirstName(r[i], items)
    {
      if i < |acc| {
        assert r[i] == acc[i];
      } else {
        assert r[i] == x;
      }
    }
    NewPrecedes(acc, init, e);
  }

  lemma NewIsFirst(acc: seq<RequiredExam>, init: seq<ExamItem>, e: ExamItem)
    requires KeysExact(acc, init)
    requires Counted(e) && KeyIndex(acc, Key(e)).None?
    ensures FirstName(RequiredExam(e.exam, Norm(e.minScore)), init + [e])
  {
    var items := init + [e];
    var x := RequiredExam(e.exam, Norm(e.minScore));
    forall k' | 0 <= k' < |init| && Counted(items[k'])
      ensures Key(items[k']) != RKey(x)
    {
      assert items[k'] == init[k'];
    }
    assert items[|init|] == e;
    assert NoEarlier(items, |init|, RKey(x));
  }

  lemma NewPrecedes(acc: seq<RequiredExam>, init: seq<ExamItem>, e: ExamItem)
    requires KeysExact(acc, init)
    requires Counted(e) && KeyIndex(acc, Key(e)).None?
    requires forall i, j, k :: 0 <= i < j < |acc| && 0 <= k < |init| && Counted(init[k]) && Key(init[k]) == RKey(acc[j]) ==>
               Precedes(acc[i], init + [e], k)
    ensures var r := acc + [RequiredExam(e.exam, Norm(e.minScore))];
            forall i, j, k :: 0 <= i < j < |r| && 0 <= k < |init + [e]| && Counted((init + [e])[k]) && Key((init + [e])[k]) == RKey(r[j]) ==>
              Precedes(r[i], init + [e], k)
  {
    var items := init + [e];
    var r := acc + [RequiredExam(e.exam, Norm(e.minScore))];
    assert RKey(r[|acc|]) == Key(e);
    forall i, j, k | 0 <= i < j < |r| && 0 <= k < |items| && Counted(items[k]) && Key(items[k]) == RKey(r[j])
      ensures Precedes(r[i], items, k)
    {
      assert r[i] == acc[i];
      if k < |init| {
        assert items[k] == init[k];
        if j < |acc| {
          assert r[j] == acc[j];
        }
      } else {
        var k' :| 0 <= k' < |init| && Counted(init[k']) && Key(init[k']) == RKey(acc[i]);
        assert items[k'] == init[k'];
      }
    }
  }

  lemma AddKnownOrder(acc: seq<RequiredExam>, init: seq<ExamItem>, e: ExamItem)
    requires DistinctKeys(acc) && FirstSeenOrder(acc, init) && KeysExact(acc, init)
    requires Counted(e) && KeyIndex(acc, Key(e)).Some?
    ensures FirstSeenOrder(AddItem(acc, e), init + [e])
  {
    var items := init + [e];
    var r := AddItem(acc, e);
    KnownSameKeys(acc, e);
    OrderCarries(acc, init, e);
    forall i | 0 <= i < |r|
      ensures FirstName(r[i], items)
    {
      assert FirstName(acc[i], items);
      assert RKey(r[i]) == RKey(acc[i]);
    }
    KnownPrecedes(acc, init, e, r);
  }

  lemma KnownPrecedes(acc: seq<RequiredExam>, init: seq<ExamItem>, e: ExamItem, r: seq<RequiredExam>)
    requires KeysExact(acc, init)
    requires |r| == |acc| && forall i :: 0 <= i < |r| ==> r[i].exam == acc[i].exam
    requires forall i, j, k :: 0 <= i < j < |acc| && 0 <= k < |init| && Counted(init[k]) && Key(init[k]) == RKey(acc[j]) ==>
               Precedes(acc[i], init + [e], k)
    ensures forall i, j, k :: 0 <= i < j < |r| && 0 <= k < |init + [e]| && Counted((init + [e])[k]) && Key((init + [e])[k]) == RKey(r[j]) ==>
              Precedes(r[i], init + [e], k)
  {
    var items := init + [e];
    forall i, j, k | 0 <= i < j < |r| && 0 <= k < |items| && Counted(items[k]) && Key(items[k]) == RKey(r[j])
      ensures Precedes(r[i], items, k)
    {
      assert RKey(r[i]) == RKey(acc[i]) && RKey(r[j]) == RKey(acc[j]);
      if k < |init| {
        assert items[k] == init[k];
      } else {
        var k' :| 0 <= k' < |init| && Counted(init[k']) && Key(init[k']) == RKey(acc[i]);
        assert items[k'] == init[k'];
      }
    }
  }

  /** The plan used when the AI answer is unusable: IELTS 6.5, required, for every university. */
  function DefaultPlan(unis: seq<University>): (r: seq<UniPlan>)
    ensures |r| == |unis|
    ensures forall i :: 0 <= i < |r| ==> r[i] == UniPlan(unis[i].name, [ExamItem("IELTS", Some(6.5), Some(true), DefaultPlanNote)])
  {
    seq(|unis|, i requires 0 <= i < |unis| => UniPlan(unis[i].name, [ExamItem("IELTS", Some(6.5), Some(true), DefaultPlanNote)]))
  }

  /** The normalised plan: the AI's (when it is a non-empty array) or the
      default, each entry normalised for its university's country. */
  function PlanFor(unis: seq<University>, profile: Option<Profile>, reply: Option<seq<UniPlan>>): (r: seq<UniPlan>)
    ensures |r| == (if reply.Some? && |reply.value| > 0 then |reply.value| else |unis|)
    ensures forall i :: 0 <= i < |r| ==>
              forall k :: 0 <= k < |r[i].exams| ==> ObeysRules(r[i].exams[k], ContextFor(unis, profile, r[i].universityName))
    ensures reply.Some? && |reply.value| > 0 ==>
              forall i :: 0 <= i < |r| ==>
                r[i].universityName == reply.value[i].universityName
                && r[i] == NormalizeEntry(reply.value[i], ContextFor(unis, profile, r[i].universityName))
    ensures !(reply.Some? && |reply.value| > 0) ==>
              forall i :: 0 <= i < |r| ==>
                r[i].universityName == unis[i].name
                && r[i] == NormalizeEntry(DefaultPlan(unis)[i], ContextFor(unis, profile, unis[i].name))
  {
    var raw := if reply.Some? && |reply.value| > 0 then reply.value else DefaultPlan(unis);
    seq(|raw|, i requires 0 <= i < |raw| => NormalizeEntry(raw[i], ContextFor(unis, profile, raw[i].universityName)))
  }

  /** `ensureExamPlan`: generates only when universities are frozen, no plan
      exists yet and some frozen id names a catalog record; writes only the
      plan and the aggregated required exams. */
  function EnsureExamPlan(rec: Record, cat: Catalog, profile: Option<Profile>, reply: Option<seq<UniPlan>>): (r: Record)
    ensures r == rec.(task2 := rec.task2.(requiredExamsPlan := r.task2.requiredExamsPlan,
                                          requiredExams := r.task2.requiredExams))
  {
    if |rec.task1.universityIds| == 0 || |rec.task2.requiredExamsPlan| > 0 then rec
    else
      var unis := WithIds(cat, rec.task1.universityIds);
      if unis == [] then rec
      else
        var plan := PlanFor(unis, profile, reply);
        rec.(task2 := rec.task2.(requiredExamsPlan := plan, requiredExams := Aggregate(AllItems(plan))))
  }

  /** Every normalised plan names a required English test, so a generated
      plan always gates on one: some aggregated exam is IELTS or TOEFL. */
  lemma GeneratedPlanNeedsEnglish(rec: Record, cat: Catalog, profile: Option<Profile>, reply: Option<seq<UniPlan>>)
    requires |rec.task1.universityIds| > 0 && |rec.task2.requiredExamsPlan| == 0
    requires WithIds(cat, rec.task1.universityIds) != []
    ensures var r := EnsureExamPlan(rec, cat, profile, reply);
            && |r.task2.requiredExamsPlan| > 0
            && exists i :: 0 <= i < |r.task2.requiredExams| && IsEnglish(RKey(r.task2.requiredExams[i]))
  {
    var unis := WithIds(cat, rec.task1.universityIds);
    var plan := PlanFor(unis, profile, reply);
    assert EnsureExamPlan(rec, cat, profile, reply).task2
           == rec.task2.(requiredExamsPlan := plan, requiredExams := Aggregate(AllItems(plan)));
    PlanNeedsEnglish(plan, unis, profile, reply);
  }

  /** The aggregation of a generated plan names an English test. */
  lemma PlanNeedsEnglish(plan: seq<UniPlan>, unis: seq<University>, profile: Option<Profile>, reply: Option<seq<UniPlan>>)
    requires unis != [] && plan == PlanFor(unis, profile, reply)
    ensures |plan| > 0
    ensures exists i :: 0 <= i < |Aggregate(AllItems(plan))| && IsEnglish(RKey(Aggregate(AllItems(plan))[i]))
  {
    FirstEntryNeedsEnglish(unis, profile, reply);
    var k :| 0 <= k < |plan[0].exams| && RequiredEnglish(plan[0].exams[k]);
    assert AllItems(plan)[k] == plan[0].exams[k];
    AggregateKeepsEnglish(AllItems(plan), k);
  }

  /** The first normalised entry of a plan names a required English test. */
  lemma FirstEntryNeedsEnglish(unis: seq<University>, profile: Option<Profile>, reply: Option<seq<UniPlan>>)
    requires unis != []
    ensures var plan := PlanFor(unis, profile, reply);
            |plan| > 0 && exists k :: 0 <= k < |plan[0].exams| && RequiredEnglish(plan[0].exams[k])
  {
    var raw := if reply.Some? && |reply.value| > 0 then reply.value else DefaultPlan(unis);
    var ctx := ContextFor(unis, profile, raw[0].universityName);
    assert PlanFor(unis, profile, reply)[0] == NormalizeEntry(raw[0], ctx);
    ExactlyOneEnglish(raw[0], ctx);
  }

  /** A required English test among the items leaves an English name in the aggregation. */
  lemma AggregateKeepsEnglish(items: seq<ExamItem>, m: int)
    requires 0 <= m < |items| && RequiredEnglish(items[m])
    ensures exists i :: 0 <= i < |Aggregate(items)| && IsEnglish(RKey(Aggregate(items)[i]))
  {
    assert Counted(items[m]);
    AggregateKeys(items);
    var agg := Aggregate(items);
    var i := KeyIndex(agg, Key(items[m])).value;
    assert IsEnglish(RKey(agg[i]));
  }

  /** Two universities asking IELTS 6.5 and 7.0 give one IELTS entry at 7.0. */
  lemma IeltsKeepsMaximum()
    ensures var plan := [UniPlan("A", [ExamItem("IELTS", Some(6.5), Some(true), "")]),
                         UniPlan("B", [ExamItem("IELTS", Some(7.0), Some(true), "")])];
            Aggregate(AllItems(plan)) == [RequiredExam("IELTS", Some(7.0))]
  {
    var a := ExamItem("IELTS", Some(6.5), Some(true), "");
    var b := ExamItem("IELTS", Some(7.0), Some(true), "");
    var plan := [UniPlan("A", [a]), UniPlan("B", [b])];
    assert plan[1..] == [UniPlan("B", [b])];
    assert plan[1..][1..] == [];
    assert AllItems(plan[1..]) == [b] + AllItems([]);
    assert AllItems(plan) == [a] + [b];
    assert [a] + [b] == [a, b];
    assert [a, b][..1] == [a];
    assert Aggregate([a]) == [RequiredExam("IELTS", Some(6.5))];
  }

  /** The items normalisation drops: unnamed ones, and SAT/ACT unless the
      intended degree is a bachelor's. */
  predicate Dropped(e: ExamItem, ctx: Context) {
    Key(e) == "" || (IsUndergradOnly(Key(e)) && !ctx.isBachelors)
  }

  function Undropped(ctx: Context): ExamItem -> bool {
    (e: ExamItem) => !Dropped(e, ctx)
  }

  /** Normalisation drops exactly the `Dropped` items and keeps the others in
      order, with their names and scores. */
  lemma {:induction false} KeptIsFilter(items: seq<ExamItem>, englishSeen: bool, ctx: Context)
    ensures var out := Kept(items, englishSeen, ctx);
            var kept := Filter(items, Undropped(ctx));
            && |out| == |kept|
            && forall i :: 0 <= i < |out| ==> out[i].exam == kept[i].exam && out[i].minScore == kept[i].minScore
  {
    if items != [] {
      var e := items[0];
      var seen := englishSeen || IsEnglish(Key(e));
      KeptIsFilter(items[1..], seen, ctx);
      var rest := Kept(items[1..], seen, ctx);
      var keptRest := Filter(items[1..], Undropped(ctx));
      var out := Kept(items, englishSeen, ctx);
      var kept := Filter(items, Undropped(ctx));
      match NormalizeOne(e, englishSeen, ctx)
      case None =>
        assert out == rest;
        assert Dropped(e, ctx);
        assert kept == keptRest;
      case Some(n) =>
        assert out == [n] + rest;
        assert !Dropped(e, ctx);
        assert kept == [e] + keptRest;
        forall i | 0 <= i < |out|
          ensures out[i].exam == kept[i].exam && out[i].minScore == kept[i].minScore
        {
          if i > 0 {
            assert out[i] == rest[i - 1] && kept[i] == keptRest[i - 1];
          }
        }
    }
  }
}
