/** The deterministic half of `ensureUniversityRecommendation`: the skip
    conditions, the category pools, resolving the AI's picks against the
    country's catalog records, the tier fill, the leftover fill and the final
    cut to five. The AI is a single attempt whose parsed answer is an input. */
module UniversityGen {
  import opened Common
  import opened Catalog
  import opened Progress

  /** One item of the AI answer: a record id and the AI's reason. */
  datatype UniPick = UniPick(id: string, reason: string)

  /** The list is cut to, and filled up to, five entries. */
  const ListSize := 5

  /** How many picks of each category the fill aims for. */
  function Quota(c: Category): nat {
    match c
    case Dream => 2
    case Target => 2
    case Safe => 1
  }

  /** The ids of a list's entries. */
  function ListIds(list: seq<ListEntry>): set<string> {
    set i | 0 <= i < |list| :: list[i].uni.id
  }

  /** No two entries share an id. */
  predicate DistinctIds(list: seq<ListEntry>) {
    forall i, j :: 0 <= i < j < |list| ==> list[i].uni.id != list[j].uni.id
  }

  /** The records of one category, in store order. */
  function Pool(all: seq<University>, c: Category): (r: seq<University>)
    ensures forall i :: 0 <= i < |r| ==> r[i] in all && r[i].category == c
    ensures forall i :: 0 <= i < |all| && all[i].category == c ==> all[i] in r
  {
    Filter(all, (u: University) => u.category == c)
  }

  /** An entry made from a pick: the first record with the pick's id, carrying the pick's reason. */
  predicate ResolvedFrom(e: ListEntry, all: seq<University>, p: UniPick) {
    FindById(all, p.id) == Some(e.uni) && e.reason == Picked(p.reason)
  }

  /** Maps each AI pick to the first record with its id, dropping unknown ids
      and keeping repeated ones. */
  function Resolve(all: seq<University>, picks: seq<UniPick>): (r: seq<ListEntry>)
    ensures |r| <= |picks|
    ensures forall i :: 0 <= i < |r| ==> r[i].uni in all && r[i].reason.Picked?
    ensures forall i :: 0 <= i < |r| ==> exists k :: 0 <= k < |picks| && ResolvedFrom(r[i], all, picks[k])
  {
    if picks == [] then []
    else
      var rest := Resolve(all, picks[1..]);
      assert forall i :: 0 <= i < |rest| ==> exists k :: 1 <= k < |picks| && ResolvedFrom(rest[i], all, picks[k]);
      match FindById(all, picks[0].id)
      case None => rest
      case Some(u) => [ListEntry(u, Picked(picks[0].reason))] + rest
  }

  /** No two records share an id. */
  predicate DistinctUnis(us: seq<University>) {
    forall i, j :: 0 <= i < j < |us| ==> us[i].id != us[j].id
  }

  /** `us` are new records: ids unseen in `picked` and each id once. */
  predicate Fresh(us: seq<University>, picked: set<string>) {
    DistinctUnis(us) && forall i :: 0 <= i < |us| ==> us[i].id !in picked
  }

  /** `fillFromPool(pool, count)`: walks the pool in order and takes each
      record whose id is not in `picked` yet, stopping once `count` are taken.
      Returns the records taken. */
  function FillFromPool(pool: seq<University>, count: nat, picked: set<string>): (added: seq<University>)
    ensures |added| <= count
    ensures forall i :: 0 <= i < |added| ==> added[i] in pool
    ensures Fresh(added, picked)
    decreases |pool|
  {
    if pool == [] || count == 0 then []
    else if pool[0].id !in picked then
      var rest := FillFromPool(pool[1..], count - 1, picked + {pool[0].id});
      assert forall k :: 1 <= k < |pool| ==> pool[k] == pool[1..][k - 1];
      [pool[0]] + rest
    else
      var rest := FillFromPool(pool[1..], count, picked);
      assert forall k :: 1 <= k < |pool| ==> pool[k] == pool[1..][k - 1];
      rest
  }

  /** The fill stops short of `count` only when every record of the pool is picked. */
  lemma {:induction false} FillFromPoolExhausts(pool: seq<University>, count: nat, picked: set<string>)
    ensures var added := FillFromPool(pool, count, picked);
            |added| < count ==> forall k :: 0 <= k < |pool| ==> pool[k].id in picked + IdsOf(added)
    decreases |pool|
  {
    if pool != [] && count != 0 {
      var added := FillFromPool(pool, count, picked);
      if pool[0].id !in picked {
        var p2 := picked + {pool[0].id};
        FillFromPoolExhausts(pool[1..], count - 1, p2);
        var rest := FillFromPool(pool[1..], count - 1, p2);
        assert added == [pool[0]] + rest;
        assert picked + IdsOf(added) == p2 + IdsOf(rest);
      } else {
        FillFromPoolExhausts(pool[1..], count, picked);
      }
      assert forall k :: 1 <= k < |pool| ==> pool[k] == pool[1..][k - 1];
    }
  }

  /** The first record whose id is not taken yet (`allUnis.find(u => !pickedIds.has(u._id))`). */
  function FirstUnpicked(all: seq<University>, picked: set<string>): (r: Option<University>)
    ensures r.Some? <==> exists k :: 0 <= k < |all| && all[k].id !in picked
    ensures r.Some? ==> r.value in all && r.value.id !in picked
    ensures r.Some? ==> exists k :: 0 <= k < |all| && all[k] == r.value && forall j :: 0 <= j < k ==> all[j].id in picked
  {
    if all == [] then None
    else if all[0].id !in picked then Some(all[0])
    else
      var r := FirstUnpicked(all[1..], picked);
      assert (exists k :: 0 <= k < |all| && all[k].id !in picked) ==>
             exists k :: 0 <= k < |all[1..]| && all[1..][k].id !in picked;
      assert r.Some? ==> exists k :: 1 <= k < |all| && all[k] == r.value && forall j :: 0 <= j < k ==> all[j].id in picked;
      r
  }

  /** The leftover loop, with the list at length `len`: while it is short of
      five and the country has more records than the list has entries, take
      the first untaken record; stop early when every record is taken. */
  function Leftover(all: seq<University>, len: nat, picked: set<string>): (added: seq<University>)
    ensures |added| <= Max(0, ListSize - len)
    ensures forall i :: 0 <= i < |added| ==> added[i] in all
    ensures Fresh(added, picked)
    ensures len + |added| < ListSize && |all| > len + |added| ==>
              forall k :: 0 <= k < |all| ==> all[k].id in picked + IdsOf(added)
    decreases ListSize - len
  {
    if len < ListSize && |all| > len then
      match FirstUnpicked(all, picked)
      case None => []
      case Some(u) =>
        var rest := Leftover(all, len + 1, picked + {u.id});
        assert IdsOf([u]) == {u.id};
        FreshAppend([u], rest, picked);
        [u] + rest
    else []
  }

  /** How many entries of a list have category `c`. */
  function CountOf(list: seq<ListEntry>, c: Category): nat {
    Count(list, (e: ListEntry) => e.uni.category == c)
  }

  /** The tier fill of one category: only when the resolved list holds fewer
      than the quota, and then at most the shortfall. */
  function TierFill(all: seq<University>, resolved: seq<ListEntry>, c: Category, picked: set<string>): (added: seq<University>)
    ensures CountOf(resolved, c) >= Quota(c) ==> added == []
    ensures CountOf(resolved, c) < Quota(c) ==> |added| <= Quota(c) - CountOf(resolved, c)
    ensures forall i :: 0 <= i < |added| ==> added[i] in all && added[i].category == c
    ensures Fresh(added, picked)
  {
    var have := CountOf(resolved, c);
    if have < Quota(c) then FillFromPool(Pool(all, c), Quota(c) - have, picked) else []
  }

  /** Appending fresh records to fresh records stays fresh. */
  lemma FreshAppend(a: seq<University>, b: seq<University>, picked: set<string>)
    requires Fresh(a, picked) && Fresh(b, picked + IdsOf(a))
    ensures Fresh(a + b, picked) && IdsOf(a + b) == IdsOf(a) + IdsOf(b)
  {
    forall i, j | 0 <= i < j < |a + b|
      ensures (a + b)[i].id != (a + b)[j].id
    {
      if i < |a| && j >= |a| {
        assert (a + b)[i].id in IdsOf(a);
      }
    }
  }

  /** Every record of `us` is one of `all`. */
  predicate Within(us: seq<University>, all: seq<University>) {
    forall i :: 0 <= i < |us| ==> us[i] in all
  }

  lemma WithinAppend(a: seq<University>, b: seq<University>, all: seq<University>)
    requires Within(a, all) && Within(b, all)
    ensures Within(a + b, all)
  {
    forall i | 0 <= i < |a + b|
      ensures (a + b)[i] in all
    {
      if i < |a| {
        assert (a + b)[i] == a[i];
      } else {
        assert (a + b)[i] == b[i - |a|];
      }
    }
  }

  /** The records the failsafe appends, in order: Dream, Target and Safe
      tier fills (quotas counted on the resolved list), then the leftovers.
      Returns the tier part and the leftover part. */
  function FillParts(all: seq<University>, resolved: seq<ListEntry>): (r: (seq<University>, seq<University>))
    ensures Fresh(r.0 + r.1, ListIds(resolved))
    ensures Within(r.0 + r.1, all)
    ensures |resolved| + |r.0 + r.1| < ListSize && |all| > |resolved| + |r.0 + r.1| ==>
              forall k :: 0 <= k < |all| ==> all[k].id in ListIds(resolved) + IdsOf(r.0 + r.1)
  {
    var p0 := ListIds(resolved);
    var a1 := TierFill(all, resolved, Dream, p0);
    var a2 := TierFill(all, resolved, Target, p0 + IdsOf(a1));
    FreshAppend(a1, a2, p0);
    WithinAppend(a1, a2, all);
    var a3 := TierFill(all, resolved, Safe, p0 + IdsOf(a1 + a2));
    FreshAppend(a1 + a2, a3, p0);
    WithinAppend(a1 + a2, a3, all);
    var tier := a1 + a2 + a3;
    var a4 := Leftover(all, |resolved| + |tier|, p0 + IdsOf(tier));
    FreshAppend(tier, a4, p0);
    WithinAppend(tier, a4, all);
    assert p0 + IdsOf(tier) + IdsOf(a4) == p0 + IdsOf(tier + a4);
    (tier, a4)
  }

  /** The failsafe list: the resolved entries, then the tier fills as
      "Algorithm Match", then the leftovers as "Fallback". */
  function Fill(all: seq<University>, resolved: seq<ListEntry>): (r: seq<ListEntry>)
    ensures |resolved| <= |r| && r[..|resolved|] == resolved
    ensures forall i :: |resolved| <= i < |r| ==> r[i].uni in all && r[i].uni.id !in ListIds(resolved)
    ensures forall i :: |resolved| <= i < |r| ==> r[i].reason == AlgorithmMatch || r[i].reason == Fallback
    ensures forall i, j :: |resolved| <= i < j < |r| ==> r[i].uni.id != r[j].uni.id
  {
    var parts := FillParts(all, resolved);
    var r := resolved + Entries(parts.0, AlgorithmMatch) + Entries(parts.1, Fallback);
    FillShape(all, resolved, parts.0, parts.1, r);
    r
  }

  lemma FillShape(all: seq<University>, resolved: seq<ListEntry>, tier: seq<University>, left: seq<University>, r: seq<ListEntry>)
    requires Fresh(tier + left, ListIds(resolved))
    requires Within(tier + left, all)
    requires r == resolved + Entries(tier, AlgorithmMatch) + Entries(left, Fallback)
    ensures |resolved| <= |r| && r[..|resolved|] == resolved
    ensures forall i :: |resolved| <= i < |r| ==> r[i].uni in all && r[i].uni.id !in ListIds(resolved)
    ensures forall i :: |resolved| <= i < |r| ==> r[i].reason == AlgorithmMatch || r[i].reason == Fallback
    ensures forall i, j :: |resolved| <= i < j < |r| ==> r[i].uni.id != r[j].uni.id
  {
    var added := tier + left;
    forall i | |resolved| <= i < |r|
      ensures r[i].uni == added[i - |resolved|]
      ensures r[i].reason == AlgorithmMatch || r[i].reason == Fallback
    {
      var k := i - |resolved|;
      if k < |tier| {
        assert r[i] == Entries(tier, AlgorithmMatch)[k];
      } else {
        assert r[i] == Entries(left, Fallback)[k - |tier|];
      }
    }
  }

  /** Records as list entries with one reason. */
  function Entries(us: seq<University>, reason: UniReason): (r: seq<ListEntry>)
    ensures |r| == |us| && forall i :: 0 <= i < |r| ==> r[i] == ListEntry(us[i], reason)
  {
    seq(|us|, i requires 0 <= i < |us| => ListEntry(us[i], reason))
  }

  /** The resolved AI picks; only a non-empty answer is resolved. */
  function Resolved(all: seq<University>, reply: Option<seq<UniPick>>): (r: seq<ListEntry>)
    ensures forall i :: 0 <= i < |r| ==> r[i].uni in all
  {
    if reply.Some? && |reply.value| > 0 then Resolve(all, reply.value) else []
  }

  /** The resolved picks, run through the failsafe when fewer than five. */
  function Completed(all: seq<University>, resolved: seq<ListEntry>): (r: seq<ListEntry>)
    ensures |resolved| <= |r| && r[..|resolved|] == resolved
  {
    if |resolved| < ListSize then Fill(all, resolved) else resolved
  }

  /** The generated list: resolve the AI answer (only a non-empty one), fill
      when short of five, keep the first five. */
  function Generate(all: seq<University>, reply: Option<seq<UniPick>>): (r: seq<ListEntry>)
    ensures |r| <= ListSize
    ensures forall i :: 0 <= i < |r| ==> r[i].uni in all
  {
    var full := Completed(all, Resolved(all, reply));
    FromCountry(all, Resolved(all, reply), full);
    full[..Min(ListSize, |full|)]
  }

  /** Resolved entries and the failsafe's additions are all records of the country. */
  lemma FromCountry(all: seq<University>, resolved: seq<ListEntry>, full: seq<ListEntry>)
    requires forall i :: 0 <= i < |resolved| ==> resolved[i].uni in all
    requires full == Completed(all, resolved)
    ensures forall i :: 0 <= i < |full| ==> full[i].uni in all
  {
    forall i | 0 <= i < |full|
      ensures full[i].uni in all
    {
      if i < |resolved| {
        assert full[i] == full[..|resolved|][i];
      }
    }
  }

  /** `ensureUniversityRecommendation`: generates the list only when a country is
      finalized, the list is not finalized, the country has records and no list
      was generated yet; writes only `task1.proposedList`. */
  function EnsureUniversity(rec: Record, cat: Catalog, reply: Option<seq<UniPick>>): (r: Record)
    ensures r == rec.(task1 := rec.task1.(proposedList := r.task1.proposedList))
  {
    if !rec.task0.finalized || rec.task0.selectedCountry == "" then rec
    else if rec.task1.finalized then rec
    else
      var all := InCountry(cat, rec.task0.selectedCountry);
      if all == [] then rec
      else if |rec.task1.proposedList| > 0 then rec
      else rec.(task1 := rec.task1.(proposedList := Generate(all, reply)))
  }

  /** A list of records with distinct ids has as many ids as records. */
  lemma {:induction false} DistinctIdsCount(us: seq<University>)
    requires DistinctUnis(us)
    ensures |IdsOf(us)| == |us|
  {
    if us != [] {
      var init := us[..|us| - 1];
      DistinctIdsCount(init);
      assert IdsOf(us) == IdsOf(init) + {us[|us| - 1].id};
      assert us[|us| - 1].id !in IdsOf(init);
    }
  }

  /** When the country's ids are unique and the AI contributes nothing, the
      list has `min(5, number of records)` entries: the fill never stops short
      while an untaken record is left, and never invents one. */
  lemma NoAiLength(all: seq<University>, reply: Option<seq<UniPick>>)
    requires UniqueIds(all)
    requires reply.None? || Resolve(all, reply.value) == []
    ensures |Generate(all, reply)| == Min(ListSize, |all|)
    ensures DistinctIds(Generate(all, reply))
  {
    var parts := FillParts(all, []);
    var added := parts.0 + parts.1;
    var full := Fill(all, []);
    assert Resolved(all, reply) == [];
    assert Completed(all, []) == full;
    var r := Generate(all, reply);
    assert r == full[..Min(ListSize, |full|)];
    assert ListIds([]) == {};
    FillShape(all, [], parts.0, parts.1, full);
    assert |full| == |added|;
    NoAiCount(all, added);
    assert DistinctIds(full);
    DistinctIdsPrefix(full, Min(ListSize, |full|));
  }

  lemma DistinctIdsPrefix(list: seq<ListEntry>, n: nat)
    requires DistinctIds(list) && n <= |list|
    ensures DistinctIds(list[..n])
  {
  }

  /** The pigeonhole step: fresh records of the country, stopping only when
      five are taken or none is left, number `min(5, |all|)` or more, and
      never more than the country has. */
  lemma NoAiCount(all: seq<University>, added: seq<University>)
    requires UniqueIds(all)
    requires DistinctUnis(added)
    requires forall i :: 0 <= i < |added| ==> added[i] in all
    requires |added| < ListSize && |all| > |added| ==> forall k :: 0 <= k < |all| ==> all[k].id in IdsOf(added)
    ensures Min(ListSize, |all|) <= |added| <= |all|
  {
    DistinctIdsCount(added);
    DistinctIdsCount(all);
    SubsetCard(IdsOf(added), IdsOf(all));
    if |added| < ListSize && |all| > |added| {
      assert IdsOf(all) <= IdsOf(added);
      SubsetCard(IdsOf(all), IdsOf(added));
    }
  }

  /** The resolved AI picks lead the list: with five or more, the list is their
      first five and nothing is filled. */
  lemma ResolvedLead(all: seq<University>, reply: Option<seq<UniPick>>)
    ensures var resolved := Resolved(all, reply);
            var n := Min(ListSize, |resolved|);
            |Generate(all, reply)| >= n && Generate(all, reply)[..n] == resolved[..n]
  {
    var resolved := Resolved(all, reply);
    var full := Completed(all, resolved);
    var n := Min(ListSize, |resolved|);
    assert Generate(all, reply) == full[..Min(ListSize, |full|)];
    PrefixOfPrefix(full, resolved, Min(ListSize, |full|), n);
  }

  /** Resolution works pick by pick: resolving two runs of picks one after the
      other gives the two resolutions joined, so nothing is dropped across them. */
  lemma {:induction false} ResolveAppend(all: seq<University>, a: seq<UniPick>, b: seq<UniPick>)
    ensures Resolve(all, a + b) == Resolve(all, a) + Resolve(all, b)
  {
    if a == [] {
      assert a + b == b;
    } else {
      assert (a + b)[0] == a[0] && (a + b)[1..] == a[1..] + b;
      ResolveAppend(all, a[1..], b);
    }
  }

  /** Resolution does not deduplicate: a repeated pick yields a repeated entry. */
  lemma ResolveKeepsRepeats(all: seq<University>, p: UniPick)
    requires exists i :: 0 <= i < |all| && all[i].id == p.id
    ensures var r := Resolve(all, [p, p]); |r| == 2 && r[0] == r[1]
  {
    assert [p, p][1..] == [p];
  }

  /** A country with records always gets a non-empty list. */
  lemma GenerateNonEmpty(all: seq<University>, reply: Option<seq<UniPick>>)
    requires all != []
    ensures |Generate(all, reply)| >= 1
  {
    if Resolved(all, reply) == [] {
      FillNonEmpty(all);
    }
  }

  /** Without resolved picks, the failsafe takes at least one record of a
      country that has records. */
  lemma FillNonEmpty(all: seq<University>)
    requires all != []
    ensures |Fill(all, [])| >= 1
  {
    var parts := FillParts(all, []);
    assert ListIds([]) == {};
    assert all[0].id !in ListIds([]) + IdsOf([]);
    assert |parts.0 + parts.1| >= 1;
  }

  /** The generator changes the record exactly when a country is finalized,
      the list is not, the country has records and no list exists yet; what
      it writes are records of the selected country, at most five. */
  lemma EnsureUniversitySkips(rec: Record, cat: Catalog, reply: Option<seq<UniPick>>)
    ensures var r := EnsureUniversity(rec, cat, reply);
            (r == rec) <==> (!rec.task0.finalized || rec.task0.selectedCountry == "" || rec.task1.finalized
                             || CountryCount(cat, rec.task0.selectedCountry) == 0 || |rec.task1.proposedList| > 0)
    ensures var r := EnsureUniversity(rec, cat, reply);
            && |r.task1.proposedList| <= Max(ListSize, |rec.task1.proposedList|)
            && (r != rec ==> forall i :: 0 <= i < |r.task1.proposedList| ==>
                  r.task1.proposedList[i].uni in cat && r.task1.proposedList[i].uni.country == rec.task0.selectedCountry)
  {
    if rec.task0.finalized && rec.task0.selectedCountry != "" && !rec.task1.finalized {
      var all := InCountry(cat, rec.task0.selectedCountry);
      if all != [] {
        GenerateNonEmpty(all, reply);
      }
    }
  }

  /** The records of the pool whose id is not picked yet, in pool order. */
  function Untaken(pool: seq<University>, picked: set<string>): (r: seq<University>)
    ensures forall i :: 0 <= i < |r| ==> r[i] in pool && r[i].id !in picked
  {
    if pool == [] then []
    else if pool[0].id !in picked then [pool[0]] + Untaken(pool[1..], picked)
    else Untaken(pool[1..], picked)
  }

  /** Marking an id that the pool does not hold changes nothing. */
  lemma {:induction false} UntakenIgnores(pool: seq<University>, picked: set<string>, id: string)
    requires forall k :: 0 <= k < |pool| ==> pool[k].id != id
    ensures Untaken(pool, picked + {id}) == Untaken(pool, picked)
  {
    if pool != [] {
      UntakenIgnores(pool[1..], picked, id);
    }
  }

  /** Over a pool with distinct ids, the tier fill takes exactly the first
      `count` untaken records of the pool, in pool order. */
  lemma {:induction false} FillFromPoolTakesFirst(pool: seq<University>, count: nat, picked: set<string>)
    requires DistinctUnis(pool)
    ensures var avail := Untaken(pool, picked);
            FillFromPool(pool, count, picked) == avail[..Min(count, |avail|)]
    decreases |pool|
  {
    if pool != [] && count != 0 {
      var rest := pool[1..];
      assert DistinctUnis(rest);
      if pool[0].id !in picked {
        FillFromPoolTakesFirst(rest, count - 1, picked + {pool[0].id});
        UntakenIgnores(rest, picked, pool[0].id);
        var avail := Untaken(rest, picked);
        assert ([pool[0]] + avail)[..Min(count, 1 + |avail|)] == [pool[0]] + avail[..Min(count - 1, |avail|)];
      } else {
        FillFromPoolTakesFirst(rest, count, picked);
      }
    }
  }

  /** Filtering keeps ids distinct. */
  lemma {:induction false} FilterDistinct(us: seq<University>, keep: University -> bool)
    requires DistinctUnis(us)
    ensures DistinctUnis(Filter(us, keep))
  {
    if us != [] {
      var rest := Filter(us[1..], keep);
      FilterDistinct(us[1..], keep);
      if keep(us[0]) {
        assert Filter(us, keep) == [us[0]] + rest;
        forall i | 0 <= i < |rest|
          ensures rest[i].id != us[0].id
        {
          var k :| 0 <= k < |us[1..]| && us[1..][k] == rest[i];
          assert us[k + 1] == rest[i];
        }
      } else {
        assert Filter(us, keep) == rest;
      }
    }
  }

  /** With distinct catalog ids, the tier fill of a category takes exactly the
      first untaken records of its pool, as many as the resolved list falls
      short of the quota. */
  lemma TierFillTakesFirst(all: seq<University>, resolved: seq<ListEntry>, c: Category, picked: set<string>)
    requires DistinctUnis(all)
    ensures var avail := Untaken(Pool(all, c), picked);
            var short := if CountOf(resolved, c) < Quota(c) then Quota(c) - CountOf(resolved, c) else 0;
            TierFill(all, resolved, c, picked) == avail[..Min(short, |avail|)]
  {
    FilterDistinct(all, (u: University) => u.category == c);
    assert DistinctUnis(Pool(all, c));
    if CountOf(resolved, c) < Quota(c) {
      FillFromPoolTakesFirst(Pool(all, c), Quota(c) - CountOf(resolved, c), picked);
    }
  }

  /** The first untaken record is the head of the untaken records. */
  lemma {:induction false} FirstUnpickedIsHead(all: seq<University>, picked: set<string>)
    ensures var avail := Untaken(all, picked);
            FirstUnpicked(all, picked) == if avail == [] then None else Some(avail[0])
  {
    if all != [] && all[0].id in picked {
      FirstUnpickedIsHead(all[1..], picked);
    }
  }

  /** Over records with distinct ids, taking the first untaken record leaves the rest untaken. */
  lemma {:induction false} UntakenDropHead(all: seq<University>, picked: set<string>)
    requires DistinctUnis(all) && Untaken(all, picked) != []
    ensures var avail := Untaken(all, picked);
            Untaken(all, picked + {avail[0].id}) == avail[1..]
  {
    var rest := all[1..];
    assert DistinctUnis(rest);
    if all[0].id !in picked {
      UntakenIgnores(rest, picked, all[0].id);
      assert Untaken(all, picked + {all[0].id}) == Untaken(rest, picked + {all[0].id});
    } else {
      UntakenDropHead(rest, picked);
    }
  }

  /** One turn of the leftover loop: it takes the first untaken record, or stops when there is none. */
  lemma LeftoverStep(all: seq<University>, len: nat, picked: set<string>)
    requires len < ListSize && |all| > len
    ensures var avail := Untaken(all, picked);
            Leftover(all, len, picked)
            == if avail == [] then [] else [avail[0]] + Leftover(all, len + 1, picked + {avail[0].id})
  {
    FirstUnpickedIsHead(all, picked);
  }

  /** Putting one turn in front of the rest of the loop's takings. */
  lemma PrefixCons<T>(whole: seq<T>, rest: seq<T>, xs: seq<T>, m: int)
    requires xs != [] && m >= 1
    requires whole == [xs[0]] + rest
    requires rest == xs[1..][..Min(Max(0, m - 1), |xs| - 1)]
    ensures whole == xs[..Min(Max(0, m), |xs|)]
  {
  }

  /** Over records with distinct ids, the leftover loop takes exactly the first
      untaken records in store order, as many as keep the list within five and
      within the number of the country's records. */
  lemma {:induction false} LeftoverTakesFirst(all: seq<University>, len: nat, picked: set<string>)
    requires DistinctUnis(all)
    ensures var avail := Untaken(all, picked);
            Leftover(all, len, picked) == avail[..Min(Max(0, Min(ListSize, |all|) - len), |avail|)]
    decreases ListSize - len, 2
  {
    if len < ListSize && |all| > len {
      if Untaken(all, picked) != [] {
        LeftoverTurn(all, len, picked);
      } else {
        LeftoverStep(all, len, picked);
      }
    }
  }

  /** The inductive case of `LeftoverTakesFirst`: the loop runs and finds a record. */
  lemma LeftoverTurn(all: seq<University>, len: nat, picked: set<string>)
    requires DistinctUnis(all) && len < ListSize && |all| > len && Untaken(all, picked) != []
    ensures var avail := Untaken(all, picked);
            Leftover(all, len, picked) == avail[..Min(Max(0, Min(ListSize, |all|) - len), |avail|)]
    decreases ListSize - len, 1
  {
    var avail := Untaken(all, picked);
    var m := Min(ListSize, |all|) - len;
    var whole := Leftover(all, len, picked);
    var rest := Leftover(all, len + 1, picked + {avail[0].id});
    assert whole == [avail[0]] + rest by {
      LeftoverStep(all, len, picked);
    }
    assert rest == avail[1..][..Min(Max(0, m - 1), |avail| - 1)] by {
      LeftoverRest(all, len, picked);
    }
    PrefixCons(whole, rest, avail, m);
  }

  /** What the loop takes after its first turn. */
  lemma LeftoverRest(all: seq<University>, len: nat, picked: set<string>)
    requires DistinctUnis(all) && len < ListSize && |all| > len && Untaken(all, picked) != []
    ensures var avail := Untaken(all, picked);
            Leftover(all, len + 1, picked + {avail[0].id})
            == avail[1..][..Min(Max(0, Min(ListSize, |all|) - len - 1), |avail| - 1)]
    decreases ListSize - len, 0
  {
    UntakenDropHead(all, picked);
    LeftoverTakesFirst(all, len + 1, picked + {Untaken(all, picked)[0].id});
  }
}
