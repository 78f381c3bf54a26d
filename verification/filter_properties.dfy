/**
 * Properties of the filter controller that relate several operations or
 * whole runs: the memoization of the two loaders, the totals of the
 * employment-type tally, the exact content of the location options, and two
 * worked examples: a type tally and a locality counted once per offer.
 */
module FilterProperties {
  import opened Wrappers
  import opened PhpStrings
  import opened PhpArray
  import opened Counters
  import opened JobOfferFilter

  // ---------------------------------------------------------------------------
  // The location table

  /** An id is a key of the table exactly when some loaded location carries it. */
  lemma IndexByIdKeys(locs: seq<Location>, id: int)
    ensures HasKey(IndexById(locs), id) <==> exists i :: 0 <= i < |locs| && locs[i].id == id
  {
    IndexByIdOrder(locs);
    KeysHasKey(IndexById(locs), id);
    FirstOccurrencesElems(LocationIds(locs), id);
    IdsHas(locs, id);
  }

  /** A later location with the same id replaces an earlier one. */
  lemma {:induction false} IndexByIdLastWins(locs: seq<Location>, i: nat)
    requires i < |locs|
    requires forall j :: i < j < |locs| ==> locs[j].id != locs[i].id
    ensures Lookup(IndexById(locs), locs[i].id) == Some(locs[i])
    decreases |locs|
  {
    var locs' := locs[..|locs| - 1];
    var loc := locs[|locs| - 1];
    PutLookup(IndexById(locs'), loc.id, loc, locs[i].id);
    if i < |locs| - 1 {
      IndexByIdLastWins(locs', i);
    }
  }

  /** The table lists each id once, in the order of its first occurrence in the repository. */
  lemma {:induction false} IndexByIdOrder(locs: seq<Location>)
    ensures Keys(IndexById(locs)) == FirstOccurrences(LocationIds(locs))
    decreases |locs|
  {
    if |locs| > 0 {
      var locs' := locs[..|locs| - 1];
      var loc := locs[|locs| - 1];
      IndexByIdOrder(locs');
      IdsSnoc(locs, locs');
      PutFirstOccurrences(IndexById(locs'), LocationIds(locs'), loc.id, loc);
    }
  }

  lemma IdsSnoc(locs: seq<Location>, locs': seq<Location>)
    requires |locs| > 0 && locs' == locs[..|locs| - 1]
    ensures LocationIds(locs) == LocationIds(locs') + [locs[|locs| - 1].id]
  {
  }

  lemma IdsHas(locs: seq<Location>, id: int)
    ensures id in LocationIds(locs) <==> exists i :: 0 <= i < |locs| && locs[i].id == id
  {
    if id in LocationIds(locs) {
      var i :| 0 <= i < |locs| && LocationIds(locs)[i] == id;
    }
    if exists i :: 0 <= i < |locs| && locs[i].id == id {
      var i :| 0 <= i < |locs| && locs[i].id == id;
      assert LocationIds(locs)[i] == id;
    }
  }

  /** `getAllLocations` loads at most once: a second call changes nothing. */
  lemma GetAllLocationsIdempotent(st: Controller, repo: Repository)
    ensures var (st1, t1) := GetAllLocations(st, repo);
            GetAllLocations(st1, repo) == (st1, t1)
  {
  }

  // ---------------------------------------------------------------------------
  // The employment-type tally

  /** Scanning a type list adds its length to the tally's total. */
  lemma {:induction false} CountTypesTotal(c: Counter, ts: seq<string>)
    ensures Total(CountTypes(c, ts)) == Total(c) + |ts|
    decreases |ts|
  {
    if |ts| > 0 {
      TotalInc(c, ts[0]);
      CountTypesTotal(Inc(c, ts[0]), ts[1..]);
    }
  }

  /** Scanning offers adds the sum of their type-list lengths to the total. */
  lemma {:induction false} ScanTypeTotal(st: Controller, repo: Repository, os: seq<Offer>)
    ensures Total(ScanOffers(st, repo, os).counterEmploymentType) ==
            Total(st.counterEmploymentType) + TypeListLengths(os)
    decreases |os|
  {
    if |os| > 0 {
      var os' := os[..|os| - 1];
      var o := os[|os| - 1];
      ScanTypeTotal(st, repo, os');
      var s1 := ScanOffers(st, repo, os');
      if o.employmentType.Some? {
        CountTypesTotal(s1.counterEmploymentType, o.employmentType.value);
      }
    }
  }

  // ---------------------------------------------------------------------------
  // Loading the offers

  /**
   * `getAllOffers` is memoized: calling it again returns the same offers and
   * leaves the controller, counters included, as it was.
   */
  lemma GetAllOffersIdempotent(st: Controller, repo: Repository)
    ensures var (st1, os1) := GetAllOffers(st, repo);
            GetAllOffers(st1, repo) == (st1, os1)
  {
    var (st1, os1) := GetAllOffers(st, repo);
    if |st.offers| == 0 && |repo.published| == 0 {
      assert ScanOffers(st1, repo, []) == st1;
    }
  }

  /**
   * The employment-type tally after a request's first `getAllOffers`: each
   * code counted once per occurrence in the published offers, the counts
   * summing to the offers' type-list lengths.
   */
  lemma FirstLoadTypes(repo: Repository)
    ensures GetAllOffers(Fresh(), repo).1 == repo.published
    ensures forall k :: Get(GetAllOffers(Fresh(), repo).0.counterEmploymentType, k) == multiset(AllTypes(repo.published))[k]
    ensures Total(GetAllOffers(Fresh(), repo).0.counterEmploymentType) == TypeListLengths(repo.published)
  {
    ScanTypeTotal(Fresh(), repo, repo.published);
    assert Total(map[]) == 0;
  }

  /**
   * The locality tally after a request's first `getAllOffers`: each locality
   * counted once per published offer that references one of its locations,
   * so never more often than there are offers.
   */
  lemma FirstLoadLocations(repo: Repository)
    ensures forall l :: Get(GetAllOffers(Fresh(), repo).0.counterLocation, l) ==
                        OffersAt(IndexById(repo.locations), repo.published, l)
    ensures forall l :: Get(GetAllOffers(Fresh(), repo).0.counterLocation, l) <= |repo.published|
    ensures Valid(GetAllOffers(Fresh(), repo).0)
  {
    assert Valid(Fresh());
  }

  // ---------------------------------------------------------------------------
  // The location options

  /** The grouping has one key per locality of the table. */
  lemma GroupedKeys(t: LocationTable, l: string)
    ensures HasKey(GroupByLocality(t), l) <==> exists i :: 0 <= i < |t| && t[i].1.addressLocality == l
  {
    GroupedOrder(t);
    KeysHasKey(GroupByLocality(t), l);
    FirstOccurrencesElems(Localities(t), l);
    LocalitiesHas(t, l);
  }

  /** The grouping lists each locality once, in the order of its first occurrence in the table. */
  lemma {:induction false} GroupedOrder(t: LocationTable)
    ensures Keys(GroupByLocality(t)) == FirstOccurrences(Localities(t))
    decreases |t|
  {
    if |t| > 0 {
      var t' := t[..|t| - 1];
      var joined := GroupedJoined(t);
      GroupedOrder(t');
      LocalitiesSnoc(t, t');
      PutFirstOccurrences(GroupByLocality(t'), Localities(t'), t[|t| - 1].1.addressLocality, joined);
    }
  }

  /** The grouping of a non-empty table assigns the last entry's locality its joined ids. */
  lemma GroupedJoined(t: LocationTable) returns (joined: string)
    requires |t| > 0
    ensures GroupByLocality(t) ==
            Put(GroupByLocality(t[..|t| - 1]), t[|t| - 1].1.addressLocality, joined)
  {
    joined := JoinedWith(GroupByLocality(t[..|t| - 1]), t[|t| - 1].1);
  }

  lemma LocalitiesSnoc(t: LocationTable, t': LocationTable)
    requires |t| > 0 && t' == t[..|t| - 1]
    ensures Localities(t) == Localities(t') + [t[|t| - 1].1.addressLocality]
  {
  }

  lemma LocalitiesHas(t: LocationTable, l: string)
    ensures l in Localities(t) <==> exists i :: 0 <= i < |t| && t[i].1.addressLocality == l
  {
    if l in Localities(t) {
      var i :| 0 <= i < |t| && Localities(t)[i] == l;
    }
    if exists i :: 0 <= i < |t| && t[i].1.addressLocality == l {
      var i :| 0 <= i < |t| && t[i].1.addressLocality == l;
      assert Localities(t)[i] == l;
    }
  }

  /**
   * Before the flip, each locality's entry is the "|"-join of the ids of all
   * its locations, in table order.
   */
  lemma {:induction false} GroupedValues(t: LocationTable)
    ensures forall i :: 0 <= i < |GroupByLocality(t)| ==>
              GroupByLocality(t)[i].1 == JoinIds(IdsAt(t, GroupByLocality(t)[i].0))
    decreases |t|
  {
    if |t| > 0 {
      var t' := t[..|t| - 1];
      var key := t[|t| - 1].1.addressLocality;
      var g' := GroupByLocality(t');
      var g := GroupByLocality(t);
      GroupedValues(t');
      var joined := GroupedStep(t);
      forall i | 0 <= i < |g|
        ensures g[i].1 == JoinIds(IdsAt(t, g[i].0))
      {
        GroupedEntry(g', key, joined, i);
        if g[i].0 != key {
          assert IdsAt(t, g[i].0) == IdsAt(t', g[i].0);
        }
      }
    }
  }

  /** An entry after `$g[$key] = $joined` is the new one or an unchanged old one. */
  lemma GroupedEntry(g': OrderedArray<string, string>, key: string, joined: string, i: nat)
    requires UniqueKeys(g')
    requires i < |Put(g', key, joined)|
    ensures Put(g', key, joined)[i].0 == key ==> Put(g', key, joined)[i].1 == joined
    ensures Put(g', key, joined)[i].0 != key ==> i < |g'| && Put(g', key, joined)[i] == g'[i]
  {
  }

  /** One step of the grouping: the last location's id joins its locality's group. */
  lemma GroupedStep(t: LocationTable) returns (joined: string)
    requires |t| > 0
    requires var g' := GroupByLocality(t[..|t| - 1]);
             forall i :: 0 <= i < |g'| ==> g'[i].1 == JoinIds(IdsAt(t[..|t| - 1], g'[i].0))
    ensures var key := t[|t| - 1].1.addressLocality;
            && GroupByLocality(t) == Put(GroupByLocality(t[..|t| - 1]), key, joined)
            && joined == JoinIds(IdsAt(t, key))
  {
    var t' := t[..|t| - 1];
    var loc := t[|t| - 1].1;
    var key := loc.addressLocality;
    var g' := GroupByLocality(t');
    joined := JoinedWith(g', loc);
    GroupedKeys(t', key);
    if HasKey(g', key) {
      var m :| 0 <= m < |g'| && g'[m].0 == key;
      JoinIdsAppend(IdsAt(t', key), loc.id);
    }
  }

  /** In a table keyed by location id, two localities share no id. */
  lemma IdsAtDistinct(t: LocationTable, li: string, lj: string, p: nat)
    requires WellIndexed(t)
    requires li != lj
    requires p < |t| && t[p].1.addressLocality == li
    ensures IdsAt(t, li) != IdsAt(t, lj)
  {
    var x := IdsAt(t, li)[0];
    assert x in IdsAt(t, li);
    var p' :| 0 <= p' < |t| && t[p'].1.id == x && t[p'].1.addressLocality == li;
    assert forall q :: 0 <= q < |t| && t[q].1.id == x ==> q == p' by {
      forall q | 0 <= q < |t| && t[q].1.id == x
        ensures q == p'
      {
        assert t[q].0 == t[p'].0;
      }
    }
    assert x !in IdsAt(t, lj);
  }

  /**
   * The flip in `getLocations` never loses a locality: in a table keyed by
   * location id the localities' id groups are disjoint, so their joined
   * strings differ.
   */
  lemma GroupedValuesDistinct(t: LocationTable)
    requires WellIndexed(t)
    ensures forall i, j :: 0 <= i < j < |GroupByLocality(t)| ==> GroupByLocality(t)[i].1 != GroupByLocality(t)[j].1
  {
    var g := GroupByLocality(t);
    GroupedValues(t);
    forall i, j | 0 <= i < j < |g|
      ensures g[i].1 != g[j].1
    {
      var li, lj := g[i].0, g[j].0;
      GroupedKeys(t, li);
      assert HasKey(g, li);
      var p :| 0 <= p < |t| && t[p].1.addressLocality == li;
      IdsAtDistinct(t, li, lj, p);
      JoinIdsInjective(IdsAt(t, li), IdsAt(t, lj));
    }
  }

  /**
   * The options of `getLocations`, exactly: one per locality, in the order in
   * which the localities first occur in the table, keyed by the locality's
   * joined ids and labelled with the locality and its count badge.
   */
  lemma GetLocationsOptions(config: ModuleConfig, st: Controller, repo: Repository)
    requires Valid(st)
    ensures var (st2, opts) := GetLocations(config, st, repo);
            var g := GroupByLocality(st2.locations);
            && Keys(g) == FirstOccurrences(Localities(st2.locations))
            && |opts| == |g|
            && forall i :: 0 <= i < |opts| ==>
                 opts[i] == (JoinIds(IdsAt(st2.locations, g[i].0)),
                             g[i].0 + AddLocationCounter(config, st2, g[i].0))
  {
    var (st1, _) := GetAllOffers(st, repo);
    var (st2, table) := GetAllLocations(st1, repo);
    var g := GroupByLocality(table);
    GroupedOrder(table);
    GroupedValuesDistinct(table);
    GroupedValues(table);
    FlipDistinctValues(g);
  }

  // ---------------------------------------------------------------------------
  // Worked examples

  /** Two offers, typed full-time + part-time and full-time: counts 2 and 1. */
  lemma ExampleTypeTally()
    ensures var repo := Repository([Offer(Some(["full_time", "part_time"]), None),
                                    Offer(Some(["full_time"]), None)], []);
            var st := GetAllOffers(Fresh(), repo).0;
            Get(st.counterEmploymentType, "full_time") == 2 && Get(st.counterEmploymentType, "part_time") == 1
  {
    var repo := Repository([Offer(Some(["full_time", "part_time"]), None),
                            Offer(Some(["full_time"]), None)], []);
    assert AllTypes(repo.published) == ["full_time", "part_time", "full_time"] by {
      assert repo.published[..1] == [repo.published[0]];
    }
  }

  /** Two Berlin locations referenced by one offer: Berlin is counted once. */
  lemma ExampleBerlinOnce()
    ensures var repo := Repository([Offer(None, Some([1, 2]))],
                                   [Location(1, "Berlin"), Location(2, "Berlin")]);
            var st := GetAllOffers(Fresh(), repo).0;
            Get(st.counterLocation, "Berlin") == 1
  {
    var repo := Repository([Offer(None, Some([1, 2]))],
                           [Location(1, "Berlin"), Location(2, "Berlin")]);
    var t := IndexById(repo.locations);
    IndexByIdLastWins(repo.locations, 0);
    var ids := [1, 2];
    assert HasKey(t, ids[0]) && Lookup(t, ids[0]).value.addressLocality == "Berlin";
    assert "Berlin" in ResolvedLocalities(t, ids);
  }
}
