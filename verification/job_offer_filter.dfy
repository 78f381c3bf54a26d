/**
 * The job-offer filter module of the Plenta jobs bundle: the request-scoped
 * controller that loads the published offers once, tallies them per
 * employment type and per locality while loading, and turns the
 * employment-type catalog and the location table into the option lists of
 * the filter form.
 *
 * The controller's mutable fields become an immutable `Controller` value
 * threaded through pure functions; the two repositories become the given
 * `Repository` contents.
 */
module JobOfferFilter {
  import opened Wrappers
  import opened PhpStrings
  import opened PhpArray
  import opened Counters
  import opened Markup

  /**
   * A published offer: its employment-type codes and its deserialized
   * location ids, each `None` when the stored field is `null`.
   */
  datatype Offer = Offer(employmentType: Option<seq<string>>, jobLocation: Option<seq<int>>)

  datatype Location = Location(id: int, addressLocality: string)

  /** What `findAllPublished()` and `findAll()` return, in repository order. */
  datatype Repository = Repository(published: seq<Offer>, locations: seq<Location>)

  /** The module settings the option builders read. */
  datatype ModuleConfig = ModuleConfig(
    showAllTypes: bool,
    showQuantity: bool,
    showLocationQuantity: bool)

  /** The memoized locations, keyed by location id. */
  type LocationTable = OrderedArray<int, Location>

  /** The controller's four fields. */
  datatype Controller = Controller(
    counterEmploymentType: Counter,
    counterLocation: Counter,
    locations: LocationTable,
    offers: seq<Offer>)

  /** A controller as constructed for one request. */
  function Fresh(): Controller {
    Controller(map[], map[], [], [])
  }

  /** Every entry of the table sits under its own location's id. */
  ghost predicate WellIndexed(t: LocationTable) {
    UniqueKeys(t) && forall i :: 0 <= i < |t| ==> t[i].0 == t[i].1.id
  }

  /** What every reachable controller satisfies. */
  ghost predicate Valid(st: Controller) {
    Positive(st.counterEmploymentType) && Positive(st.counterLocation) && WellIndexed(st.locations)
  }

  // ---------------------------------------------------------------------------
  // Employment-type tally

  /** The `foreach` of `collectEmploymenttypes`: one increment per occurrence. */
  function CountTypes(c: Counter, ts: seq<string>): (r: Counter)
    ensures forall k :: Get(r, k) == Get(c, k) + multiset(ts)[k]
    ensures Positive(c) ==> Positive(r)
    decreases |ts|
  {
    if |ts| == 0 then c
    else
      assert ts == [ts[0]] + ts[1..];
      assert multiset(ts) == multiset{ts[0]} + multiset(ts[1..]);
      CountTypes(Inc(c, ts[0]), ts[1..])
  }

  /** `collectEmploymenttypes`: a non-array argument changes nothing. */
  function CollectEmploymentTypes(st: Controller, types: Option<seq<string>>): (r: Controller)
    ensures types.None? ==> r == st
    ensures r.counterLocation == st.counterLocation && r.locations == st.locations && r.offers == st.offers
    ensures types.Some? ==>
              forall k :: Get(r.counterEmploymentType, k) == Get(st.counterEmploymentType, k) + multiset(types.value)[k]
    ensures Valid(st) ==> Valid(r)
  {
    match types
    case None => st
    case Some(ts) => st.(counterEmploymentType := CountTypes(st.counterEmploymentType, ts))
  }

  // ---------------------------------------------------------------------------
  // Location table and locality tally

  /** The loop of `getAllLocations`: each location is `Put` under its own id. */
  function IndexById(locs: seq<Location>): (t: LocationTable)
    ensures WellIndexed(t)
    ensures |t| <= |locs|
    decreases |locs|
  {
    if |locs| == 0 then []
    else
      var loc := locs[|locs| - 1];
      Put(IndexById(locs[..|locs| - 1]), loc.id, loc)
  }

  /** The ids of the locations, in repository order. */
  function LocationIds(locs: seq<Location>): (ids: seq<int>)
    ensures |ids| == |locs|
  {
    seq(|locs|, i requires 0 <= i < |locs| => locs[i].id)
  }

  /** `getAllLocations`: loads the table when the cached one is empty. */
  function GetAllLocations(st: Controller, repo: Repository): (r: (Controller, LocationTable))
    ensures r.0 == st.(locations := r.1)
    ensures |st.locations| > 0 ==> r.1 == st.locations
    ensures |st.locations| == 0 ==> r.1 == IndexById(repo.locations)
    ensures Valid(st) ==> Valid(r.0)
  {
    if |st.locations| == 0 then
      var t := IndexById(repo.locations);
      (st.(locations := t), t)
    else
      (st, st.locations)
  }

  /** The localities of those ids that the table resolves. */
  ghost function ResolvedLocalities(t: LocationTable, ids: seq<int>): set<string> {
    set i | 0 <= i < |ids| && HasKey(t, ids[i]) :: Lookup(t, ids[i]).value.addressLocality
  }

  lemma ResolvedCons(t: LocationTable, ids: seq<int>)
    requires |ids| > 0
    ensures ResolvedLocalities(t, ids) ==
      (if HasKey(t, ids[0]) then {Lookup(t, ids[0]).value.addressLocality} else {})
      + ResolvedLocalities(t, ids[1..])
  {
    var rest := ids[1..];
    forall l | l in ResolvedLocalities(t, rest)
      ensures l in ResolvedLocalities(t, ids)
    {
      var i :| 0 <= i < |rest| && HasKey(t, rest[i]) && Lookup(t, rest[i]).value.addressLocality == l;
      assert ids[i + 1] == rest[i];
    }
    forall l | l in ResolvedLocalities(t, ids) && !(HasKey(t, ids[0]) && l == Lookup(t, ids[0]).value.addressLocality)
      ensures l in ResolvedLocalities(t, rest)
    {
      var i :| 0 <= i < |ids| && HasKey(t, ids[i]) && Lookup(t, ids[i]).value.addressLocality == l;
      assert i > 0;
      assert rest[i - 1] == ids[i];
    }
  }

  /**
   * The loop of `collectLocations`: unresolved ids are skipped, and a locality
   * already in `added` is not counted again.
   */
  function CountLocalities(c: Counter, t: LocationTable, ids: seq<int>, added: seq<string>): (r: Counter)
    ensures forall l ::
              Get(r, l) == Get(c, l) + (if l !in added && l in ResolvedLocalities(t, ids) then 1 else 0)
    ensures Positive(c) ==> Positive(r)
    decreases |ids|
  {
    if |ids| == 0 then c
    else
      ResolvedCons(t, ids);
      match Lookup(t, ids[0])
      case None => CountLocalities(c, t, ids[1..], added)
      case Some(loc) =>
        if loc.addressLocality in added then CountLocalities(c, t, ids[1..], added)
        else CountLocalities(Inc(c, loc.addressLocality), t, ids[1..], added + [loc.addressLocality])
  }

  /**
   * `collectLocations`: each locality that some id of the offer resolves to is
   * counted once. The table is the memoized one; the source fetches it once
   * per id, which returns the same table every time.
   */
  function CollectLocations(st: Controller, repo: Repository, locationIds: Option<seq<int>>): (r: Controller)
    ensures locationIds.None? ==> r == st
    ensures r.counterEmploymentType == st.counterEmploymentType && r.offers == st.offers
    ensures r.locations == st.locations || r.locations == GetAllLocations(st, repo).1
    ensures locationIds.Some? ==>
              var t := GetAllLocations(st, repo).1;
              forall l :: Get(r.counterLocation, l) ==
                          Get(st.counterLocation, l) + (if l in ResolvedLocalities(t, locationIds.value) then 1 else 0)
    ensures Valid(st) ==> Valid(r)
  {
    match locationIds
    case None => st
    case Some(ids) =>
      if |ids| == 0 then st
      else
        var (st1, table) := GetAllLocations(st, repo);
        st1.(counterLocation := CountLocalities(st1.counterLocation, table, ids, []))
  }

  // ---------------------------------------------------------------------------
  // Offer loading

  /** The employment-type codes of the offers, in order; non-arrays contribute none. */
  function AllTypes(os: seq<Offer>): seq<string>
    decreases |os|
  {
    if |os| == 0 then []
    else
      var o := os[|os| - 1];
      AllTypes(os[..|os| - 1]) + (if o.employmentType.Some? then o.employmentType.value else [])
  }

  /** The sum over the offers of the lengths of their type lists. */
  function TypeListLengths(os: seq<Offer>): nat
    decreases |os|
  {
    if |os| == 0 then 0
    else
      var o := os[|os| - 1];
      TypeListLengths(os[..|os| - 1]) + (if o.employmentType.Some? then |o.employmentType.value| else 0)
  }

  /** Whether offer `o` references, through the table, a location in locality `l`. */
  ghost predicate OfferAt(t: LocationTable, o: Offer, l: string) {
    o.jobLocation.Some? && l in ResolvedLocalities(t, o.jobLocation.value)
  }

  /** How many of the offers reference a location in locality `l`. */
  ghost function OffersAt(t: LocationTable, os: seq<Offer>, l: string): (n: nat)
    ensures n <= |os|
    decreases |os|
  {
    if |os| == 0 then 0
    else OffersAt(t, os[..|os| - 1], l) + (if OfferAt(t, os[|os| - 1], l) then 1 else 0)
  }

  /** The loop of `getAllOffers` over the repository's offers. */
  function ScanOffers(st: Controller, repo: Repository, os: seq<Offer>): (r: Controller)
    ensures r.offers == st.offers + os
    ensures GetAllLocations(r, repo).1 == GetAllLocations(st, repo).1
    ensures forall k ::
              Get(r.counterEmploymentType, k) == Get(st.counterEmploymentType, k) + multiset(AllTypes(os))[k]
    ensures forall l ::
              Get(r.counterLocation, l) == Get(st.counterLocation, l) + OffersAt(GetAllLocations(st, repo).1, os, l)
    ensures Valid(st) ==> Valid(r)
    decreases |os|
  {
    if |os| == 0 then st
    else
      var s1 := ScanOffers(st, repo, os[..|os| - 1]);
      var r := ScanStep(s1, repo, os[|os| - 1]);
      ScanStepState(st, s1, repo, os);
      ScanStepTypes(st, s1, repo, os);
      ScanStepLocations(st, s1, repo, os);
      r
  }

  /** The body of the loop of `getAllOffers` for one offer. */
  function ScanStep(s: Controller, repo: Repository, o: Offer): Controller {
    var s2 := CollectEmploymentTypes(s, o.employmentType);
    var s3 := CollectLocations(s2, repo, o.jobLocation);
    s3.(offers := s3.offers + [o])
  }

  /** One more offer is appended, and the location table and validity are kept. */
  lemma ScanStepState(st: Controller, s1: Controller, repo: Repository, os: seq<Offer>)
    requires |os| > 0
    requires s1.offers == st.offers + os[..|os| - 1]
    requires GetAllLocations(s1, repo).1 == GetAllLocations(st, repo).1
    requires Valid(st) ==> Valid(s1)
    ensures ScanStep(s1, repo, os[|os| - 1]).offers == st.offers + os
    ensures GetAllLocations(ScanStep(s1, repo, os[|os| - 1]), repo).1 == GetAllLocations(st, repo).1
    ensures Valid(st) ==> Valid(ScanStep(s1, repo, os[|os| - 1]))
  {
    assert os == os[..|os| - 1] + [os[|os| - 1]];
  }

  /** One more offer adds its type codes to the type tally of the offers before it. */
  lemma ScanStepTypes(st: Controller, s1: Controller, repo: Repository, os: seq<Offer>)
    requires |os| > 0
    requires forall k ::
               Get(s1.counterEmploymentType, k) == Get(st.counterEmploymentType, k) + multiset(AllTypes(os[..|os| - 1]))[k]
    ensures forall k ::
              Get(ScanStep(s1, repo, os[|os| - 1]).counterEmploymentType, k) ==
              Get(st.counterEmploymentType, k) + multiset(AllTypes(os))[k]
  {
  }

  /** One more offer adds one to each locality it references. */
  lemma ScanStepLocations(st: Controller, s1: Controller, repo: Repository, os: seq<Offer>)
    requires |os| > 0
    requires GetAllLocations(s1, repo).1 == GetAllLocations(st, repo).1
    requires forall l ::
               Get(s1.counterLocation, l) ==
               Get(st.counterLocation, l) + OffersAt(GetAllLocations(st, repo).1, os[..|os| - 1], l)
    ensures forall l ::
              Get(ScanStep(s1, repo, os[|os| - 1]).counterLocation, l) ==
              Get(st.counterLocation, l) + OffersAt(GetAllLocations(st, repo).1, os, l)
  {
  }

  /**
   * `getAllOffers`: when no offer is cached yet, scans the published offers,
   * tallying each, and caches them.
   */
  function GetAllOffers(st: Controller, repo: Repository): (r: (Controller, seq<Offer>))
    ensures r.1 == r.0.offers
    ensures |st.offers| > 0 ==> r.0 == st
    ensures |st.offers| == 0 ==> r.1 == repo.published
    ensures Valid(st) ==> Valid(r.0)
  {
    if |st.offers| == 0 then
      var s := ScanOffers(st, repo, repo.published);
      (s, s.offers)
    else
      (st, st.offers)
  }

  // ---------------------------------------------------------------------------
  // Formatting helpers

  /** `addItemCounter`: the count badge of an employment type, or "". */
  function AddItemCounter(config: ModuleConfig, st: Controller, key: string): (r: string)
    ensures r == "" <==> !(config.showQuantity && key in st.counterEmploymentType)
    ensures r != "" ==> ParseBadge(r) == Some(st.counterEmploymentType[key])
  {
    if config.showQuantity && key in st.counterEmploymentType then
      BadgeRoundTrip(st.counterEmploymentType[key]);
      Badge(st.counterEmploymentType[key])
    else ""
  }

  /** `addLocationCounter`: the count badge of a locality, or "". */
  function AddLocationCounter(config: ModuleConfig, st: Controller, key: string): (r: string)
    ensures r == "" <==> !(config.showLocationQuantity && key in st.counterLocation)
    ensures r != "" ==> ParseBadge(r) == Some(st.counterLocation[key])
  {
    if config.showLocationQuantity && key in st.counterLocation then
      BadgeRoundTrip(st.counterLocation[key]);
      Badge(st.counterLocation[key])
    else ""
  }

  /**
   * `getHeadlineHtml`: "" for content PHP considers empty, otherwise the
   * insert-tag expansion of the content inside a container of the given kind.
   * `expand` stands for the CMS's insert-tag replacement.
   */
  function GetHeadlineHtml(content: string, kind: string, expand: string -> string): (r: string)
    ensures r == "" <==> PhpEmpty(content)
    ensures !PhpEmpty(content) ==> ParseHeadline(r, kind) == Some(expand(content))
  {
    if PhpEmpty(content) then ""
    else
      var r := HeadlineOpen(kind) + expand(content) + HeadlineClose;
      assert r[..|HeadlineOpen(kind)|] == HeadlineOpen(kind);
      assert r[|r| - |HeadlineClose|..] == HeadlineClose;
      assert r[|HeadlineOpen(kind)|..|r| - |HeadlineClose|] == expand(content);
      r
  }

  // ---------------------------------------------------------------------------
  // Employment-type options

  /** The keys of a PHP list of length `n`: 0, 1, …, n-1, as strings. */
  function ListKeys(n: nat): (ks: seq<string>)
    ensures |ks| == n
  {
    seq(n, i requires 0 <= i < n => NatToString(i))
  }

  /**
   * Contao's `array_is_assoc` on an array whose keys, written as strings, are
   * `keys`: the keys differ from 0, 1, …, n-1. (PHP stores a canonical decimal
   * string key as the integer it spells, so the comparison on strings is the
   * comparison on keys.)
   */
  predicate IsAssoc(keys: seq<string>) {
    keys != ListKeys(|keys|)
  }

  /** The loop building `$employmentTypes`: code => name, one entry per code. */
  function BuildCatalog(codes: seq<string>, nameOf: string -> string): (r: OrderedArray<string, string>)
    ensures UniqueKeys(r)
    ensures forall i :: 0 <= i < |r| ==> r[i].1 == nameOf(r[i].0)
    decreases |codes|
  {
    if |codes| == 0 then []
    else
      var k := codes[|codes| - 1];
      Put(BuildCatalog(codes[..|codes| - 1], nameOf), k, nameOf(k))
  }

  /** The catalog lists each code once, in the order of its first occurrence among the codes. */
  lemma {:induction false} CatalogOrder(codes: seq<string>, nameOf: string -> string)
    ensures Keys(BuildCatalog(codes, nameOf)) == FirstOccurrences(codes)
    decreases |codes|
  {
    if |codes| > 0 {
      var codes' := codes[..|codes| - 1];
      var k := codes[|codes| - 1];
      assert codes == codes' + [k];
      CatalogOrder(codes', nameOf);
      PutFirstOccurrences(BuildCatalog(codes', nameOf), codes', k, nameOf(k));
    }
  }

  /**
   * The catalog has exactly the known codes as keys, and when the codes are
   * free of repeats, in their order.
   */
  lemma CatalogKeys(codes: seq<string>, nameOf: string -> string)
    ensures forall k :: HasKey(BuildCatalog(codes, nameOf), k) <==> k in codes
    ensures (forall i, j :: 0 <= i < j < |codes| ==> codes[i] != codes[j]) ==>
              Keys(BuildCatalog(codes, nameOf)) == codes
  {
    CatalogOrder(codes, nameOf);
    forall k
      ensures HasKey(BuildCatalog(codes, nameOf), k) <==> k in codes
    {
      KeysHasKey(BuildCatalog(codes, nameOf), k);
      FirstOccurrencesElems(codes, k);
    }
    if forall i, j :: 0 <= i < j < |codes| ==> codes[i] != codes[j] {
      FirstOccurrencesDistinct(codes);
    }
  }

  /** `sub` is `s` with some elements left out, the rest in the same order. */
  ghost predicate IsSubsequence<T>(sub: seq<T>, s: seq<T>)
    decreases |s|
  {
    |sub| == 0 || (|s| > 0 && ((sub[0] == s[0] && IsSubsequence(sub[1..], s[1..])) || IsSubsequence(sub, s[1..])))
  }

  /**
   * The `foreach` of `getTypes` over the catalog: a code the offers never
   * named is dropped unless all types are to be shown; each name gets its
   * count badge.
   */
  function TypeOptions(config: ModuleConfig, st: Controller, catalog: OrderedArray<string, string>)
    : (r: OrderedArray<string, string>)
    ensures forall k ::
              HasKey(r, k) <==> HasKey(catalog, k) && (config.showAllTypes || k in st.counterEmploymentType)
    ensures forall i :: 0 <= i < |r| ==>
              exists j :: 0 <= j < |catalog| && catalog[j].0 == r[i].0 &&
                          r[i].1 == catalog[j].1 + AddItemCounter(config, st, r[i].0)
    decreases |catalog|
  {
    if |catalog| == 0 then []
    else
      var (k, v) := catalog[0];
      var rest := TypeOptions(config, st, catalog[1..]);
      assert forall j :: HasKey(catalog, j) <==> j == k || HasKey(catalog[1..], j) by {
        forall j { HasKeyFirst(catalog, j); }
      }
      if config.showAllTypes || k in st.counterEmploymentType then
        var r := [(k, v + AddItemCounter(config, st, k))] + rest;
        assert r[1..] == rest;
        assert forall j :: HasKey(r, j) <==> j == k || HasKey(rest, j) by {
          forall j { HasKeyFirst(r, j); }
        }
        r
      else
        rest
  }

  /** The options keep the catalog's order. */
  lemma {:induction false} TypeOptionsOrdered(config: ModuleConfig, st: Controller, catalog: OrderedArray<string, string>)
    ensures IsSubsequence(Keys(TypeOptions(config, st, catalog)), Keys(catalog))
    decreases |catalog|
  {
    if |catalog| > 0 {
      var k := catalog[0].0;
      var rest := TypeOptions(config, st, catalog[1..]);
      var r := TypeOptions(config, st, catalog);
      TypeOptionsOrdered(config, st, catalog[1..]);
      assert Keys(catalog)[1..] == Keys(catalog[1..]);
      if config.showAllTypes || k in st.counterEmploymentType {
        assert Keys(r)[1..] == Keys(rest);
      }
    }
  }

  /** With all types shown, the options have exactly the catalog's keys, in order. */
  lemma {:induction false} TypeOptionsShowAll(config: ModuleConfig, st: Controller, catalog: OrderedArray<string, string>)
    requires config.showAllTypes
    ensures Keys(TypeOptions(config, st, catalog)) == Keys(catalog)
    decreases |catalog|
  {
    if |catalog| > 0 {
      TypeOptionsShowAll(config, st, catalog[1..]);
      assert Keys(catalog) == [catalog[0].0] + Keys(catalog[1..]);
    }
  }

  /** A catalog without repeated keys gives options without repeated keys. */
  lemma {:induction false} TypeOptionsUnique(config: ModuleConfig, st: Controller, catalog: OrderedArray<string, string>)
    requires UniqueKeys(catalog)
    ensures UniqueKeys(TypeOptions(config, st, catalog))
    decreases |catalog|
  {
    if |catalog| > 0 {
      var k := catalog[0].0;
      TypeOptionsUnique(config, st, catalog[1..]);
      assert !HasKey(catalog[1..], k);
    }
  }

  /**
   * `getTypes`: loads the offers (which fills the tallies), builds the catalog
   * from the known codes and their labels, and returns its options when the
   * catalog is associative, none otherwise.
   */
  function GetTypes(config: ModuleConfig, codes: seq<string>, nameOf: string -> string,
                    st: Controller, repo: Repository)
    : (r: (Controller, OrderedArray<string, string>))
    ensures r.0 == GetAllOffers(st, repo).0
    ensures UniqueKeys(r.1)
    ensures !IsAssoc(Keys(BuildCatalog(codes, nameOf))) ==> r.1 == []
    ensures IsAssoc(Keys(BuildCatalog(codes, nameOf))) ==>
              forall k :: HasKey(r.1, k) <==> k in codes && (config.showAllTypes || k in r.0.counterEmploymentType)
    ensures (IsAssoc(Keys(BuildCatalog(codes, nameOf))) && config.showAllTypes
             && forall i, j :: 0 <= i < j < |codes| ==> codes[i] != codes[j]) ==> Keys(r.1) == codes
    ensures forall i :: 0 <= i < |r.1| ==> r.1[i].1 == nameOf(r.1[i].0) + AddItemCounter(config, r.0, r.1[i].0)
  {
    var (st1, _) := GetAllOffers(st, repo);
    var catalog := BuildCatalog(codes, nameOf);
    CatalogKeys(codes, nameOf);
    TypeOptionsUnique(config, st1, catalog);
    assert config.showAllTypes ==> Keys(TypeOptions(config, st1, catalog)) == Keys(catalog) by {
      if config.showAllTypes {
        TypeOptionsShowAll(config, st1, catalog);
      }
    }
    (st1, if IsAssoc(Keys(catalog)) then TypeOptions(config, st1, catalog) else [])
  }

  // ---------------------------------------------------------------------------
  // Location options

  /** The ids of the table's locations in locality `l`, in table order. */
  function IdsAt(t: LocationTable, l: string): (ids: seq<int>)
    ensures |ids| > 0 <==> exists i :: 0 <= i < |t| && t[i].1.addressLocality == l
    ensures forall x :: x in ids ==> exists i :: 0 <= i < |t| && t[i].1.id == x && t[i].1.addressLocality == l
    decreases |t|
  {
    if |t| == 0 then []
    else
      var loc := t[|t| - 1].1;
      IdsAt(t[..|t| - 1], l) + (if loc.addressLocality == l then [loc.id] else [])
  }

  /** The localities of the table's entries, in table order. */
  function Localities(t: LocationTable): (ls: seq<string>)
    ensures |ls| == |t|
  {
    seq(|t|, i requires 0 <= i < |t| => t[i].1.addressLocality)
  }

  /**
   * The first loop of `getLocations`: locality => its ids, the first id alone
   * and each further one appended after a "|".
   */
  function GroupByLocality(t: LocationTable): (g: OrderedArray<string, string>)
    ensures UniqueKeys(g)
    decreases |t|
  {
    if |t| == 0 then []
    else
      var g' := GroupByLocality(t[..|t| - 1]);
      var loc := t[|t| - 1].1;
      Put(g', loc.addressLocality, JoinedWith(g', loc))
  }

  /**
   * The grouping entry of `loc`'s locality once `loc` has joined it: its id
   * alone when the locality is new, else appended after a "|".
   */
  function JoinedWith(g: OrderedArray<string, string>, loc: Location): string {
    match Lookup(g, loc.addressLocality)
    case Some(prev) => prev + "|" + IntToString(loc.id)
    case None => IntToString(loc.id)
  }

  /** The second loop of `getLocations`: each locality gets its count badge. */
  function LocationOptions(config: ModuleConfig, st: Controller, flipped: OrderedArray<string, string>)
    : (r: OrderedArray<string, string>)
    ensures Keys(r) == Keys(flipped)
  {
    seq(|flipped|, i requires 0 <= i < |flipped| =>
      (flipped[i].0, flipped[i].1 + AddLocationCounter(config, st, flipped[i].1)))
  }

  /**
   * `getLocations`: loads the offers and the location table, groups the ids
   * by locality, flips the grouping so that the joined ids become the keys,
   * and appends each locality's count badge.
   */
  function GetLocations(config: ModuleConfig, st: Controller, repo: Repository)
    : (r: (Controller, OrderedArray<string, string>))
    ensures r.0 == GetAllLocations(GetAllOffers(st, repo).0, repo).0
    ensures UniqueKeys(r.1)
    ensures Valid(st) ==> Valid(r.0)
  {
    var (st1, _) := GetAllOffers(st, repo);
    var (st2, table) := GetAllLocations(st1, repo);
    (st2, LocationOptions(config, st2, Flip(GroupByLocality(table))))
  }
}
