# Job-offer filter controller, modelled in Dafny

This project models the front-end filter module of the Plenta jobs bundle for
Contao (`JobOfferFilterController`). For each request the controller does the
following:

- it loads the published job offers once;
- while loading, it tallies them per employment-type code and per locality
  (a locality is counted at most once per offer, however many of the offer's
  locations lie in it);
- it builds the two option lists of the filter form from those tallies;
- it renders the widget headlines.

The controller's four mutable fields (two counters, the memoized location
table and the memoized offer list) form one immutable `Controller` value.
Each method becomes a pure function that takes that value and returns the new
one. The two repositories are given as a `Repository` value: the published
offers and all locations, in repository order.

Modules:

- `Wrappers`: `Option`.
- `PhpStrings`: integer-to-decimal conversion, PHP's `empty()` on strings, and
  the `"|"`-join of location ids with its injectivity.
- `PhpArray`: PHP ordered arrays as sequences of key/value pairs with unique
  keys. It covers `$a[$k] = $v` (replace in place or append), lookup, and
  `array_flip` with its last-wins rule.
- `Counters`: the tallies, as `map<string, nat>` with a ghost total.
- `Markup`: the count badge and the headline container, each with a parser
  that inverts it.
- `JobOfferFilter`: the entities, the controller state and the nine
  operations.
- `FilterProperties`: properties that relate several operations or whole runs.

## Model

| member | source | states |
|---|---|---|
| JobOfferFilter.CountTypes | src/Plenta/ContaoJobsBasic/Controller/Contao/FrontendModule/JobOfferFilterController.php:125-131 | Each code's count rises by exactly its number of occurrences in the list, repeats included; other codes keep their count; every present code keeps a positive count |
| JobOfferFilter.CollectEmploymentTypes | src/Plenta/ContaoJobsBasic/Controller/Contao/FrontendModule/JobOfferFilterController.php:122-133 | A non-array argument changes nothing; otherwise the type counter grows by the multiset of the codes; the other three fields are untouched |
| JobOfferFilter.IndexById | src/Plenta/ContaoJobsBasic/Controller/Contao/FrontendModule/JobOfferFilterController.php:189-191 | The table built from the repository is keyed by location id without repeats, each entry under its own location's id, and is never longer than the input |
| JobOfferFilter.GetAllLocations | src/Plenta/ContaoJobsBasic/Controller/Contao/FrontendModule/JobOfferFilterController.php:183-195 | A non-empty cached table is returned as is; an empty one is replaced by the table indexed from the repository; only the location field changes |
| FilterProperties.IndexByIdKeys | src/Plenta/ContaoJobsBasic/Controller/Contao/FrontendModule/JobOfferFilterController.php:189-191 | An id is a key of the table exactly when some loaded location carries it |
| FilterProperties.IndexByIdOrder | src/Plenta/ContaoJobsBasic/Controller/Contao/FrontendModule/JobOfferFilterController.php:189-191 | The table's keys are the location ids, each once, in the order in which they first occur among the loaded locations |
| FilterProperties.IndexByIdLastWins | src/Plenta/ContaoJobsBasic/Controller/Contao/FrontendModule/JobOfferFilterController.php:189-191 | Among locations sharing an id, the table keeps the last one |
| FilterProperties.GetAllLocationsIdempotent | src/Plenta/ContaoJobsBasic/Controller/Contao/FrontendModule/JobOfferFilterController.php:183-195 | A second call returns the same table and leaves the controller unchanged |
| PhpArray.Lookup | src/Plenta/ContaoJobsBasic/Controller/Contao/FrontendModule/JobOfferFilterController.php:140 | The read gives `null` exactly when the key is absent, and otherwise a value stored under that key, the only one when keys are unique |
| JobOfferFilter.CountLocalities | src/Plenta/ContaoJobsBasic/Controller/Contao/FrontendModule/JobOfferFilterController.php:136-156 | A locality's count rises by one exactly when it is not yet in the added list and some id resolves to a location there, and by nothing otherwise; unknown ids change nothing |
| JobOfferFilter.CollectLocations | src/Plenta/ContaoJobsBasic/Controller/Contao/FrontendModule/JobOfferFilterController.php:135-158 | A non-array argument changes nothing; otherwise each locality rises by at most one, by one exactly when some id resolves to it through the location table |
| JobOfferFilter.ScanOffers | src/Plenta/ContaoJobsBasic/Controller/Contao/FrontendModule/JobOfferFilterController.php:112-116 | The offers are appended in order; the type counter grows by the multiset of all their codes; each locality grows by the number of offers that reference it |
| JobOfferFilter.GetAllOffers | src/Plenta/ContaoJobsBasic/Controller/Contao/FrontendModule/JobOfferFilterController.php:106-120 | A non-empty cached list leaves the controller as it was; an empty one loads exactly the published offers; the returned list is the cached one |
| FilterProperties.GetAllOffersIdempotent | src/Plenta/ContaoJobsBasic/Controller/Contao/FrontendModule/JobOfferFilterController.php:106-120 | Calling the loader again returns the same offers and leaves both counters unchanged |
| Counters.Inc | src/Plenta/ContaoJobsBasic/Controller/Contao/FrontendModule/JobOfferFilterController.php:126-130 | One increment adds the code to the counter's keys, raises its count by exactly one, leaves every other code's count as it was, and keeps all counts positive |
| Counters.TotalInc | src/Plenta/ContaoJobsBasic/Controller/Contao/FrontendModule/JobOfferFilterController.php:126-130 | One increment, whether of a present or a new code, adds exactly one to the sum of all counts |
| FilterProperties.CountTypesTotal | src/Plenta/ContaoJobsBasic/Controller/Contao/FrontendModule/JobOfferFilterController.php:124-131 | Tallying a type list adds its length to the sum of all counts |
| FilterProperties.ScanTypeTotal | src/Plenta/ContaoJobsBasic/Controller/Contao/FrontendModule/JobOfferFilterController.php:112-116 | Scanning offers adds the sum of their type-list lengths to the sum of all counts |
| FilterProperties.FirstLoadTypes | src/Plenta/ContaoJobsBasic/Controller/Contao/FrontendModule/JobOfferFilterController.php:106-133 | After the first load of a fresh controller, each code's count is its number of occurrences across the published offers, and the counts sum to the total of the type-list lengths |
| FilterProperties.FirstLoadLocations | src/Plenta/ContaoJobsBasic/Controller/Contao/FrontendModule/JobOfferFilterController.php:106-158 | After the first load, each locality's count is the number of published offers that reference it, so it never exceeds the number of offers |
| JobOfferFilter.AddItemCounter | src/Plenta/ContaoJobsBasic/Controller/Contao/FrontendModule/JobOfferFilterController.php:87-96 | The result is empty exactly when the quantity flag is off or the code is uncounted; otherwise it is a badge whose number reads back as the code's count, which by `Markup.BadgeParseExact` makes it exactly `[n]` with `n` the count in canonical decimal |
| JobOfferFilter.AddLocationCounter | src/Plenta/ContaoJobsBasic/Controller/Contao/FrontendModule/JobOfferFilterController.php:98-104 | The same for the location-quantity flag and the location counter: empty or exactly the badge of the locality's count |
| Markup.BadgeRoundTrip | src/Plenta/ContaoJobsBasic/Controller/Contao/FrontendModule/JobOfferFilterController.php:92 | The number written into the `item-counter` badge reads back unchanged |
| Markup.BadgeParseExact | src/Plenta/ContaoJobsBasic/Controller/Contao/FrontendModule/JobOfferFilterController.php:92 | Any string that reads back as a badge is exactly the badge of its number: no leading zeros, no other spelling |
| PhpStrings.ParseNatExact | src/Plenta/ContaoJobsBasic/Controller/Contao/FrontendModule/JobOfferFilterController.php:92 | Any string that parses as a count is exactly the decimal string PHP writes for that count |
| JobOfferFilter.GetHeadlineHtml | src/Plenta/ContaoJobsBasic/Controller/Contao/FrontendModule/JobOfferFilterController.php:197-208 | The result is empty exactly when the content is empty in PHP's sense, `"0"` included; otherwise it is a headline container of the given kind whose content reads back as the expanded content |
| JobOfferFilter.BuildCatalog | src/Plenta/ContaoJobsBasic/Controller/Contao/FrontendModule/JobOfferFilterController.php:68-70 | The catalog has no repeated code, and each code is labelled with its own name |
| JobOfferFilter.CatalogOrder | src/Plenta/ContaoJobsBasic/Controller/Contao/FrontendModule/JobOfferFilterController.php:68-70 | The catalog lists each code once, in the order of its first occurrence among the known codes |
| JobOfferFilter.CatalogKeys | src/Plenta/ContaoJobsBasic/Controller/Contao/FrontendModule/JobOfferFilterController.php:68-70 | The catalog's keys are exactly the known codes, and in their order when the codes have no repeats |
| JobOfferFilter.TypeOptions | src/Plenta/ContaoJobsBasic/Controller/Contao/FrontendModule/JobOfferFilterController.php:73-81 | A code is an option exactly when it is in the catalog and either all types are shown or it was counted; each label is the catalog's name followed by the code's badge |
| JobOfferFilter.TypeOptionsOrdered | src/Plenta/ContaoJobsBasic/Controller/Contao/FrontendModule/JobOfferFilterController.php:73-81 | The options keep the catalog's order, with some codes left out |
| JobOfferFilter.TypeOptionsShowAll | src/Plenta/ContaoJobsBasic/Controller/Contao/FrontendModule/JobOfferFilterController.php:74-80 | With all types shown, the options have exactly the catalog's codes, in order |
| JobOfferFilter.TypeOptionsUnique | src/Plenta/ContaoJobsBasic/Controller/Contao/FrontendModule/JobOfferFilterController.php:73-81 | No code appears twice among the options |
| JobOfferFilter.GetTypes | src/Plenta/ContaoJobsBasic/Controller/Contao/FrontendModule/JobOfferFilterController.php:61-85 | Loads the offers first. When the catalog is not associative there are no options. Otherwise a code is an option exactly when it is known and is shown or counted, with all known codes in order when all are shown. Every label is the name plus the badge |
| JobOfferFilter.IdsAt | src/Plenta/ContaoJobsBasic/Controller/Contao/FrontendModule/JobOfferFilterController.php:166-172 | A locality has ids exactly when some table entry lies in it, and every id listed is that of an entry in it |
| JobOfferFilter.GroupByLocality | src/Plenta/ContaoJobsBasic/Controller/Contao/FrontendModule/JobOfferFilterController.php:166-172 | Keys are unique; which keys, their order and the joined ids are stated by `FilterProperties.GroupedKeys`, `FilterProperties.GroupedOrder` and `FilterProperties.GroupedValues` |
| FilterProperties.GroupedKeys | src/Plenta/ContaoJobsBasic/Controller/Contao/FrontendModule/JobOfferFilterController.php:166-172 | The grouping has a key exactly for each locality of the table |
| FilterProperties.GroupedOrder | src/Plenta/ContaoJobsBasic/Controller/Contao/FrontendModule/JobOfferFilterController.php:166-172 | The grouping's keys are the table's localities, each once, in the order in which they first occur in the table |
| FilterProperties.GroupedValues | src/Plenta/ContaoJobsBasic/Controller/Contao/FrontendModule/JobOfferFilterController.php:166-172 | Before the flip, each locality's entry is the `"|"`-join of the ids of all its locations, in table order |
| PhpStrings.IntToString | src/Plenta/ContaoJobsBasic/Controller/Contao/FrontendModule/JobOfferFilterController.php:168 | An id's decimal form is non-empty, contains no `"|"`, and starts with a digit exactly when the id is not negative |
| PhpStrings.IntToStringInjective | src/Plenta/ContaoJobsBasic/Controller/Contao/FrontendModule/JobOfferFilterController.php:168-170 | Two ids with the same decimal form are the same id |
| PhpStrings.JoinIds | src/Plenta/ContaoJobsBasic/Controller/Contao/FrontendModule/JobOfferFilterController.php:166-170 | The joined ids are empty exactly when there are no ids; that the join loses nothing is `PhpStrings.JoinIdsInjective` |
| PhpStrings.JoinIdsInjective | src/Plenta/ContaoJobsBasic/Controller/Contao/FrontendModule/JobOfferFilterController.php:168-170 | Two id lists with the same `"|"`-join are the same list |
| FilterProperties.GroupedValuesDistinct | src/Plenta/ContaoJobsBasic/Controller/Contao/FrontendModule/JobOfferFilterController.php:166-174 | In a table keyed by location id, no two localities produce the same joined-id string, so the flip loses none of them |
| PhpArray.Flip | src/Plenta/ContaoJobsBasic/Controller/Contao/FrontendModule/JobOfferFilterController.php:174 | The flipped array has no repeated key and is never longer than the input; every input value is a key, and every entry is some input pair with key and value swapped, so its keys are exactly the input's values |
| PhpArray.FlipLastWins | src/Plenta/ContaoJobsBasic/Controller/Contao/FrontendModule/JobOfferFilterController.php:174 | When several entries share a value, the flipped array maps it to the key of the last of them |
| PhpArray.FlipShorterOnRepeat | src/Plenta/ContaoJobsBasic/Controller/Contao/FrontendModule/JobOfferFilterController.php:174 | Two entries sharing a value leave the flipped array shorter than the input: one key is lost |
| PhpArray.FlipDistinctValues | src/Plenta/ContaoJobsBasic/Controller/Contao/FrontendModule/JobOfferFilterController.php:174 | Without repeated values the flip loses nothing: it is the pairwise swap, in the same order |
| JobOfferFilter.LocationOptions | src/Plenta/ContaoJobsBasic/Controller/Contao/FrontendModule/JobOfferFilterController.php:176-178 | Appending the badges keeps the flipped keys and their order |
| JobOfferFilter.GetLocations | src/Plenta/ContaoJobsBasic/Controller/Contao/FrontendModule/JobOfferFilterController.php:160-181 | Loads the offers, then the location table; the options have no repeated key |
| FilterProperties.GetLocationsOptions | src/Plenta/ContaoJobsBasic/Controller/Contao/FrontendModule/JobOfferFilterController.php:160-181 | The options are exactly one per locality, in the order in which the localities first occur in the table, each keyed by the locality's joined ids and labelled with the locality and its badge |
| PhpArray.Put | src/Plenta/ContaoJobsBasic/Controller/Contao/FrontendModule/JobOfferFilterController.php:190 | Keys stay unique; a new key is appended after all existing entries; an existing key keeps its position and only its value changes, every other entry staying as it was |
| PhpArray.PutHasKey | src/Plenta/ContaoJobsBasic/Controller/Contao/FrontendModule/JobOfferFilterController.php:190 | An assignment adds exactly the assigned key to the array's keys |
| PhpArray.PutFirstOccurrences | src/Plenta/ContaoJobsBasic/Controller/Contao/FrontendModule/JobOfferFilterController.php:190 | Assigning keys one after another leaves them in the order of their first assignment |
| PhpArray.PutLookupOther | src/Plenta/ContaoJobsBasic/Controller/Contao/FrontendModule/JobOfferFilterController.php:190 | After an assignment every other key reads as before, and exactly the new key is added |
| PhpStrings.NatToString | src/Plenta/ContaoJobsBasic/Controller/Contao/FrontendModule/JobOfferFilterController.php:92 | A count's decimal form is a non-empty string of digits that starts with `0` exactly when the count is 0, and is one digit long exactly when the count is below 10 |
| PhpStrings.NatToStringRoundTrip | src/Plenta/ContaoJobsBasic/Controller/Contao/FrontendModule/JobOfferFilterController.php:92 | A count converted to its decimal string parses back to the same count |
| FilterProperties.ExampleTypeTally | src/Plenta/ContaoJobsBasic/Controller/Contao/FrontendModule/JobOfferFilterController.php:122-133 | Offers typed `full_time, part_time` and `full_time` give the counts 2 and 1 |
| FilterProperties.ExampleBerlinOnce | src/Plenta/ContaoJobsBasic/Controller/Contao/FrontendModule/JobOfferFilterController.php:135-158 | One offer referencing two Berlin locations counts Berlin once |

## Left out

- `getResponse` (lines 210-262) is not modelled. It assembles the form from framework objects (form builder, template, router, request, locale) and has no logic of its own beyond flag-gated field registration.
- The repositories' `findAllPublished()` and `findAll()` are not modelled. Their results are the input `Repository` value.
- `StringUtil::deserialize` is not modelled. An offer's location field is given already deserialized: `None` for `null`, otherwise a list of integer ids. The `(int)` cast at line 140 is therefore not modelled.
- `JobOfferFilter.ScanOffers` and `JobOfferFilter.GetAllOffers` treat a location field that deserializes to a non-null non-array (an empty string, say) as `null`. In the source such a value reaches the `?array` parameter of `collectLocations` (line 135) from line 114 and raises a `TypeError`, which aborts `getAllOffers`. The model skips the field and keeps scanning, because `Offer` has no way to hold such a value.
- `Controller::replaceInsertTags` is not modelled. It becomes the uninterpreted parameter `expand`.
- The employment-type helper is not modelled. Its list of codes and its name lookup are the parameters `codes` and `nameOf`.
- `array_is_assoc` is a Contao helper that is not part of this model. `IsAssoc` takes it to mean that the keys differ from `0 … n-1`. For an empty catalog both readings give no options.
- PHP's loose comparisons are not modelled: `in_array` at line 146 is modelled as exact string equality. Loosely equal numeric strings such as `"1"` and `"01"` would be deduplicated by the source but not by the model.
- PHP's integer coercion of numeric-string array keys is not modelled. A numeric locality or code then arrives as an `int` at the `string` parameters at lines 80 and 177, which under strict typing raises a `TypeError`. The model keeps every key a string.
- 64-bit integer overflow of counts and ids is not modelled; integers are unbounded.
- A location whose locality is `null` is not modelled; localities are strings.
- `JobOfferFilter.CollectLocations` fetches the location table once per non-empty id list, not once per id as at line 140. The table is memoized and the repository does not change during the loop, so every fetch returns the same table (`FilterProperties.GetAllLocationsIdempotent`).
- `JobOfferFilter.GroupByLocality`'s own contract states only that keys are unique. Its content is stated by `FilterProperties.GroupedKeys`, `FilterProperties.GroupedOrder` and `FilterProperties.GroupedValues`.
- `JobOfferFilter.LocationOptions`'s own contract states only that the flipped keys are kept, in order. The labels, each locality followed by its `addLocationCounter` badge (line 177), are stated by `FilterProperties.GetLocationsOptions`.
- `JobOfferFilter.GetLocations`'s own contract states only the state change and unique keys. The exact options are stated by `FilterProperties.GetLocationsOptions`, for a controller satisfying `Valid`.

## Notes

- The overwrite rule of `array_flip` at line 174 is modelled in general by `PhpArray.FlipLastWins`, `PhpArray.FlipShorterOnRepeat` and `PhpArray.FlipDropsShadowedKey`.
- `array_flip` at line 174 would drop a locality if two localities produced the same joined-id string, since one entry would overwrite the other. This cannot happen: `FilterProperties.GroupedValuesDistinct` shows it never happens for the grouping `getLocations` actually flips. The table is keyed by location id, so two localities never share an id, and the `"|"`-join of id lists is injective (`PhpStrings.JoinIdsInjective`).
