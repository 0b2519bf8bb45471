# Crisis map server core, modelled in Dafny

This project models two parts of the crisis map server.

**The JSONP proxy helpers (jsonp.py).** These cover:

- escaping serialised JSON so that it is safe to embed in HTML;
- the rule for which URLs the proxy may fetch;
- stripping a JavaScript callback wrapper `name(...)` before parsing;
- localising a MapRoot and its layer tree to one language.

JSON is a datatype whose objects are maps, so Python's `dict.update` becomes a map override.

**The data-model rules (model.py).** These cover:

- catalog entries keyed by `domain:label`, and their create-or-overwrite `Put`;
- the deleted and blocked lifecycle of maps, built on the NEVER sentinel;
- map lookup and map creation, with the domain's initial role merged into one permission list;
- edits to the owner, editor, reviewer and viewer lists;
- crowd report IDs and report creation;
- the filter that hides reports on maps the user may not view;
- the vote counts and score written on a report.

Some collaborators become parameters: the datastore, the `perms`, `users` and `domains` modules, the clock and the ID allocator. The datastore is a set of maps from key name to record. A permission check is a boolean saying whether the current user holds the role. A clock reading is an `Instant`, a timestamp that is never NEVER.

Modules, one per file:

- `Base`: shared types, errors and string helpers.
- `JsonValue`: the JSON datatype.
- `HtmlSafe`, `UrlSafety`, `JsonpCallback` and `Localization`: the proxy (jsonp.py).
- `Catalog`, `RoleLists`, `Maps`, `CrowdReports` and `Votes`: the data model (model.py).

## Model

| member | source | states |
|---|---|---|
| HtmlSafe.HtmlSafeJsonHasNoSpecials | jsonp.py:57-60 | The escaped text contains no `&`, `<` or `>`. It is five characters longer per special character, because each is replaced by a six-character `\u` escape. |
| HtmlSafe.ChainedReplaceIsEscapeEach | jsonp.py:59-60 | The three chained `replace` calls equal replacing each special character by its own escape and keeping every other character. Doing `&` first does not double-escape the later escapes. |
| HtmlSafe.EscapeEachHasNoSpecials | jsonp.py:59-60 | Escaping character by character leaves no special character and adds five characters per special one. |
| HtmlSafe.HtmlSafeJsonRoundTrip | jsonp.py:57-60 | For text shaped like `json.dumps` output, decoding the `\u` escapes gives back the original text, so escaping loses nothing. |
| HtmlSafe.UnescapeInvertsEscape | jsonp.py:59-60 | Decoding inverts character-by-character escaping on JSON-like text. This includes backslash escapes already in the text. |
| HtmlSafe.ReplaceCharAppend | jsonp.py:59-60 | `str.replace` of one character distributes over concatenation. |
| HtmlSafe.ReplaceCharAbsent | jsonp.py:59-60 | Replacing a character that does not occur changes nothing. |
| UrlSafety.SanitizeUrl | jsonp.py:63-78 | Succeeds exactly when the scheme is http or https and the network location contains a dot. It then keeps scheme, netloc, path and query and empties the fragment. Otherwise the error has status 400. |
| UrlSafety.SanitizeUrlIdempotent | jsonp.py:76-77 | A sanitised URL passes the rule again and is unchanged. |
| UrlSafety.SanitizeUrlIgnoresFragment | jsonp.py:75-77 | The fragment never affects acceptance or the sanitised URL. |
| JsonpCallback.NameLength | jsonp.py:35 | The greedy `\w+` covers exactly the longest run of word characters at the start of the text. |
| JsonpCallback.TrailerStart | jsonp.py:35 | The greedy `[\s;]*$` covers exactly the longest run of whitespace and semicolons at the end of the text. |
| JsonpCallback.MatchCallback | jsonp.py:35 | A match splits the text into a word-character name, `(`, the body, `)` and a trailer of whitespace and semicolons. |
| JsonpCallback.MatchCallbackComplete | jsonp.py:35 | Every text of the wrapped shape matches and yields exactly the body it was built from, even when the body contains parentheses. |
| JsonpCallback.ParseJson | jsonp.py:81-89 | The parser receives the stripped body, or the whole text when it is not wrapped. It succeeds exactly when the parser does. A parse failure has status 403. |
| JsonpCallback.ParseJsonStripsWrapper | jsonp.py:83-87 | A wrapped text parses exactly as its body alone. |
| JsonpCallback.PlainJsonPassesUnchanged | jsonp.py:83-89 | Text that does not start with a word character (every JSON object, array or string) is not stripped and reaches the parser whole. |
| JsonpCallback.JsonpReplyRoundTrip | jsonp.py:215-216 | The proxy's own reply, wrapped in a word-character callback, strips back to exactly the JSON it wrapped. |
| Localization.Elements | jsonp.py:156 | Iteration succeeds exactly on a list, an empty object or an empty string. A list yields its items and the empty values yield nothing. None, booleans, numbers and non-empty objects or strings fail, as Python's loop and the `.get` that follows it do. |
| Localization.FirstLocalization | jsonp.py:156-158 | Finds the first entry whose `language` is `lang`, with every earlier entry skipped. It returns nothing exactly when every entry is skipped. It fails only on a non-object entry reached before any match. |
| Localization.PopLocalizedChild | jsonp.py:137-158 | Fails exactly when the parent has the `localized_<field>s` key and that value cannot be iterated, or a non-object entry comes before the first match. A list of objects always succeeds. On success the key is removed and the result is the first matching entry's `field` value, or `{}` when that entry has no such field, or nothing when no entry matches. A parent without the key is returned as it was. |
| Localization.Override | jsonp.py:168 | `node.update(child or {})`: the keys are the union, with values from the child where it has them. It fails exactly when the child is a truthy non-object. |
| Localization.LocalizeLayerOverrides | jsonp.py:161-170 | After localising, every key except `sublayers` is the layer's own key (minus the localisation list), overridden by the chosen localisation's keys. `sublayers` is present exactly when either side had it. It then holds the localisation of each element of the overridden `sublayers`, in order. |
| Localization.UnmatchedLayerLosesOnlyItsList | jsonp.py:168 | With no localisation in the language, the only change to the layer's keys is the removal of the localisation list. |
| Localization.LocalizeMapRootOverrides | jsonp.py:173-182 | The same override property for a MapRoot. Its `layers` holds the localisation of each element of the overridden `layers`, in order. |
| Localization.LocalizeListElementwise | jsonp.py:169-170 | Each element of the list is replaced by its own localisation, in order. |
| Localization.LocalizeEachElementwise | jsonp.py:169-170 | Walking a list replaces each element by its own localisation, in order. |
| Localization.LocalizeLayerSucceeds | jsonp.py:161-170 | A layer tree of the expected shape localises without error. In that shape, localisation lists hold objects, their `layer` values are objects, and every `sublayers` is a list of such layers. |
| Localization.LocalizeMapRootSucceeds | jsonp.py:173-182 | A MapRoot of the expected shape, with layers of the expected shape, localises without error. |
| Localization.SettledLayerIsFixpoint | jsonp.py:161-170 | A layer tree with no localisation list anywhere is left exactly as it is. |
| Localization.SettledRootIsFixpoint | jsonp.py:173-182 | A MapRoot with no localisation list anywhere is left exactly as it is. |
| Localization.LocalizeLayerSettles | jsonp.py:161-170 | Localising a layer whose localisations carry no nested localisation lists leaves no localisation list anywhere in the tree. |
| Localization.LocalizeEachSettles | jsonp.py:169-170 | The same, for every element of a walked list. |
| Localization.LocalizeMapRootSettles | jsonp.py:173-182 | The same, for a MapRoot. |
| Localization.LocalizeLayerIdempotent | jsonp.py:161-170 | Localising such a layer a second time changes nothing. |
| Localization.LocalizeMapRootIdempotent | jsonp.py:173-182 | Localising such a MapRoot a second time changes nothing. |
| Catalog.CatalogKey | model.py:196-197 | The key name is the domain, `:`, then the label. The `:` sits right after the domain. |
| Catalog.SplitKeyInvertsCatalogKey | model.py:196-197 | For a domain without `:`, splitting the key name at its first `:` recovers the domain and the label. |
| Catalog.CatalogKeyInjective | model.py:215-222 | Distinct valid (domain, label) pairs have distinct key names. |
| Catalog.Get | model.py:196-197 | Finds the entity exactly when one is stored under that pair's key name. |
| Catalog.GetFindsOwnPair | model.py:196-197 | In a well-keyed store, looking up a valid pair never returns another pair's entry. |
| Catalog.Put | model.py:213-230 | A domain containing `:` is a ValueError. Otherwise the store gains the entry under its key name. Updated time, updater, title, map ID, map version and the listed flag come from this call. An existing entry keeps its creation time, creator, publisher name, domain and label. A new entry records this call as its creation. |
| Catalog.PutThenGet | model.py:213-230 | After `Put`, `Get` for the same pair returns the written entry. Every other valid pair reads as before. |
| Catalog.PutPreservesWellKeyed | model.py:213-230 | `Put` keeps every entity under the key name built from its own domain and label. |
| Catalog.RepublishKeepsCreation | model.py:218-228 | Republishing an entry keeps the creation metadata of its first `Put` and takes everything else from the latest one. |
| Catalog.DeleteByMapId | model.py:378-385 | Removes exactly the entries that point at the map and keeps every other entry unchanged. |
| RoleLists.RemoveFirst | model.py:770-779 | `list.remove` when the user is present drops one element. An absent user changes nothing. |
| RoleLists.RemoveFirstMultiset | model.py:770-779 | Removal takes exactly one copy of the user out of the list and leaves every other count alone. |
| RoleLists.RemoveFirstSplices | model.py:770-779 | Removal splices out the first occurrence and keeps the order of the rest. |
| RoleLists.RemoveFirstNoDups | model.py:770-779 | From a duplicate-free list, removal deletes the user entirely and keeps the list duplicate-free. |
| RoleLists.DedupContents | model.py:628-638 | The deduplicated list has the same members, each once. |
| RoleLists.SameMembersSameMultiset | model.py:628-638 | Two duplicate-free lists with the same members are permutations of each other. So `list(set(...))` fixes the contents in whatever order Python yields them. |
| RoleLists.DedupOfNoDups | model.py:628-638 | Deduplicating a duplicate-free list yields a permutation of it. |
| RoleLists.Union | model.py:628-638 | `list(set(a) \| b)` has exactly the members of either list, with no repeats. |
| RoleLists.UnionWithOwnMembers | model.py:628-638 | Uniting a duplicate-free list with some of its own members yields a permutation of the list. |
| Maps.RevokePermission | model.py:767-780 | Only a map owner may revoke. Others get an AuthorizationError. For an owner the result is the revoked map, and fields other than the permission lists do not change. |
| Maps.RevokeEffect | model.py:767-780 | For an owner, revocation takes one copy of the user out of that role's list and leaves the other lists unchanged. |
| Maps.ChangePermissionLevel | model.py:782-805 | Only a map owner may call it. A role outside the four map roles changes nothing. Fields other than the permission lists never change. |
| Maps.ChangePermissionLevelEffect | model.py:782-805 | With a map role, the user is appended to that role's list only if absent, and one copy is removed from each of the other three lists. |
| Maps.ChangePermissionLevelSparesOthers | model.py:782-805 | No other user's membership count changes in any list. |
| Maps.ChangePermissionLevelExclusive | model.py:782-805 | On duplicate-free lists, the user ends up in exactly the requested role's list and the lists stay duplicate-free. |
| Maps.ChangePermissionLevelIdempotent | model.py:782-805 | Requesting the same role twice is the same as requesting it once. |
| Maps.Get | model.py:539-555 | ID "0" is the empty map. Otherwise the result is the stored map exactly when it exists, is not deleted and is viewable. A viewer check that fails is an AuthorizationError, and a missing or deleted map gives nothing. |
| Maps.GetDeleted | model.py:558-562 | Only for administrators. It returns the stored map exactly when it exists and is deleted. |
| Maps.GetAndGetDeletedPartition | model.py:539-562 | No map is returned by both lookups. An administrator who may view a map gets it from exactly one of them. |
| Maps.Delete | model.py:694-703 | Only for owners. It marks the map deleted now by the current user, and no catalog entry points at the map afterwards. Other entries are kept. |
| Maps.Undelete | model.py:705-713 | Only for administrators. It clears the deletion time to NEVER and the deleter to None, and changes nothing else. |
| Maps.UndeleteInvertsDelete | model.py:694-713 | Undeleting a freshly deleted map restores it exactly. |
| Maps.DeletionHidesFromGet | model.py:539-562 | A deleted map is hidden from `Get` and found by `GetDeleted`. An undeleted one is the reverse. |
| Maps.SetBlocked | model.py:715-730 | Only for administrators. Blocking stamps the time and blocker and unpublishes the map. Unblocking clears both and leaves the catalog alone. Nothing else changes. |
| Maps.UnblockInvertsBlock | model.py:715-730 | Unblocking a freshly blocked map restores it. |
| Maps.InitialList | model.py:620-638 | For the domain's initial role, the list is the union of the given list and the domain's subjects. For any other role it is the given list. |
| Maps.Create | model.py:608-647 | An unknown domain is a ValueError, and a user who may not create maps there gets an AuthorizationError. The new map is not deleted or blocked, and it records its ID, creation time, creator, domain, domain role and world-readable flag. |
| Maps.CreateRoleLists | model.py:620-638 | Omitted owners default to the current user and other omitted lists to empty. The domain role adds the domain's subjects to exactly its own list. |
| Maps.CreateWithKnownSubjects | model.py:628-630 | When every subject is already an owner and the given owners have no repeats, the new map's owners are the given owners in some order. |
| CrowdReports.Decimal | model.py:950 | `str(n)` is a non-empty string of decimal digits. |
| CrowdReports.DecimalRoundTrip | model.py:950 | Reading `str(n)` back gives n. |
| CrowdReports.RStrip | model.py:950 | `rstrip('/')` yields a prefix that does not end in `/`, and everything it removed was `/`. |
| CrowdReports.AsWrittenIdMissesDoubleSlashSource | model.py:947-950 | As written, a source ending in `//` gets a generated ID that does not start with the source. |
| CrowdReports.AsWrittenIdExample | model.py:947-950 | For source `http://example.com//`, the generated ID is `http://example.com/.reports/1`, which is not under the source. |
| CrowdReports.GenerateId | model.py:947-950 | The generated report ID always starts with the source. |
| CrowdReports.GenerateIdAgreesWithAsWritten | model.py:947-950 | For every source not ending in `//`, it is the ID the code as written generates. |
| CrowdReports.GenerateIdInjective | model.py:947-950 | Distinct allocated numbers give distinct report IDs. |
| CrowdReports.CreateWithId | model.py:1170-1177 | With the report ID chosen, an ID not under the source is a ValueError. Otherwise the report records the given values, with omitted ones at their defaults and the vote statistics at zero. |
| CrowdReports.CreateAsWritten | model.py:1169-1171 | As written, the report ID is the given one or the `rstrip` ID. It fails with ValueError exactly when that ID is not under the source. |
| CrowdReports.CreateAsWrittenRejectsOwnId | model.py:1169-1171 | As written, a source ending in `//` with no ID given is refused with ValueError, on the ID `Create` generated itself. |
| CrowdReports.CreateAgreesWithAsWritten | model.py:1169-1171 | The corrected `Create` agrees with the one as written whenever an ID is given or the source does not end in `//`. |
| CrowdReports.Create | model.py:1158-1184 | The report ID is the given one, or a generated one when none is given. Only a given ID that is not under the source is a ValueError, so a generated ID is always accepted. Omitted values default to the current time, no topics, an empty answer object and NOWHERE. The vote statistics start at zero. |
| CrowdReports.MapViewable | model.py:971-978 | A map counts as viewable exactly when it is the empty map, or it exists, is not deleted and the user may view it. An AuthorizationError reads as not viewable. |
| CrowdReports.FilterReportsAppend | model.py:980-984 | Filtering distributes over concatenation, so kept reports stay in input order. |
| CrowdReports.FilterReportsMembership | model.py:980-984 | A report is yielded exactly when some entity is that report and is kept. An entity is kept when it is non-null and its map is empty or viewable. |
| CrowdReports.FilterReportsCached | model.py:968-984 | The one-pass filter that memoises each map's viewability yields exactly the filtered sequence, so the memo changes nothing. |
| Votes.ComputeScore | model.py:1248-1265 | Each count is the indexed count adjusted for the vote being replaced and the one being cast. The written up and down counts add anonymous and reviewer votes. The score is anonymous up minus down, plus 1000 times reviewer up minus down. The report is hidden exactly when the score is at most -2. |
| Votes.SameTypeChangesNothing | model.py:1248-1252 | Replacing a vote by one of the same type leaves every count at the indexed count. |
| Votes.ReviewerDownvoteHides | model.py:1257-1261 | A reviewer downvote with no reviewer upvotes outweighs fewer than 999 anonymous upvotes and hides the report. |
| Votes.PutScoreForReport | model.py:1269-1280 | Writes the four statistics onto the report when it exists and touches nothing else. A missing report stays missing. |
| Votes.GetVote | model.py:1309-1318 | Finds the voter's vote exactly when one is stored under `report_id + '\x00' + voter`. |
| Votes.StoreVoteCount | model.py:1335-1346 | Storing a vote over the old one moves each count by at most one in each direction. |
| Votes.PutVoteCountsExactly | model.py:1335-1346 | If the index is up to date before the vote, each adjusted count equals the count of the votes stored after `Put`. |
| Votes.PutVoteKeepsWellKeyed | model.py:1335-1346 | `Put` keeps every vote under the ID built from its report and voter. |
| Votes.PutVoteScoreExact | model.py:1248-1265 | With an up-to-date index, the statistics written on the report are exactly those of the stored votes. |

## Left out

- `json.dumps` and `json.loads` are not modelled. `ToHtmlSafeJson` works on the serialised text. `ParseJson` takes the parser as a function argument that yields a value or a failure.
- HtmlSafe.HtmlSafeJsonRoundTrip: holds for text shaped like `json.dumps` output, where every backslash opens a two-character escape and none is already one of the three HTML escapes. It does not hold for arbitrary text.
- JsonpCallback.MatchCallback: `\w` and `\s` are taken on ASCII characters. The pattern is compiled with `re.UNICODE`, which widens both classes to Unicode letters, digits and spaces.
- UrlSafety.SanitizeUrl: works on the five parts `urlsplit` returns. The splitting and the `urlunsplit` string are left out.
- Localization.Override: a truthy localisation that is not an object is treated as a failure. Python's `dict.update` would also accept a sequence of key/value pairs.
- Localization.LocalizeLayerIdempotent: proved for trees whose localisations carry no nested localisation lists of their own. A localisation that brings such a list would be localised by a second pass.
- The rate limiter, `FetchJson`, URL fetching, caching and the request handler of jsonp.py are network and HTTP plumbing.
- Datastore queries, ordering, ID allocation and transactions are left out. Stores are maps, writes are atomic, and the allocated number is a parameter.
- The caches (`MAP_ROOT_CACHE`, `CATALOG_ENTRY_CACHE`) and event logging have no effect on the stored records.
- `CatalogEntry` (the wrapper class), `GetAll`/`GetListed` and `CatalogEntryModel.map_version` as a datastore reference are left out. The version is kept as the ID string the map reports.
- Maps.Create: stops at the stored map record. `PutNewVersion` and its version entity, the title and description cached from the MapRoot, and its editor check are left out. The random map ID and the domain's subjects are parameters.
- Maps.Create: the order of a merged role list is fixed here (the given list, then new subjects). Python's `list(set(...))` order is unspecified. So the contracts promise members, no repeats and the resulting multiset, never an order.
- `Map.GetAll`, `GetViewable`, `RemoveUsers`, `DeleteAllMapsWithNoOwner`, `Wipe`, `SetWorldReadable`, versions and the `EmptyMap` class's read-only overrides are left out. They are not among the modelled operations.
- Votes.ComputeScore: the indexed counts are a parameter, because the index may lag behind the stored votes. Exactness is proved only for an up-to-date index.
- The score is an integer. The datastore stores it as a float, which holds every value computed here exactly.
- Report answers are kept as a JSON value rather than as the serialised `answers_json` text.
- JSON numbers are integers (`JNum`). Floats from `json.loads` are not modelled. The modelled code only tests numbers for truthiness and passes them through unchanged.
- CrowdReports.Create: builds the generated ID with the corrected `GenerateId`, which strips at most one trailing `/`. So a source ending in `//` with no ID given succeeds, where the code as written raises ValueError (`CrowdReports.CreateAsWritten`). The two agree on every other input (`CrowdReports.CreateAgreesWithAsWritten`).
- `CrowdReport.Get`, the report queries (`GetForAuthor`, `GetForTopics`, `GetWithoutLocation`, `GetByLocation`, `Search`), the search documents, `MarkAsReviewed` and `CrowdVote.GetMulti` are left out.
- catalog.py is a thin request handler and is not part of this model. The same goes for redirect.py, a single datastore lookup.

## Findings

| source | as written | input that shows it | evidently intended | confidence | as-written member | corrected member |
|---|---|---|---|---|---|---|
| model.py:1169-1171 | `GenerateId` (model.py:950) strips every trailing `/` of the source, and `Create` then requires the ID to start with the source. | source `http://example.com//`, no ID: the generated ID is `http://example.com/.reports/1`, and `Create` raises ValueError on its own ID | a generated ID always lies under its source | medium, not executed | CrowdReports.CreateAsWrittenRejectsOwnId | CrowdReports.Create |

The ID itself: `CrowdReports.AsWrittenIdMissesDoubleSlashSource` shows that the generated ID misses the source, and the corrected `CrowdReports.GenerateId` always lies under it.
