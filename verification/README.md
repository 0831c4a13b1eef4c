# WikibaseReconcileEdit: the reconciliation edit endpoint, in Dafny

WikibaseReconcileEdit adds a REST endpoint to a Wikibase repository. It takes two
JSON parameters: a *reconcile directive* naming a url-typed property, and an
*entity payload* describing an item. It finds the one existing item whose
statement on that property holds the same URL and edits it. If no item has the
URL, it creates a new item. If more than one entry matches, it refuses.

This project models `EditEndpoint::run()` and `getItemIdsFromPageIds`
(`includes/MediaWiki/Api/EditEndpoint.php`). It has four modules:

- `Wrappers` (`wrappers.dfy`): `Option`, and `Result` with `:-` support.
- `Wikibase` (`wikibase.dfy`): the parts of the Wikibase data model the endpoint reads.
  These are property and item ids, main snaks, statements, items and the
  latest-revision outcome. It also holds `getByPropertyId` (`StatementsOn`) and the
  property-id pattern. `new PropertyId(...)` is `ParsePropertyId`, and its
  serialization round-trips are proved.
- `Reconciliation` (`reconciliation.dfy`): the endpoint's decision procedure as pure
  functions, one per stage:
  - reconcile-directive validation
  - entity-payload validation
  - the page-id to item-id filter
  - the match list
  - base selection and the save call

  `Decide` composes the stages. `Error` has one constructor for each of these:
  - every `die(...)`
  - the exceptions of the datatype lookup and the deserializer
  - a null entity from the entity lookup
  - the revision visitor's `RuntimeException`

  The fatal error on a page id without a page is not modelled; see "Left out".
- `Api` (`api.dfy`): the imperative part.
  - Class `EditEndpoint` has the `entityIdLookup` field that `run()` assigns.
    `GetItemIdsFromPageIds` and the nested match loop are `for` loops, proved equal
    to their specification functions. `Run` is proved against `Decide`.
  - Class `Repo` holds the stateful services: the id generator (a counter with the
    set of issued ids) and the save (a log of save calls plus the store's verdict).

The read-only collaborators are fields of the `Services` datatype:

- the datatype lookup
- the entity deserializer
- `ExternalLinks::pageIdsContainingUrl`
- the page-to-entity-id lookup
- the entity lookup
- the latest-revision lookup
- `SimplePutStrategy::apply`

## Model

| member | source | states |
|---|---|---|
| `Wikibase.StatementsOn` | includes/MediaWiki/Api/EditEndpoint.php:101 | `getByPropertyId` keeps exactly the statements on the property, never more than the list had |
| `Wikibase.ExactlyOneStatementOn` | includes/MediaWiki/Api/EditEndpoint.php:101-105 | the count is 1 iff exactly one index carries the property; then `toArray()[0]` is that statement |
| `Wikibase.ParsePropertyId` | includes/MediaWiki/Api/EditEndpoint.php:64-70 | an id is built exactly when the string matches the property-id pattern |
| `Wikibase.ParsedSerialization` | includes/MediaWiki/Api/EditEndpoint.php:66-70 | a parsed id serializes back to its input with the `P` upper-cased |
| `Wikibase.SerializationParses` | includes/MediaWiki/Api/EditEndpoint.php:66-70 | every id `P1`…`P9999999999` parses back from its own serialization |
| `Reconciliation.ReconcileProperty` | includes/MediaWiki/Api/EditEndpoint.php:54-74 | accepted iff the JSON decoded, the version key holds exactly the string `0.0.1`, `urlReconcile` is a string matching the pattern, and that property's datatype is exactly `url`; then the property serializes as the upper-cased input. Each failure has its own error, in the code's order: null JSON, a bad version, a missing, non-string or non-matching `urlReconcile` (`InvalidUrlReconcile`), a datatype lookup that throws (`DatatypeLookupFailed`), a datatype other than `url` (`UrlReconcileNotUrl`) |
| `Reconciliation.EntityPayload` | includes/MediaWiki/Api/EditEndpoint.php:76-86 | accepted iff the JSON decoded, the version is exactly `0.0.1` and the type exactly `item`; the payload passes through unchanged. Null JSON, a bad version and a bad type (`UnsupportedEntityType`) each give their own error, in that order |
| `Reconciliation.ReconciliationUrl` | includes/MediaWiki/Api/EditEndpoint.php:90-113 | accepted iff no statement has qualifiers or references, there are no sitelinks, and exactly one statement is on the property with a value main snak; the URL is that snak's string. Each check has its own error, reported in the code's order: annotations, then sitelinks, then a count other than one (`ReconciliationStatementCount`), then a non-value snak (`ReconciliationStatementNotValue`) |
| `Reconciliation.Validate` | includes/MediaWiki/Api/EditEndpoint.php:54-113 | accepted iff the directive, the payload tags, deserialization and the item checks all pass. The first failing stage's error is returned, in the code's order: directive, payload tags, deserializer, item checks. Acceptance implies every well-formedness condition of both payloads and of the deserialized item. Validation never fails with `EntityNotFound`, `MultipleMatches` or `RevisionLookupFault` |
| `Reconciliation.ItemIdsFromPageIds` | includes/MediaWiki/Api/EditEndpoint.php:193-202 | at most one item id per page id |
| `Reconciliation.ItemIdsFromPageIdsMembership` | includes/MediaWiki/Api/EditEndpoint.php:193-202 | an item id is kept iff some page's lookup yields that `ItemId`; null and non-item ids are dropped |
| `Reconciliation.ItemIdsFromPageIdsConcat` | includes/MediaWiki/Api/EditEndpoint.php:193-202 | the filter distributes over concatenation, so page order is kept |
| `Reconciliation.UrlCountOnProperty` | includes/MediaWiki/Api/EditEndpoint.php:125-135 | the inner loop appends once per index whose statement is on the property with the value snak equal to the URL |
| `Reconciliation.UrlCountPositive` | includes/MediaWiki/Api/EditEndpoint.php:125-135 | an item is appended at least once iff it has a value statement on the property equal to the URL |
| `Reconciliation.MatchingItems` | includes/MediaWiki/Api/EditEndpoint.php:120-136 | the scan's only failure is `EntityNotFound` |
| `Reconciliation.MatchingItemsFails` | includes/MediaWiki/Api/EditEndpoint.php:122-125 | the scan fails iff some candidate's entity is missing |
| `Reconciliation.MatchingItemsSound` | includes/MediaWiki/Api/EditEndpoint.php:120-136 | every match-list entry is a candidate's entity with a value statement on the property exactly equal to the URL |
| `Reconciliation.MatchingItemsContains` | includes/MediaWiki/Api/EditEndpoint.php:120-136 | a loaded candidate occurs in the list whenever the inner loop counts it, and the list is at least that long |
| `Reconciliation.MatchingItemsComplete` | includes/MediaWiki/Api/EditEndpoint.php:120-136 | every candidate with a matching statement is in the list, and the list is at least as long as its number of matching statements |
| `Reconciliation.MatchingItemsLength` | includes/MediaWiki/Api/EditEndpoint.php:120-136 | the list's length is exactly the sum over the candidates of their matching statement indices |
| `Reconciliation.MatchingStatementTotalZero` | includes/MediaWiki/Api/EditEndpoint.php:120-136 | the sum is 0 when no candidate has a matching statement |
| `Reconciliation.MatchingStatementTotalOne` | includes/MediaWiki/Api/EditEndpoint.php:120-136 | the sum is candidate `j`'s count when no other candidate has a matching statement |
| `Reconciliation.NoMatchingStatements` | includes/MediaWiki/Api/EditEndpoint.php:125-135 | an item contributes nothing iff it has no value statement on the property equal to the URL |
| `Reconciliation.UniqueMatchList` | includes/MediaWiki/Api/EditEndpoint.php:120-136 | when every candidate loads and exactly one holds the URL, in one statement on the property, the list is exactly that item |
| `Reconciliation.NoMatchList` | includes/MediaWiki/Api/EditEndpoint.php:120-136 | when every candidate loads and none holds the URL on the property, the list is empty |
| `Reconciliation.TwoUrlStatementsTwoEntries` | includes/MediaWiki/Api/EditEndpoint.php:125-135 | one item with two matching statements yields two entries |
| `Reconciliation.SelectBase` | includes/MediaWiki/Api/EditEndpoint.php:138-164 | more than one entry aborts; one entry gives that item with its concrete latest revision, while a redirect or nonexistent outcome is a fault; no entry gives an empty item carrying the fresh id |
| `Reconciliation.SaveCallFor` | includes/MediaWiki/Api/EditEndpoint.php:166-180 | the save gets `apply(base, input)` and targets its id, which is the base's id when `apply` keeps ids; `EDIT_NEW` is set iff the base was minted or its revision id is 0; the base revision is `false` iff minted, and an existing base passes its own revision id; the summary is `Reconciliation Edit` |
| `Reconciliation.Decide` | includes/MediaWiki/Api/EditEndpoint.php:41-180 | a planned save implies: validation passed; the match list had at most one entry; the base is that entry with its concrete revision, or the new item with the fresh id; the one save call is built from that base |
| `Reconciliation.UniqueMatchBecomesBase` | includes/MediaWiki/Api/EditEndpoint.php:120-177 | with a unique match whose latest revision is concrete, the request edits that item at that revision |
| `Reconciliation.NoMatchMintsNewItem` | includes/MediaWiki/Api/EditEndpoint.php:120-177 | with no match, the request saves a new item carrying the fresh id, with `EDIT_NEW` |
| `Reconciliation.DecideEntityNotFound` | includes/MediaWiki/Api/EditEndpoint.php:122-125 | the request ends in `EntityNotFound` iff validation passed and some candidate's entity is missing; no other stage produces that error |
| `Reconciliation.AmbiguousMatchAborts` | includes/MediaWiki/Api/EditEndpoint.php:138-141 | the request ends in `MultipleMatches` iff validation passed, all candidates loaded and the list has more than one entry |
| `Reconciliation.OneItemTwoStatementsIsAmbiguous` | includes/MediaWiki/Api/EditEndpoint.php:121-141 | one candidate holding the URL in two statements on the property alone aborts the request |
| `Reconciliation.ValidationPrecedesLookups` | includes/MediaWiki/Api/EditEndpoint.php:54-118 | a request that validation rejects gets that error whatever the index, entity lookups, revision lookup, put strategy and fresh id are |
| `Reconciliation.SaveTargetIsMatchOrFresh` | includes/MediaWiki/Api/EditEndpoint.php:143-177 | with no match the save targets the fresh id with `EDIT_NEW` and no base revision; with one match it targets that item's id with its revision |
| `Api.Repo.NewId` | includes/MediaWiki/Api/EditEndpoint.php:163 | the generator returns a number never issued before and records it |
| `Api.Repo.AttemptSave` | includes/MediaWiki/Api/EditEndpoint.php:174-184 | each save is recorded once and its status is the store's verdict |
| `Api.EditEndpoint.GetItemIdsFromPageIds` | includes/MediaWiki/Api/EditEndpoint.php:193-202 | the loop returns exactly `ItemIdsFromPageIds` over the lookup stored in the field |
| `Api.EditEndpoint.FindItemsMatchingUrl` | includes/MediaWiki/Api/EditEndpoint.php:120-136 | the nested loop returns exactly `MatchingItems` |
| `Api.EditEndpoint.Run` | includes/MediaWiki/Api/EditEndpoint.php:41-186 | `Run` first stores the entity-id lookup in the field. When `Decide` fails, `Run` returns that error and nothing is minted or saved. Otherwise it attempts exactly one save (`Decide`'s call), reports `success` as the save status, and advances the id generator only for a minted base. The set of issued ids grows by exactly the new id for a minted base and is otherwise unchanged |

## Left out

- HTTP plumbing is not modelled: `getEditRequest` with its header switch, `getParamSettings`, `needsWriteAccess` and the JSON encoding of the response. The request is given as two decoded JSON objects, or `None` where the payload did not decode.
- The `WikibaseRepo` service locator and the entity deserializer are foreign library calls. They are fields of `Services`. The deserializer maps the payload to an `Item`, or to `None` when it throws.
- `PropertyId::PATTERN` and the `PropertyId` constructor belong to the Wikibase data-model library, which is not part of this model. The model uses that library's pattern, `/^P[1-9]\d{0,9}\z/i` (anchored at both ends, case-insensitive), and its upper-casing of the serialization. The library constructor's 32-bit range check is not modelled.
- A non-string `urlReconcile` value never matches the pattern. Under PHP 7 `preg_match` warns and fails on an array; under PHP 8 it throws a `TypeError`. Both are folded into `InvalidUrlReconcile`.
- A request parameter that decodes to a JSON scalar, such as the string `"Q1"`, cannot be expressed: each payload is a JSON object or `None`. In the code such a value reaches `array_key_exists` at line 59 or line 81. Under PHP 7 that warns and returns null, which leads to the version `die`. Under PHP 8 it throws a `TypeError`.
- Items carry only their id, statements and sitelink count. Labels, descriptions and aliases are never read by the endpoint, so they are not represented, and the uninterpreted `apply` cannot depend on them.
- Value snaks carry a string. This is an assumption: the code never checks that the reconciliation statement's data value is a `StringValue`. The `@var StringValue` annotation at lines 111-113 is only a comment. A non-string value would reach `pageIdsContainingUrl( string $url )` at line 117. Non-string data values are not modelled.
- `getItemIdsFromPageIds` passes `Title::newFromID( $pageId )` to `getEntityIdForTitle` (line 196). A page id without a page gives a null title there, and `getEntityIdForTitle` then fails fatally. The model assumes every page id from the index resolves to a title. `entityIdForPage` returning `None` stands only for a page without an entity.
- `SimplePutStrategy::apply` is not part of this model. It is an uninterpreted function. Where a lemma needs it to keep the base's id, it says so with `ApplyKeepsId`.
- `EditEntity::attemptSave`, the system user and the token check are storage and authentication. They are one `AttemptSave` call whose status comes from the store's verdict function. The optimistic-concurrency check inside the store is not modelled.
- `includes/MediaWiki/ExternalLinks.php` runs a database query. `pageIdsContainingUrl` is a collaborator returning page ids. Its die when `LinkFilter::makeIndexes` does not give exactly one index is not modelled.
- The id generator is modelled as a counter. `Api.Repo.NewId` states that it returns the counter plus one. The real generator only promises a fresh number; that freshness is the property proved.
- `CompactItemInput` is not part of this model, so `tests/phpunit/unit/InputToEntity/CompactItemInputTest.php` has nothing here to check.
- The integration test sends the entity version `0.0.1/minimal` and reads an `entityId` from the response. The code at lines 81-83 rejects that version, and `run()` never emits `entityId`. The model follows the code.
- `die()` ends the PHP process with a message. The model returns the corresponding `Error` instead.
- An entity lookup that returns null makes PHP call a method on null. The revision visitor throws a `RuntimeException` for a redirect or a nonexistent entity. Both are internal faults, modelled as `EntityNotFound` and `RevisionLookupFault`.
