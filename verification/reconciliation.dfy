/**
 * The decision procedure inside the reconciliation edit endpoint, as pure
 * functions: validating the reconcile directive and the entity payload,
 * turning page ids into item ids, collecting the items whose statement on the
 * reconcile property holds the URL, and choosing the base the edit is made on.
 * `Decide` composes the stages; the endpoint's `Run` is proved against it.
 */
module Reconciliation {
  import opened Wrappers
  import opened Wikibase

  const VERSION_KEY: string := "wikibasereconcileedit-version"
  const SUPPORTED_VERSION: string := "0.0.1"
  const URL_RECONCILE_KEY: string := "urlReconcile"
  const TYPE_KEY: string := "type"
  const ITEM_TYPE: string := "item"
  const URL_DATATYPE: string := "url"
  const EDIT_SUMMARY: string := "Reconciliation Edit"

  /** A decoded JSON value; objects arrive as PHP associative arrays. */
  datatype Json =
    | JNull
    | JBool(b: bool)
    | JNumber(n: int)
    | JString(s: string)
    | JArray(elements: seq<Json>)
    | JObject(fields: map<string, Json>)

  type JsonObject = map<string, Json>

  /** The two request parameters after JSON decoding; `None` is a payload that did not decode. */
  datatype EditRequest = EditRequest(reconcile: Option<JsonObject>, entity: Option<JsonObject>)

  /** One error per way the endpoint gives up: each `die(...)`, the exceptions of the datatype
      lookup and the deserializer, a null entity, and the revision visitor's `RuntimeException`. */
  datatype Error =
    | InvalidReconcileJson
    | UnsupportedReconcileVersion
    | InvalidUrlReconcile
    | DatatypeLookupFailed
    | UrlReconcileNotUrl
    | InvalidEntityJson
    | UnsupportedEntityVersion
    | UnsupportedEntityType
    | DeserializationFailed
    | UnsupportedQualifiersOrReferences
    | UnsupportedSitelinks
    | ReconciliationStatementCount
    | ReconciliationStatementNotValue
    | EntityNotFound
    | MultipleMatches
    | RevisionLookupFault

  /** The read-only collaborators, as functions. */
  datatype Services = Services(
    datatypeOf: PropertyId -> Option<string>,        // PropertyDataTypeLookup; None = lookup exception
    deserialize: JsonObject -> Option<Item>,         // entity deserializer; None = deserialization exception
    pageIdsContainingUrl: string -> seq<int>,        // ExternalLinks::pageIdsContainingUrl
    entityIdForPage: int -> Option<EntityId>,        // EntityIdLookup over Title::newFromID; every page id has a title
    getEntity: ItemId -> Option<Item>,               // EntityLookup::getEntity
    latestRevision: Option<ItemId> -> LatestRevision, // EntityRevisionLookup::getLatestRevisionId
    apply: (Item, Item) -> Item                      // SimplePutStrategy::apply(base, input)
  )

  /** `array_key_exists( key, obj ) && obj[key] === expected` */
  predicate HasString(obj: JsonObject, key: string, expected: string) {
    key in obj && obj[key] == JString(expected)
  }

  // ---------------------------------------------------------------------------
  // Stage 1: the reconcile directive

  /** The property named by `urlReconcile`, if the key is present and its value matches the property-id pattern. */
  function UrlReconcileProperty(obj: JsonObject): Option<PropertyId> {
    if URL_RECONCILE_KEY in obj && obj[URL_RECONCILE_KEY].JString? then ParsePropertyId(obj[URL_RECONCILE_KEY].s) else None
  }

  /** Validates the reconcile directive and yields the reconcile property. */
  function ReconcileProperty(input: Option<JsonObject>, datatypeOf: PropertyId -> Option<string>): (r: Result<PropertyId, Error>)
    ensures r.Success? <==>
      && input.Some?
      && HasString(input.value, VERSION_KEY, SUPPORTED_VERSION)
      && URL_RECONCILE_KEY in input.value && input.value[URL_RECONCILE_KEY].JString?
      && IsPropertyIdSerialization(input.value[URL_RECONCILE_KEY].s)
      && datatypeOf(ParsePropertyId(input.value[URL_RECONCILE_KEY].s).value) == Some(URL_DATATYPE)
    ensures r.Success? ==> Serialization(r.value) == ['P'] + input.value[URL_RECONCILE_KEY].s[1..]
    ensures r.Success? ==> datatypeOf(r.value) == Some(URL_DATATYPE)
    ensures input.None? ==> r == Failure(InvalidReconcileJson)
    ensures input.Some? && !HasString(input.value, VERSION_KEY, SUPPORTED_VERSION) ==> r == Failure(UnsupportedReconcileVersion)
    ensures input.Some? && HasString(input.value, VERSION_KEY, SUPPORTED_VERSION) && UrlReconcileProperty(input.value).None?
      ==> r == Failure(InvalidUrlReconcile)
    ensures input.Some? && HasString(input.value, VERSION_KEY, SUPPORTED_VERSION) && UrlReconcileProperty(input.value).Some?
      && datatypeOf(UrlReconcileProperty(input.value).value).None?
      ==> r == Failure(DatatypeLookupFailed)
    ensures input.Some? && HasString(input.value, VERSION_KEY, SUPPORTED_VERSION) && UrlReconcileProperty(input.value).Some?
      && datatypeOf(UrlReconcileProperty(input.value).value).Some? && datatypeOf(UrlReconcileProperty(input.value).value) != Some(URL_DATATYPE)
      ==> r == Failure(UrlReconcileNotUrl)
    ensures r.Failure? ==> r.error in {InvalidReconcileJson, UnsupportedReconcileVersion, InvalidUrlReconcile, DatatypeLookupFailed, UrlReconcileNotUrl}
  {
    if input.None? then Failure(InvalidReconcileJson)
    else if !HasString(input.value, VERSION_KEY, SUPPORTED_VERSION) then Failure(UnsupportedReconcileVersion)
    else match UrlReconcileProperty(input.value)
      case None => Failure(InvalidUrlReconcile)
      case Some(property) =>
        ParsedSerialization(input.value[URL_RECONCILE_KEY].s);
        match datatypeOf(property)
        case None => Failure(DatatypeLookupFailed)
        case Some(dataType) => if dataType != URL_DATATYPE then Failure(UrlReconcileNotUrl) else Success(property)
  }

  // ---------------------------------------------------------------------------
  // Stage 2: the entity payload and the deserialized item

  /** Validates the entity payload's version and type tags, which are checked before deserialization. */
  function EntityPayload(input: Option<JsonObject>): (r: Result<JsonObject, Error>)
    ensures r.Success? <==> input.Some? && HasString(input.value, VERSION_KEY, SUPPORTED_VERSION) && HasString(input.value, TYPE_KEY, ITEM_TYPE)
    ensures r.Success? ==> r.value == input.value
    ensures input.None? ==> r == Failure(InvalidEntityJson)
    ensures input.Some? && !HasString(input.value, VERSION_KEY, SUPPORTED_VERSION) ==> r == Failure(UnsupportedEntityVersion)
    ensures input.Some? && HasString(input.value, VERSION_KEY, SUPPORTED_VERSION) && !HasString(input.value, TYPE_KEY, ITEM_TYPE)
      ==> r == Failure(UnsupportedEntityType)
    ensures r.Failure? ==> r.error in {InvalidEntityJson, UnsupportedEntityVersion, UnsupportedEntityType}
  {
    if input.None? then Failure(InvalidEntityJson)
    else if !HasString(input.value, VERSION_KEY, SUPPORTED_VERSION) then Failure(UnsupportedEntityVersion)
    else if !HasString(input.value, TYPE_KEY, ITEM_TYPE) then Failure(UnsupportedEntityType)
    else Success(input.value)
  }

  function Deserialized(raw: JsonObject, deserialize: JsonObject -> Option<Item>): Result<Item, Error> {
    match deserialize(raw)
    case None => Failure(DeserializationFailed)
    case Some(item) => Success(item)
  }

  /** No statement carries a qualifier or a reference. */
  predicate NoAnnotations(statements: seq<Statement>) {
    forall i :: 0 <= i < |statements| ==> statements[i].qualifierCount == 0 && statements[i].referenceCount == 0
  }

  /** Validates the deserialized item and yields the reconciliation URL. */
  function ReconciliationUrl(item: Item, property: PropertyId): (r: Result<string, Error>)
    ensures r.Success? <==>
      && NoAnnotations(item.statements)
      && item.sitelinkCount == 0
      && exists i :: OnlyStatementOn(item.statements, property, i) && item.statements[i].mainSnak.ValueSnak?
    ensures r.Success? ==> exists i :: OnlyStatementOn(item.statements, property, i) && item.statements[i].mainSnak == ValueSnak(r.value)
    ensures !NoAnnotations(item.statements) ==> r == Failure(UnsupportedQualifiersOrReferences)
    ensures NoAnnotations(item.statements) && item.sitelinkCount != 0 ==> r == Failure(UnsupportedSitelinks)
    ensures NoAnnotations(item.statements) && item.sitelinkCount == 0 && !(exists i :: OnlyStatementOn(item.statements, property, i))
      ==> r == Failure(ReconciliationStatementCount)
    ensures forall i :: OnlyStatementOn(item.statements, property, i) && !item.statements[i].mainSnak.ValueSnak? ==>
      (NoAnnotations(item.statements) && item.sitelinkCount == 0 ==> r == Failure(ReconciliationStatementNotValue))
    ensures r.Failure? ==> r.error in {UnsupportedQualifiersOrReferences, UnsupportedSitelinks, ReconciliationStatementCount, ReconciliationStatementNotValue}
  {
    if !NoAnnotations(item.statements) then Failure(UnsupportedQualifiersOrReferences)
    else if item.sitelinkCount != 0 then Failure(UnsupportedSitelinks)
    else
      var onProperty := StatementsOn(item.statements, property);
      ExactlyOneStatementOn(item.statements, property);
      if |onProperty| != 1 then Failure(ReconciliationStatementCount)
      else match onProperty[0].mainSnak
        case ValueSnak(url) => Success(url)
        case _ => Failure(ReconciliationStatementNotValue)
  }

  /** What the validation stages hand on to reconciliation. */
  datatype Validated = Validated(property: PropertyId, item: Item, url: string)

  /** Stages 1 and 2 in the endpoint's order: directive, payload tags, deserialization, item checks. */
  function Validate(request: EditRequest, services: Services): (r: Result<Validated, Error>)
    ensures r.Success? ==>
      && request.reconcile.Some? && HasString(request.reconcile.value, VERSION_KEY, SUPPORTED_VERSION)
      && UrlReconcileProperty(request.reconcile.value) == Some(r.value.property)
      && services.datatypeOf(r.value.property) == Some(URL_DATATYPE)
      && request.entity.Some? && HasString(request.entity.value, VERSION_KEY, SUPPORTED_VERSION)
      && HasString(request.entity.value, TYPE_KEY, ITEM_TYPE)
      && services.deserialize(request.entity.value) == Some(r.value.item)
      && NoAnnotations(r.value.item.statements) && r.value.item.sitelinkCount == 0
      && exists i :: OnlyStatementOn(r.value.item.statements, r.value.property, i) && r.value.item.statements[i].mainSnak == ValueSnak(r.value.url)
    ensures r.Failure? ==> r.error !in {EntityNotFound, MultipleMatches, RevisionLookupFault}
    // the stages in the endpoint's order: the directive first, the payload tags before deserialization
    ensures ReconcileProperty(request.reconcile, services.datatypeOf).Failure? ==>
      r == Failure(ReconcileProperty(request.reconcile, services.datatypeOf).error)
    ensures ReconcileProperty(request.reconcile, services.datatypeOf).Success? && EntityPayload(request.entity).Failure? ==>
      r == Failure(EntityPayload(request.entity).error)
    ensures (ReconcileProperty(request.reconcile, services.datatypeOf).Success? && EntityPayload(request.entity).Success?
             && services.deserialize(request.entity.value).None?) ==> r == Failure(DeserializationFailed)
    ensures (ReconcileProperty(request.reconcile, services.datatypeOf).Success? && EntityPayload(request.entity).Success?
             && services.deserialize(request.entity.value).Some? && r.Failure?) ==>
      var url := ReconciliationUrl(services.deserialize(request.entity.value).value, ReconcileProperty(request.reconcile, services.datatypeOf).value);
      url.Failure? && r.error == url.error
    // and conversely: a request passing every stage is accepted
    ensures r.Success? <==>
      && ReconcileProperty(request.reconcile, services.datatypeOf).Success?
      && EntityPayload(request.entity).Success?
      && services.deserialize(request.entity.value).Some?
      && ReconciliationUrl(services.deserialize(request.entity.value).value, ReconcileProperty(request.reconcile, services.datatypeOf).value).Success?
  {
    var property :- ReconcileProperty(request.reconcile, services.datatypeOf);
    var raw :- EntityPayload(request.entity);
    var item :- Deserialized(raw, services.deserialize);
    var url :- ReconciliationUrl(item, property);
    Success(Validated(property, item, url))
  }

  // ---------------------------------------------------------------------------
  // Stage 3: candidates and the match list

  /** getItemIdsFromPageIds: the item ids of the pages, in page order; pages without an entity or with a non-item entity are dropped. */
  function ItemIdsFromPageIds(pageIds: seq<int>, entityIdForPage: int -> Option<EntityId>): (r: seq<ItemId>)
    ensures |r| <= |pageIds|
  {
    if pageIds == [] then []
    else
      var prefix := ItemIdsFromPageIds(pageIds[..|pageIds| - 1], entityIdForPage);
      match entityIdForPage(pageIds[|pageIds| - 1])
      case Some(ItemEntityId(itemId)) => prefix + [itemId]
      case _ => prefix
  }

  /** An item id is kept iff some page resolves to it. */
  lemma {:induction false} ItemIdsFromPageIdsMembership(pageIds: seq<int>, entityIdForPage: int -> Option<EntityId>, itemId: ItemId)
    ensures itemId in ItemIdsFromPageIds(pageIds, entityIdForPage) <==>
      exists j :: 0 <= j < |pageIds| && entityIdForPage(pageIds[j]) == Some(ItemEntityId(itemId))
  {
    if pageIds != [] {
      var n := |pageIds| - 1;
      ItemIdsFromPageIdsMembership(pageIds[..n], entityIdForPage, itemId);
      assert forall j :: 0 <= j < n ==> pageIds[..n][j] == pageIds[j];
      if itemId in ItemIdsFromPageIds(pageIds, entityIdForPage) && itemId !in ItemIdsFromPageIds(pageIds[..n], entityIdForPage) {
        assert entityIdForPage(pageIds[n]) == Some(ItemEntityId(itemId));
      }
    }
  }

  /** Filtering distributes over concatenation, so the page order is kept. */
  lemma {:induction false} ItemIdsFromPageIdsConcat(a: seq<int>, b: seq<int>, entityIdForPage: int -> Option<EntityId>)
    ensures ItemIdsFromPageIds(a + b, entityIdForPage) == ItemIdsFromPageIds(a, entityIdForPage) + ItemIdsFromPageIds(b, entityIdForPage)
  {
    if b != [] {
      var n := |b| - 1;
      ItemIdsFromPageIdsConcat(a, b[..n], entityIdForPage);
      assert (a + b)[..|a + b| - 1] == a + b[..n];
      assert (a + b)[|a + b| - 1] == b[n];
    } else {
      assert a + b == a;
    }
  }

  /** How many of `statements` have the main snak `ValueSnak(url)`: one match-list entry each. */
  function UrlCount(statements: seq<Statement>, url: string): (n: nat)
    ensures n <= |statements|
  {
    if statements == [] then 0
    else UrlCount(statements[..|statements| - 1], url) + (if statements[|statements| - 1].mainSnak == ValueSnak(url) then 1 else 0)
  }

  /** Reference definition: the indices of the statements on `property` whose main snak is the value `url`. */
  ghost function UrlStatementIndices(statements: seq<Statement>, property: PropertyId, url: string): set<int> {
    set i | 0 <= i < |statements| && statements[i].property == property && statements[i].mainSnak == ValueSnak(url)
  }

  /** The item has a value statement on `property` whose string is exactly `url`. */
  ghost predicate HasUrlStatement(item: Item, property: PropertyId, url: string) {
    exists i :: 0 <= i < |item.statements| && item.statements[i].property == property && item.statements[i].mainSnak == ValueSnak(url)
  }

  /** The inner loop's count over getByPropertyId equals the number of matching statement indices. */
  lemma {:induction false} UrlCountOnProperty(statements: seq<Statement>, property: PropertyId, url: string)
    ensures UrlCount(StatementsOn(statements, property), url) == |UrlStatementIndices(statements, property, url)|
  {
    if statements != [] {
      var n := |statements| - 1;
      var init, last := statements[..n], statements[n];
      UrlCountOnProperty(init, property, url);
      var onInit := StatementsOn(init, property);
      var extra := if last.property == property then [last] else [];
      assert StatementsOn(statements, property) == onInit + extra;
      UrlCountAppend(onInit, extra, url);
      UrlStatementIndicesStep(statements, property, url);
    }
  }

  lemma UrlStatementIndicesStep(statements: seq<Statement>, property: PropertyId, url: string)
    requires statements != []
    ensures var n := |statements| - 1;
      var last := statements[n];
      |UrlStatementIndices(statements, property, url)| ==
        |UrlStatementIndices(statements[..n], property, url)| + (if last.property == property && last.mainSnak == ValueSnak(url) then 1 else 0)
  {
    var n := |statements| - 1;
    var last := statements[n];
    var indices := UrlStatementIndices(statements, property, url);
    var initIndices := UrlStatementIndices(statements[..n], property, url);
    if last.property == property && last.mainSnak == ValueSnak(url) {
      assert indices == initIndices + {n};
      assert n !in initIndices;
    } else {
      assert indices == initIndices;
    }
  }

  lemma {:induction false} UrlCountAppend(a: seq<Statement>, b: seq<Statement>, url: string)
    requires |b| <= 1
    ensures UrlCount(a + b, url) == UrlCount(a, url) + UrlCount(b, url)
  {
    if b == [] {
      assert a + b == a;
    } else {
      assert (a + b)[..|a + b| - 1] == a;
      assert b[..0] == [];
    }
  }

  /** An item contributes to the match list iff it has a matching value statement. */
  lemma UrlCountPositive(item: Item, property: PropertyId, url: string)
    ensures UrlCount(StatementsOn(item.statements, property), url) > 0 <==> HasUrlStatement(item, property, url)
  {
    UrlCountOnProperty(item.statements, property, url);
    var indices := UrlStatementIndices(item.statements, property, url);
    if HasUrlStatement(item, property, url) {
      var i :| 0 <= i < |item.statements| && item.statements[i].property == property && item.statements[i].mainSnak == ValueSnak(url);
      assert i in indices;
    } else {
      assert indices == {};
    }
  }

  /** `n` copies of `item`. */
  function Copies(item: Item, n: nat): seq<Item> {
    seq(n, _ => item)
  }

  /** The match list of run(): for each candidate, in order, its entity is fetched (a missing entity is fatal)
      and appended once per statement on `property` whose main snak is the value `url`. */
  function MatchingItems(itemIds: seq<ItemId>, getEntity: ItemId -> Option<Item>, property: PropertyId, url: string): (r: Result<seq<Item>, Error>)
    ensures r.Failure? ==> r.error == EntityNotFound
  {
    if itemIds == [] then Success([])
    else
      var n := |itemIds| - 1;
      var prefix :- MatchingItems(itemIds[..n], getEntity, property, url);
      match getEntity(itemIds[n])
      case None => Failure(EntityNotFound)
      case Some(item) => Success(prefix + Copies(item, UrlCount(StatementsOn(item.statements, property), url)))
  }

  /** The scan fails exactly when some candidate's entity is missing. */
  lemma {:induction false} MatchingItemsFails(itemIds: seq<ItemId>, getEntity: ItemId -> Option<Item>, property: PropertyId, url: string)
    ensures MatchingItems(itemIds, getEntity, property, url).Failure? <==> exists j :: 0 <= j < |itemIds| && getEntity(itemIds[j]).None?
  {
    if itemIds != [] {
      var n := |itemIds| - 1;
      assert forall j :: 0 <= j < n ==> itemIds[..n][j] == itemIds[j];
      MatchingItemsFails(itemIds[..n], getEntity, property, url);
    }
  }

  /** Every entry of the match list is a candidate's entity with a value statement on `property` equal to `url`. */
  lemma {:induction false} MatchingItemsSound(itemIds: seq<ItemId>, getEntity: ItemId -> Option<Item>, property: PropertyId, url: string)
    requires MatchingItems(itemIds, getEntity, property, url).Success?
    ensures var matches := MatchingItems(itemIds, getEntity, property, url).value;
      forall k :: 0 <= k < |matches| ==>
        && HasUrlStatement(matches[k], property, url)
        && exists j :: 0 <= j < |itemIds| && getEntity(itemIds[j]) == Some(matches[k])
  {
    if itemIds != [] {
      var n := |itemIds| - 1;
      MatchingItemsSound(itemIds[..n], getEntity, property, url);
      var prefix := MatchingItems(itemIds[..n], getEntity, property, url).value;
      var matches := MatchingItems(itemIds, getEntity, property, url).value;
      var item := getEntity(itemIds[n]).value;
      forall k | 0 <= k < |matches|
        ensures HasUrlStatement(matches[k], property, url)
        ensures exists j :: 0 <= j < |itemIds| && getEntity(itemIds[j]) == Some(matches[k])
      {
        if k < |prefix| {
          assert matches[k] == prefix[k];
          var j :| 0 <= j < n && getEntity(itemIds[..n][j]) == Some(prefix[k]);
          assert itemIds[..n][j] == itemIds[j];
        } else {
          assert matches[k] == item;
          UrlCountPositive(item, property, url);
        }
      }
    }
  }

  /** One step of the scan: a successful list is the prefix's list followed by the last candidate's copies. */
  lemma MatchingItemsStep(itemIds: seq<ItemId>, getEntity: ItemId -> Option<Item>, property: PropertyId, url: string)
    requires itemIds != [] && MatchingItems(itemIds, getEntity, property, url).Success?
    ensures var n := |itemIds| - 1;
      && MatchingItems(itemIds[..n], getEntity, property, url).Success?
      && getEntity(itemIds[n]).Some?
      && var item := getEntity(itemIds[n]).value;
         MatchingItems(itemIds, getEntity, property, url).value
           == MatchingItems(itemIds[..n], getEntity, property, url).value + Copies(item, UrlCount(StatementsOn(item.statements, property), url))
  {
  }

  lemma AppendCopies(prefix: seq<Item>, x: Item, y: Item, c: nat)
    ensures |prefix + Copies(y, c)| == |prefix| + c
    ensures x in prefix ==> x in prefix + Copies(y, c)
    ensures c > 0 ==> y in prefix + Copies(y, c)
  {
    if c > 0 {
      assert (prefix + Copies(y, c))[|prefix|] == y;
    }
  }

  /** Every loaded candidate appears in the list as often as its inner-loop count says, at least. */
  lemma {:induction false} MatchingItemsContains(itemIds: seq<ItemId>, getEntity: ItemId -> Option<Item>, property: PropertyId, url: string, j: int, item: Item)
    requires MatchingItems(itemIds, getEntity, property, url).Success?
    requires 0 <= j < |itemIds| && getEntity(itemIds[j]) == Some(item)
    ensures var matches := MatchingItems(itemIds, getEntity, property, url).value;
      var c := UrlCount(StatementsOn(item.statements, property), url);
      |matches| >= c && (c > 0 ==> item in matches)
  {
    var n := |itemIds| - 1;
    MatchingItemsStep(itemIds, getEntity, property, url);
    var matches := MatchingItems(itemIds, getEntity, property, url).value;
    var prefix := MatchingItems(itemIds[..n], getEntity, property, url).value;
    var last := getEntity(itemIds[n]).value;
    var c := UrlCount(StatementsOn(last.statements, property), url);
    assert matches == prefix + Copies(last, c);
    AppendCopies(prefix, item, last, c);
    if j < n {
      assert getEntity(itemIds[..n][j]) == Some(item);
      MatchingItemsContains(itemIds[..n], getEntity, property, url, j, item);
    } else {
      assert last == item;
    }
  }

  /** Every candidate entity contributes one entry per matching statement: it is in the list when it has one,
      and the list is at least as long as its number of matching statements. */
  lemma MatchingItemsComplete(itemIds: seq<ItemId>, getEntity: ItemId -> Option<Item>, property: PropertyId, url: string, j: int, item: Item)
    requires MatchingItems(itemIds, getEntity, property, url).Success?
    requires 0 <= j < |itemIds| && getEntity(itemIds[j]) == Some(item)
    ensures var matches := MatchingItems(itemIds, getEntity, property, url).value;
      && |matches| >= UrlCount(StatementsOn(item.statements, property), url)
      && (HasUrlStatement(item, property, url) ==> item in matches)
  {
    MatchingItemsContains(itemIds, getEntity, property, url, j, item);
    UrlCountPositive(item, property, url);
  }

  /** How many match-list entries a looked-up candidate contributes, by the reference definition. */
  ghost function MatchingStatementsOf(entity: Option<Item>, property: PropertyId, url: string): nat {
    match entity
    case None => 0
    case Some(item) => |UrlStatementIndices(item.statements, property, url)|
  }

  /** Sum over the candidates of their matching statements. */
  ghost function MatchingStatementTotal(itemIds: seq<ItemId>, getEntity: ItemId -> Option<Item>, property: PropertyId, url: string): nat {
    if itemIds == [] then 0
    else
      MatchingStatementTotal(itemIds[..|itemIds| - 1], getEntity, property, url)
        + MatchingStatementsOf(getEntity(itemIds[|itemIds| - 1]), property, url)
  }

  /** The match list has exactly one entry per matching statement of every candidate. */
  lemma {:induction false} MatchingItemsLength(itemIds: seq<ItemId>, getEntity: ItemId -> Option<Item>, property: PropertyId, url: string)
    requires MatchingItems(itemIds, getEntity, property, url).Success?
    ensures |MatchingItems(itemIds, getEntity, property, url).value| == MatchingStatementTotal(itemIds, getEntity, property, url)
  {
    if itemIds != [] {
      var n := |itemIds| - 1;
      MatchingItemsLength(itemIds[..n], getEntity, property, url);
      UrlCountOnProperty(getEntity(itemIds[n]).value.statements, property, url);
    }
  }

  lemma {:induction false} MatchingStatementTotalZero(itemIds: seq<ItemId>, getEntity: ItemId -> Option<Item>, property: PropertyId, url: string)
    requires forall k :: 0 <= k < |itemIds| ==> MatchingStatementsOf(getEntity(itemIds[k]), property, url) == 0
    ensures MatchingStatementTotal(itemIds, getEntity, property, url) == 0
  {
    if itemIds != [] {
      var n := |itemIds| - 1;
      assert forall k :: 0 <= k < n ==> itemIds[..n][k] == itemIds[k];
      MatchingStatementTotalZero(itemIds[..n], getEntity, property, url);
    }
  }

  lemma {:induction false} MatchingStatementTotalOne(itemIds: seq<ItemId>, getEntity: ItemId -> Option<Item>, property: PropertyId, url: string, j: int)
    requires 0 <= j < |itemIds|
    requires forall k :: 0 <= k < |itemIds| && k != j ==> MatchingStatementsOf(getEntity(itemIds[k]), property, url) == 0
    ensures MatchingStatementTotal(itemIds, getEntity, property, url) == MatchingStatementsOf(getEntity(itemIds[j]), property, url)
  {
    var n := |itemIds| - 1;
    assert forall k :: 0 <= k < n ==> itemIds[..n][k] == itemIds[k];
    if j == n {
      MatchingStatementTotalZero(itemIds[..n], getEntity, property, url);
    } else {
      MatchingStatementTotalOne(itemIds[..n], getEntity, property, url, j);
    }
  }

  /** No statement of the item is on the property with the URL iff it contributes nothing. */
  lemma NoMatchingStatements(item: Item, property: PropertyId, url: string)
    ensures MatchingStatementsOf(Some(item), property, url) == 0 <==> !HasUrlStatement(item, property, url)
  {
    var indices := UrlStatementIndices(item.statements, property, url);
    if HasUrlStatement(item, property, url) {
      var i :| 0 <= i < |item.statements| && item.statements[i].property == property && item.statements[i].mainSnak == ValueSnak(url);
      assert i in indices;
    }
  }

  /** One candidate with two distinct statements holding the URL already yields two entries. */
  lemma TwoUrlStatementsTwoEntries(item: Item, property: PropertyId, url: string, a: int, b: int)
    requires 0 <= a < |item.statements| && 0 <= b < |item.statements| && a != b
    requires item.statements[a].property == property && item.statements[a].mainSnak == ValueSnak(url)
    requires item.statements[b].property == property && item.statements[b].mainSnak == ValueSnak(url)
    ensures UrlCount(StatementsOn(item.statements, property), url) >= 2
  {
    UrlCountOnProperty(item.statements, property, url);
    var indices := UrlStatementIndices(item.statements, property, url);
    assert a in indices && b in indices;
    var rest := indices - {a};
    assert b in rest;
    assert indices == rest + {a};
    assert |rest| >= 1;
  }

  // ---------------------------------------------------------------------------
  // Stage 4: the base and the save call

  /** The base of the edit: the unique match with its latest concrete revision, or a fresh item with a newly minted id. */
  datatype Base = ExistingBase(item: Item, revId: int) | MintedBase(item: Item)

  /** The `$baseRevId` passed to the save: a revision id, or `false` for a minted base. */
  datatype BaseRevId = BaseRevision(revId: int) | NoBaseRevision

  datatype SaveFlags = NoFlags | EditNew

  /** What the endpoint passes to EditEntity: the entity, the target id, the base revision, the summary and the flags. */
  datatype SaveCall = SaveCall(entity: Item, target: Option<ItemId>, baseRevId: BaseRevId, summary: string, flags: SaveFlags)

  /** Chooses the base from the match list; `freshId` is the number the id generator would return. */
  function SelectBase(matches: seq<Item>, latestRevision: Option<ItemId> -> LatestRevision, freshId: nat): (r: Result<Base, Error>)
    ensures |matches| > 1 ==> r == Failure(MultipleMatches)
    ensures |matches| == 1 ==>
      match latestRevision(matches[0].id)
      case ConcreteRevision(rev) => r == Success(ExistingBase(matches[0], rev))
      case _ => r == Failure(RevisionLookupFault)
    ensures matches == [] ==>
      && r.Success? && r.value.MintedBase? && r.value.item.id == Some(ItemId(freshId))
      && r.value.item.statements == [] && r.value.item.sitelinkCount == 0
  {
    if |matches| > 1 then Failure(MultipleMatches)
    else if |matches| == 1 then
      match latestRevision(matches[0].id)
      case ConcreteRevision(rev) => Success(ExistingBase(matches[0], rev))
      case Redirect => Failure(RevisionLookupFault)
      case NonexistentEntity => Failure(RevisionLookupFault)
    else Success(MintedBase(NewItem(ItemId(freshId))))
  }

  function BaseRevIdOf(base: Base): BaseRevId {
    match base
    case ExistingBase(_, rev) => BaseRevision(rev)
    case MintedBase(_) => NoBaseRevision
  }

  /** `$baseRevId ? null : EDIT_NEW`: PHP truthiness, so `false` and a revision id of 0 both select EDIT_NEW. */
  function FlagsFor(baseRevId: BaseRevId): SaveFlags {
    if baseRevId.BaseRevision? && baseRevId.revId != 0 then NoFlags else EditNew
  }

  /** The put strategy keeps the base's id (the save targets `$toSave->getId()`). */
  ghost predicate ApplyKeepsId(apply: (Item, Item) -> Item) {
    forall base, input :: apply(base, input).id == base.id
  }

  /** The single save call for a base and the validated input item. */
  function SaveCallFor(base: Base, input: Item, apply: (Item, Item) -> Item): (call: SaveCall)
    ensures call.entity == apply(base.item, input) && call.target == call.entity.id
    ensures ApplyKeepsId(apply) ==> call.target == base.item.id
    ensures call.flags == EditNew <==> base.MintedBase? || base.revId == 0
    ensures call.baseRevId == NoBaseRevision <==> base.MintedBase?
    ensures base.ExistingBase? ==> call.baseRevId == BaseRevision(base.revId)
    ensures call.summary == EDIT_SUMMARY
  {
    var toSave := apply(base.item, input);
    var baseRevId := BaseRevIdOf(base);
    SaveCall(toSave, toSave.id, baseRevId, EDIT_SUMMARY, FlagsFor(baseRevId))
  }

  // ---------------------------------------------------------------------------
  // The whole decision

  datatype Plan = Plan(base: Base, call: SaveCall)

  /** The candidate item ids for a validated request. */
  function Candidates(v: Validated, services: Services): seq<ItemId> {
    ItemIdsFromPageIds(services.pageIdsContainingUrl(v.url), services.entityIdForPage)
  }

  /** What run() decides for a request: an error, or the base and the one save call. */
  function Decide(request: EditRequest, services: Services, freshId: nat): (r: Result<Plan, Error>)
    ensures r.Success? ==> Validate(request, services).Success?
    ensures r.Success? ==>
      var v := Validate(request, services).value;
      var matches := MatchingItems(Candidates(v, services), services.getEntity, v.property, v.url);
      && matches.Success? && |matches.value| <= 1
      && (|matches.value| == 1 <==> r.value.base.ExistingBase?)
      && (r.value.base.ExistingBase? ==>
            && r.value.base.item == matches.value[0]
            && services.latestRevision(r.value.base.item.id) == ConcreteRevision(r.value.base.revId))
      && (r.value.base.MintedBase? ==> r.value.base.item == NewItem(ItemId(freshId)))
      && r.value.call == SaveCallFor(r.value.base, v.item, services.apply)
  {
    var v :- Validate(request, services);
    var matches :- MatchingItems(Candidates(v, services), services.getEntity, v.property, v.url);
    var base :- SelectBase(matches, services.latestRevision, freshId);
    Success(Plan(base, SaveCallFor(base, v.item, services.apply)))
  }

  /** Decide stage by stage: the first failing stage's error, or the plan built from the selected base. */
  lemma DecideByStages(request: EditRequest, services: Services, freshId: nat)
    ensures Validate(request, services).Failure? ==> Decide(request, services, freshId) == Failure(Validate(request, services).error)
    ensures Validate(request, services).Success? ==>
      var v := Validate(request, services).value;
      var matches := MatchingItems(Candidates(v, services), services.getEntity, v.property, v.url);
      && (matches.Failure? ==> Decide(request, services, freshId) == Failure(matches.error))
      && (matches.Success? ==>
            var base := SelectBase(matches.value, services.latestRevision, freshId);
            && (base.Failure? ==> Decide(request, services, freshId) == Failure(base.error))
            && (base.Success? ==> Decide(request, services, freshId) == Success(Plan(base.value, SaveCallFor(base.value, v.item, services.apply)))))
  {
  }

  /** The request fails with EntityNotFound exactly when validation passed and some candidate's
      entity is missing: no validation stage and no base selection gives that error. */
  lemma DecideEntityNotFound(request: EditRequest, services: Services, freshId: nat)
    ensures Decide(request, services, freshId) == Failure(EntityNotFound) <==>
      && Validate(request, services).Success?
      && var candidates := Candidates(Validate(request, services).value, services);
         exists j :: 0 <= j < |candidates| && services.getEntity(candidates[j]).None?
  {
    if Validate(request, services).Success? {
      var v := Validate(request, services).value;
      MatchingItemsFails(Candidates(v, services), services.getEntity, v.property, v.url);
    }
  }

  /** The request aborts with MultipleMatches exactly when validation passed, every candidate entity
      loaded, and more than one entry was collected. */
  lemma AmbiguousMatchAborts(request: EditRequest, services: Services, freshId: nat)
    ensures Decide(request, services, freshId) == Failure(MultipleMatches) <==>
      && Validate(request, services).Success?
      && var v := Validate(request, services).value;
         var matches := MatchingItems(Candidates(v, services), services.getEntity, v.property, v.url);
         matches.Success? && |matches.value| > 1
  {
  }

  /** A single candidate carrying the URL in two statements on the property makes the request ambiguous. */
  lemma OneItemTwoStatementsIsAmbiguous(request: EditRequest, services: Services, freshId: nat, j: int, a: int, b: int)
    requires Validate(request, services).Success?
    requires var v := Validate(request, services).value;
      var candidates := Candidates(v, services);
      && (forall k :: 0 <= k < |candidates| ==> services.getEntity(candidates[k]).Some?)
      && 0 <= j < |candidates|
      && var item := services.getEntity(candidates[j]).value;
         && 0 <= a < |item.statements| && 0 <= b < |item.statements| && a != b
         && item.statements[a].property == v.property && item.statements[a].mainSnak == ValueSnak(v.url)
         && item.statements[b].property == v.property && item.statements[b].mainSnak == ValueSnak(v.url)
    ensures Decide(request, services, freshId) == Failure(MultipleMatches)
  {
    var v := Validate(request, services).value;
    var candidates := Candidates(v, services);
    var item := services.getEntity(candidates[j]).value;
    TwoUrlStatementsTwoEntries(item, v.property, v.url, a, b);
    MatchingItemsFails(candidates, services.getEntity, v.property, v.url);
    MatchingItemsComplete(candidates, services.getEntity, v.property, v.url, j, item);
    AmbiguousMatchAborts(request, services, freshId);
  }

  /** When every candidate loads, candidate `j` holds the URL in exactly one statement on the property
      and no other candidate holds it, the match list is that candidate alone. */
  lemma UniqueMatchList(itemIds: seq<ItemId>, getEntity: ItemId -> Option<Item>, property: PropertyId, url: string, j: int)
    requires forall k :: 0 <= k < |itemIds| ==> getEntity(itemIds[k]).Some?
    requires 0 <= j < |itemIds|
    requires |UrlStatementIndices(getEntity(itemIds[j]).value.statements, property, url)| == 1
    requires forall k :: 0 <= k < |itemIds| && k != j ==> !HasUrlStatement(getEntity(itemIds[k]).value, property, url)
    ensures MatchingItems(itemIds, getEntity, property, url) == Success([getEntity(itemIds[j]).value])
  {
    var item := getEntity(itemIds[j]).value;
    MatchingItemsFails(itemIds, getEntity, property, url);
    assert MatchingStatementTotal(itemIds, getEntity, property, url) == 1 by {
      forall k | 0 <= k < |itemIds| && k != j
        ensures MatchingStatementsOf(getEntity(itemIds[k]), property, url) == 0
      {
        NoMatchingStatements(getEntity(itemIds[k]).value, property, url);
      }
      MatchingStatementTotalOne(itemIds, getEntity, property, url, j);
    }
    MatchingItemsLength(itemIds, getEntity, property, url);
    NoMatchingStatements(item, property, url);
    MatchingItemsComplete(itemIds, getEntity, property, url, j, item);
    SingletonOf(MatchingItems(itemIds, getEntity, property, url).value, item);
  }

  lemma SingletonOf(s: seq<Item>, x: Item)
    requires |s| == 1 && x in s
    ensures s == [x]
  {
  }

  /** When every candidate loads and none holds the URL on the property, the match list is empty. */
  lemma NoMatchList(itemIds: seq<ItemId>, getEntity: ItemId -> Option<Item>, property: PropertyId, url: string)
    requires forall k :: 0 <= k < |itemIds| ==> getEntity(itemIds[k]).Some? && !HasUrlStatement(getEntity(itemIds[k]).value, property, url)
    ensures MatchingItems(itemIds, getEntity, property, url) == Success([])
  {
    MatchingItemsFails(itemIds, getEntity, property, url);
    forall k | 0 <= k < |itemIds|
      ensures MatchingStatementsOf(getEntity(itemIds[k]), property, url) == 0
    {
      NoMatchingStatements(getEntity(itemIds[k]).value, property, url);
    }
    MatchingStatementTotalZero(itemIds, getEntity, property, url);
    MatchingItemsLength(itemIds, getEntity, property, url);
  }

  /** With such a unique match, the request edits that candidate at its latest concrete revision. */
  lemma UniqueMatchBecomesBase(request: EditRequest, services: Services, freshId: nat, j: int, rev: int)
    requires Validate(request, services).Success?
    requires var v := Validate(request, services).value;
      var candidates := Candidates(v, services);
      && (forall k :: 0 <= k < |candidates| ==> services.getEntity(candidates[k]).Some?)
      && 0 <= j < |candidates|
      && |UrlStatementIndices(services.getEntity(candidates[j]).value.statements, v.property, v.url)| == 1
      && (forall k :: 0 <= k < |candidates| && k != j ==> !HasUrlStatement(services.getEntity(candidates[k]).value, v.property, v.url))
      && services.latestRevision(services.getEntity(candidates[j]).value.id) == ConcreteRevision(rev)
    ensures var v := Validate(request, services).value;
      var base := ExistingBase(services.getEntity(Candidates(v, services)[j]).value, rev);
      Decide(request, services, freshId) == Success(Plan(base, SaveCallFor(base, v.item, services.apply)))
  {
    var v := Validate(request, services).value;
    UniqueMatchList(Candidates(v, services), services.getEntity, v.property, v.url, j);
  }

  /** When every candidate loads and none holds the URL on the property, the request creates a new item
      carrying the fresh id, saved with EDIT_NEW. */
  lemma NoMatchMintsNewItem(request: EditRequest, services: Services, freshId: nat)
    requires Validate(request, services).Success?
    requires var v := Validate(request, services).value;
      var candidates := Candidates(v, services);
      forall k :: 0 <= k < |candidates| ==>
        services.getEntity(candidates[k]).Some? && !HasUrlStatement(services.getEntity(candidates[k]).value, v.property, v.url)
    ensures var v := Validate(request, services).value;
      var base := MintedBase(NewItem(ItemId(freshId)));
      && Decide(request, services, freshId) == Success(Plan(base, SaveCallFor(base, v.item, services.apply)))
      && SaveCallFor(base, v.item, services.apply).flags == EditNew
  {
    var v := Validate(request, services).value;
    NoMatchList(Candidates(v, services), services.getEntity, v.property, v.url);
  }

  /** Validation runs before any candidate lookup: a request it rejects gets the same error whatever the
      index, the entity lookups, the revision lookup, the put strategy and the id generator would do. */
  lemma ValidationPrecedesLookups(request: EditRequest, s1: Services, s2: Services, fresh1: nat, fresh2: nat)
    requires s1.datatypeOf == s2.datatypeOf && s1.deserialize == s2.deserialize
    requires Validate(request, s1).Failure?
    ensures Decide(request, s1, fresh1) == Decide(request, s2, fresh2) == Failure(Validate(request, s1).error)
  {
  }

  /** The saved entity goes to the unique match's id, or to the freshly minted id, and only a minted
      base (or a revision id of 0) is saved with EDIT_NEW. */
  lemma SaveTargetIsMatchOrFresh(request: EditRequest, services: Services, freshId: nat)
    requires ApplyKeepsId(services.apply)
    requires Decide(request, services, freshId).Success?
    ensures var plan := Decide(request, services, freshId).value;
      var v := Validate(request, services).value;
      var matches := MatchingItems(Candidates(v, services), services.getEntity, v.property, v.url).value;
      && (matches == [] ==>
            && plan.call.target == Some(ItemId(freshId)) && plan.call.flags == EditNew
            && plan.call.baseRevId == NoBaseRevision)
      && (|matches| == 1 ==> plan.call.target == matches[0].id && plan.call.baseRevId == BaseRevision(plan.base.revId))
  {
  }
}
