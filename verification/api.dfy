/**
 * The REST handler itself: the endpoint object with its entity-id lookup field,
 * the two loops of run() (page ids to item ids, and the match list), and run()
 * proved against `Reconciliation.Decide`. The repository's stateful services,
 * the id generator and the save, are the methods of `Repo`.
 */
module Api {
  import opened Wrappers
  import opened Wikibase
  import opened Reconciliation

  /** The JSON response: `[ 'success' => $saveStatus->isGood() ]`. */
  datatype Response = Response(success: bool)

  /** The repository's id generator (a counter) and the entity store's save, whose verdict is `accepts`. */
  class Repo {
    var lastId: nat
    var saves: seq<SaveCall>
    ghost var issued: set<nat>
    const accepts: SaveCall -> bool

    /** Every id handed out so far is at most the counter. */
    ghost predicate Valid()
      reads this
    {
      forall id :: id in issued ==> id <= lastId
    }

    constructor (lastId: nat, accepts: SaveCall -> bool)
      ensures Valid() && this.lastId == lastId && issued == {} && saves == [] && this.accepts == accepts
    {
      this.lastId := lastId;
      this.accepts := accepts;
      issued := {};
      saves := [];
    }

    /** IdGenerator::getNewId( 'wikibase-item' ): a number never handed out before. */
    method NewId() returns (id: nat)
      requires Valid()
      modifies this`lastId, this`issued
      ensures Valid()
      ensures id == old(lastId) + 1 && lastId == id
      ensures id !in old(issued) && issued == old(issued) + {id}
    {
      lastId := lastId + 1;
      id := lastId;
      issued := issued + {id};
    }

    /** EditEntity::attemptSave: recorded once; the status is the store's verdict. */
    method AttemptSave(call: SaveCall) returns (good: bool)
      modifies this`saves
      ensures saves == old(saves) + [call]
      ensures good == accepts(call)
    {
      saves := saves + [call];
      good := accepts(call);
    }
  }

  class EditEndpoint {
    /** Assigned by run() before anything else; read by GetItemIdsFromPageIds. */
    var entityIdLookup: Option<int -> Option<EntityId>>

    constructor ()
      ensures entityIdLookup == None
    {
      entityIdLookup := None;
    }

    /** getItemIdsFromPageIds: keeps, in page order, the ids of the pages that resolve to items. */
    method GetItemIdsFromPageIds(pageIds: seq<int>) returns (itemIds: seq<ItemId>)
      requires entityIdLookup.Some?
      ensures itemIds == ItemIdsFromPageIds(pageIds, entityIdLookup.value)
    {
      var lookup := entityIdLookup.value;
      itemIds := [];
      for i := 0 to |pageIds|
        invariant itemIds == ItemIdsFromPageIds(pageIds[..i], lookup)
      {
        var entityId := lookup(pageIds[i]);
        if entityId.Some? && entityId.value.ItemEntityId? {
          itemIds := itemIds + [entityId.value.itemId];
        }
        assert pageIds[..i + 1][..i] == pageIds[..i];
      }
      assert pageIds[..|pageIds|] == pageIds;
    }

    /** The nested loop of run(): fetch each candidate and append it once per value statement on
        `property` whose string is exactly `url`; non-value snaks are skipped. */
    method FindItemsMatchingUrl(itemIds: seq<ItemId>, getEntity: ItemId -> Option<Item>, property: PropertyId, url: string)
      returns (r: Result<seq<Item>, Error>)
      ensures r == MatchingItems(itemIds, getEntity, property, url)
    {
      var matches: seq<Item> := [];
      for i := 0 to |itemIds|
        invariant MatchingItems(itemIds[..i], getEntity, property, url) == Success(matches)
      {
        assert itemIds[..i + 1][..i] == itemIds[..i];
        var entity := getEntity(itemIds[i]);
        if entity.None? {
          MatchingItemsFails(itemIds, getEntity, property, url);
          return Failure(EntityNotFound);
        }
        var item := entity.value;
        var onProperty := StatementsOn(item.statements, property);
        ghost var before := matches;
        for k := 0 to |onProperty|
          invariant matches == before + Copies(item, UrlCount(onProperty[..k], url))
        {
          assert onProperty[..k + 1][..k] == onProperty[..k];
          match onProperty[k].mainSnak {
            case ValueSnak(value) =>
              if value == url {
                matches := matches + [item];
              }
            case _ =>
          }
        }
        assert onProperty[..|onProperty|] == onProperty;
      }
      assert itemIds[..|itemIds|] == itemIds;
      r := Success(matches);
    }

    /** run(): validate, reconcile, choose the base, and attempt exactly one save. On any error nothing
        is minted and nothing is saved; the id generator is called only when nothing matched. */
    method Run(request: EditRequest, services: Services, repo: Repo) returns (r: Result<Response, Error>)
      requires repo.Valid()
      modifies this, repo
      ensures repo.Valid()
      ensures entityIdLookup == Some(services.entityIdForPage)
      ensures var d := Decide(request, services, old(repo.lastId) + 1);
        if d.Failure? then
          && r == Failure(d.error)
          && repo.lastId == old(repo.lastId) && repo.saves == old(repo.saves) && repo.issued == old(repo.issued)
        else
          && r == Success(Response(repo.accepts(d.value.call)))
          && repo.saves == old(repo.saves) + [d.value.call]
          && repo.lastId == (if d.value.base.MintedBase? then old(repo.lastId) + 1 else old(repo.lastId))
          && repo.issued == (if d.value.base.MintedBase? then old(repo.issued) + {old(repo.lastId) + 1} else old(repo.issued))
    {
      entityIdLookup := Some(services.entityIdForPage);
      DecideByStages(request, services, old(repo.lastId) + 1);
      var validated := Validate(request, services);
      if validated.Failure? {
        return Failure(validated.error);
      }
      var v := validated.value;
      var itemIds := GetItemIdsFromPageIds(services.pageIdsContainingUrl(v.url));
      var matches := FindItemsMatchingUrl(itemIds, services.getEntity, v.property, v.url);
      if matches.Failure? {
        return Failure(matches.error);
      }
      if |matches.value| > 1 {
        return Failure(MultipleMatches);
      }
      ghost var selected := SelectBase(matches.value, services.latestRevision, old(repo.lastId) + 1);
      var base: Base;
      if |matches.value| == 1 {
        var item := matches.value[0];
        match services.latestRevision(item.id) {
          case ConcreteRevision(revId) =>
            base := ExistingBase(item, revId);
            assert selected == Success(base);
          case _ =>
            assert selected == Failure(RevisionLookupFault);
            return Failure(RevisionLookupFault);
        }
      } else {
        var id := repo.NewId();
        base := MintedBase(NewItem(ItemId(id)));
        assert selected == Success(base);
      }
      var call := SaveCallFor(base, v.item, services.apply);
      var good := repo.AttemptSave(call);
      r := Success(Response(good));
    }
  }
}
