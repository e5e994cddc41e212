/** The rock resource handler: create, list and destroy over a store of
    rocks, with the caller's user id passed in explicitly. */
module RockViews {
  import opened Rocks
  import opened RockSerializers

  /** Which rocks a listing shows. */
  datatype Filter = AllOwners | OwnedBy(user: UserId)

  predicate Selected(rock: Rock, f: Filter)
  {
    match f
    case AllOwners => true
    case OwnedBy(u) => rock.ownerId == u
  }

  /** The `owner` query parameter narrows the listing to the caller's rocks
      when, and only when, it is present and equal to "current". */
  function OwnerFilter(owner: Option<string>, caller: UserId): (f: Filter)
    ensures f.OwnedBy? <==> owner == Some("current")
    ensures f.OwnedBy? ==> f.user == caller
  {
    if owner.Some? && owner.value == "current" then OwnedBy(caller) else AllOwners
  }

  /** The serialized rocks with id below `bound` that the filter selects,
      in ascending id order. */
  function Listing(rocks: map<RockId, Rock>, types: map<TypeId, Type>, users: map<UserId, User>, f: Filter, bound: nat): (r: seq<SerializedRock>)
    requires WellFormed(rocks, types, users)
    decreases bound
  {
    if bound == 0 then []
    else
      var id := bound - 1;
      var earlier := Listing(rocks, types, users, f, id);
      if id in rocks && Selected(rocks[id], f) then earlier + [Serialize(id, rocks[id], types, users)]
      else earlier
  }

  /** The entry, if any, that rock `id` contributes to a listing. */
  function Entry(rocks: map<RockId, Rock>, types: map<TypeId, Type>, users: map<UserId, User>, f: Filter, id: RockId): (e: seq<SerializedRock>)
    requires WellFormed(rocks, types, users)
    ensures |e| <= 1
    ensures |e| == 1 <==> id in rocks && Selected(rocks[id], f)
    ensures |e| == 1 ==> e[0].id == id
  {
    if id in rocks && Selected(rocks[id], f) then [Serialize(id, rocks[id], types, users)] else []
  }

  lemma ListingStep(rocks: map<RockId, Rock>, types: map<TypeId, Type>, users: map<UserId, User>, f: Filter, bound: nat)
    requires WellFormed(rocks, types, users) && bound > 0
    ensures Listing(rocks, types, users, f, bound) ==
      Listing(rocks, types, users, f, bound - 1) + Entry(rocks, types, users, f, bound - 1)
  {
  }

  /** How many entries of `views` carry the id `id`. */
  function Occurrences(views: seq<SerializedRock>, id: RockId): (n: nat)
    ensures n <= |views|
  {
    if views == [] then 0
    else Occurrences(views[..|views| - 1], id) + (if views[|views| - 1].id == id then 1 else 0)
  }

  /** `views` without the entries that carry the id `id`. */
  function Without(views: seq<SerializedRock>, id: RockId): (r: seq<SerializedRock>)
    ensures |r| <= |views|
  {
    if views == [] then []
    else Without(views[..|views| - 1], id) + (if views[|views| - 1].id == id then [] else [views[|views| - 1]])
  }

  lemma OccurrencesSnoc(views: seq<SerializedRock>, e: seq<SerializedRock>, id: RockId)
    requires |e| <= 1
    ensures Occurrences(views + e, id) == Occurrences(views, id) + (if |e| == 1 && e[0].id == id then 1 else 0)
  {
    if |e| == 1 {
      assert (views + e)[..|views + e| - 1] == views;
    } else {
      assert views + e == views;
    }
  }

  lemma WithoutSnoc(views: seq<SerializedRock>, e: seq<SerializedRock>, id: RockId)
    requires |e| <= 1
    ensures Without(views + e, id) == Without(views, id) + (if |e| == 1 && e[0].id == id then [] else e)
  {
    if |e| == 1 {
      assert (views + e)[..|views + e| - 1] == views;
    } else {
      assert views + e == views;
    }
  }

  lemma {:induction false} OccurrencesBelow(views: seq<SerializedRock>, id: RockId)
    requires forall i :: 0 <= i < |views| ==> views[i].id < id
    ensures Occurrences(views, id) == 0
  {
    if views != [] {
      OccurrencesBelow(views[..|views| - 1], id);
    }
  }

  /** A listing holds each selected rock exactly once and nothing else. */
  lemma {:induction false} ListedOnce(rocks: map<RockId, Rock>, types: map<TypeId, Type>, users: map<UserId, User>, f: Filter, bound: nat, id: RockId)
    requires WellFormed(rocks, types, users)
    ensures Occurrences(Listing(rocks, types, users, f, bound), id) ==
      if id < bound && id in rocks && Selected(rocks[id], f) then 1 else 0
  {
    if bound > 0 {
      var last := bound - 1;
      var earlier := Listing(rocks, types, users, f, last);
      ListedOnce(rocks, types, users, f, last, id);
      ListingStep(rocks, types, users, f, bound);
      OccurrencesSnoc(earlier, Entry(rocks, types, users, f, last), id);
      if id == last {
        ListingSound(rocks, types, users, f, last);
        OccurrencesBelow(earlier, id);
      }
    }
  }

  /** Every entry of a listing is the representation of a stored rock below
      the bound that the filter selects. */
  lemma {:induction false} ListingSound(rocks: map<RockId, Rock>, types: map<TypeId, Type>, users: map<UserId, User>, f: Filter, bound: nat)
    requires WellFormed(rocks, types, users)
    ensures forall i :: 0 <= i < |Listing(rocks, types, users, f, bound)| ==>
      && Listing(rocks, types, users, f, bound)[i].id < bound && Listing(rocks, types, users, f, bound)[i].id in rocks && Selected(rocks[Listing(rocks, types, users, f, bound)[i].id], f)
      && Listing(rocks, types, users, f, bound)[i] == Serialize(Listing(rocks, types, users, f, bound)[i].id, rocks[Listing(rocks, types, users, f, bound)[i].id], types, users)
  {
    if bound > 0 {
      ListingSound(rocks, types, users, f, bound - 1);
      ListingStep(rocks, types, users, f, bound);
    }
  }

  /** A listing is in strictly ascending id order. */
  lemma {:induction false} ListingAscending(rocks: map<RockId, Rock>, types: map<TypeId, Type>, users: map<UserId, User>, f: Filter, bound: nat)
    requires WellFormed(rocks, types, users)
    ensures forall i, j :: 0 <= i < j < |Listing(rocks, types, users, f, bound)| ==> Listing(rocks, types, users, f, bound)[i].id < Listing(rocks, types, users, f, bound)[j].id
  {
    if bound > 0 {
      ListingAscending(rocks, types, users, f, bound - 1);
      ListingSound(rocks, types, users, f, bound - 1);
      ListingStep(rocks, types, users, f, bound);
    }
  }

  /** Listing beyond the largest stored id adds nothing. */
  lemma {:induction false} ListingBoundIrrelevant(rocks: map<RockId, Rock>, types: map<TypeId, Type>, users: map<UserId, User>, f: Filter, low: nat, high: nat)
    requires WellFormed(rocks, types, users)
    requires low <= high && forall id :: id in rocks ==> id < low
    ensures Listing(rocks, types, users, f, low) == Listing(rocks, types, users, f, high)
    decreases high
  {
    if low < high {
      ListingBoundIrrelevant(rocks, types, users, f, low, high - 1);
      ListingStep(rocks, types, users, f, high);
      assert high - 1 !in rocks;
    }
  }

  lemma WellFormedRemove(rocks: map<RockId, Rock>, types: map<TypeId, Type>, users: map<UserId, User>, id: RockId)
    requires WellFormed(rocks, types, users)
    ensures WellFormed(rocks - {id}, types, users)
  {
  }

  lemma WellFormedInsert(rocks: map<RockId, Rock>, types: map<TypeId, Type>, users: map<UserId, User>, id: RockId, rock: Rock)
    requires WellFormed(rocks, types, users) && rock.typeId in types && rock.ownerId in users
    ensures WellFormed(rocks[id := rock], types, users)
  {
    var more := rocks[id := rock];
    forall k | k in more ensures more[k].typeId in types && more[k].ownerId in users {
      if k != id { assert more[k] == rocks[k]; }
    }
  }

  lemma EntryAfterRemove(rocks: map<RockId, Rock>, types: map<TypeId, Type>, users: map<UserId, User>, f: Filter, key: RockId, id: RockId)
    requires WellFormed(rocks, types, users) && WellFormed(rocks - {id}, types, users)
    ensures Entry(rocks - {id}, types, users, f, key) == if key == id then [] else Entry(rocks, types, users, f, key)
  {
    if key != id && key in rocks {
      assert (rocks - {id})[key] == rocks[key];
    }
  }

  lemma EntryAfterInsert(rocks: map<RockId, Rock>, types: map<TypeId, Type>, users: map<UserId, User>, f: Filter, key: RockId, id: RockId, rock: Rock)
    requires WellFormed(rocks, types, users) && WellFormed(rocks[id := rock], types, users)
    requires id !in rocks
    ensures var e := Entry(rocks[id := rock], types, users, f, key);
      (if |e| == 1 && e[0].id == id then [] else e) == Entry(rocks, types, users, f, key)
  {
    if key != id && key in rocks {
      assert rocks[id := rock][key] == rocks[key];
    }
  }

  /** Removing a rock from the store removes exactly its entry from every
      listing, and keeps the order of the others. */
  lemma {:induction false} ListingAfterRemove(rocks: map<RockId, Rock>, types: map<TypeId, Type>, users: map<UserId, User>, f: Filter, bound: nat, id: RockId)
    requires WellFormed(rocks, types, users)
    ensures WellFormed(rocks - {id}, types, users)
    ensures Listing(rocks - {id}, types, users, f, bound) == Without(Listing(rocks, types, users, f, bound), id)
  {
    var rest := rocks - {id};
    WellFormedRemove(rocks, types, users, id);
    if bound > 0 {
      var last := bound - 1;
      ListingAfterRemove(rocks, types, users, f, last, id);
      ListingStep(rocks, types, users, f, bound);
      ListingStep(rest, types, users, f, bound);
      var entry := Entry(rocks, types, users, f, last);
      calc {
        Without(Listing(rocks, types, users, f, bound), id);
        Without(Listing(rocks, types, users, f, last) + entry, id);
        { WithoutSnoc(Listing(rocks, types, users, f, last), entry, id); }
        Without(Listing(rocks, types, users, f, last), id) + (if |entry| == 1 && entry[0].id == id then [] else entry);
        { EntryAfterRemove(rocks, types, users, f, last, id); }
        Listing(rest, types, users, f, last) + Entry(rest, types, users, f, last);
        Listing(rest, types, users, f, bound);
      }
    }
  }

  /** Adding a rock under a fresh id leaves every other entry of a listing
      as it was, in the same order. */
  lemma {:induction false} ListingAfterInsert(rocks: map<RockId, Rock>, types: map<TypeId, Type>, users: map<UserId, User>, f: Filter, bound: nat, id: RockId, rock: Rock)
    requires WellFormed(rocks, types, users)
    requires id !in rocks && rock.typeId in types && rock.ownerId in users
    ensures WellFormed(rocks[id := rock], types, users)
    ensures Without(Listing(rocks[id := rock], types, users, f, bound), id) == Listing(rocks, types, users, f, bound)
  {
    var more := rocks[id := rock];
    WellFormedInsert(rocks, types, users, id, rock);
    if bound > 0 {
      var last := bound - 1;
      ListingAfterInsert(rocks, types, users, f, last, id, rock);
      ListingStep(rocks, types, users, f, bound);
      ListingStep(more, types, users, f, bound);
      var entry := Entry(more, types, users, f, last);
      calc {
        Without(Listing(more, types, users, f, bound), id);
        Without(Listing(more, types, users, f, last) + entry, id);
        { WithoutSnoc(Listing(more, types, users, f, last), entry, id); }
        Without(Listing(more, types, users, f, last), id) + (if |entry| == 1 && entry[0].id == id then [] else entry);
        { EntryAfterInsert(rocks, types, users, f, last, id, rock); }
        Listing(rocks, types, users, f, last) + Entry(rocks, types, users, f, last);
        Listing(rocks, types, users, f, bound);
      }
    }
  }

  /** The rock handler over its store. `nextId` stands for the database's
      key sequence: every stored id lies below it. */
  class RockView {
    var rocks: map<RockId, Rock>
    var types: map<TypeId, Type>
    var users: map<UserId, User>
    var nextId: RockId

    ghost predicate Valid()
      reads this
    {
      && WellFormed(rocks, types, users)
      && forall id :: id in rocks ==> id < nextId
    }

    /** An empty rock table over the given reference data. */
    constructor (types: map<TypeId, Type>, users: map<UserId, User>)
      ensures Valid()
      ensures this.rocks == map[] && this.types == types && this.users == users
    {
      this.rocks := map[];
      this.types := types;
      this.users := users;
      this.nextId := 0;
    }

    /** POST: look the type up, then build and save a rock owned by the
        caller and answer with its representation. */
    method Create(caller: UserId, data: CreateRequest) returns (r: Response)
      requires Valid() && caller in users
      modifies this
      ensures Valid()
      ensures types == old(types) && users == old(users)
      ensures data.typeId.None? ==> r == InternalError && rocks == old(rocks)
      ensures data.typeId.Some? && data.typeId.value !in types ==>
        r == NotFound(TypeNotFound) && rocks == old(rocks)
      ensures data.typeId.Some? && data.typeId.value in types && (data.weight.None? || data.name.None?) ==>
        r == InternalError && rocks == old(rocks)
      ensures data.typeId.Some? && data.typeId.value in types && data.weight.Some? && data.name.Some? ==>
        && r.Created?
        && r.rock.id !in old(rocks)
        && rocks == old(rocks)[r.rock.id := Rock(data.name.value, data.weight.value, caller, data.typeId.value)]
        && r.rock == Serialize(r.rock.id, rocks[r.rock.id], types, users)
        && r.rock.user == SerializeOwner(users[caller])
        && r.rock.rockType.typeLabel == types[data.typeId.value].typeLabel
      ensures !r.Created? ==> nextId == old(nextId)
      ensures r.Created? ==> forall owner, u :: Without(List(owner, u).rocks, r.rock.id) == old(List(owner, u)).rocks
    {
      if data.typeId.None? {
        return InternalError;
      }
      var typeId := data.typeId.value;
      if typeId !in types {
        return NotFound(TypeNotFound);
      }
      if data.weight.None? || data.name.None? {
        return InternalError;
      }
      var id := nextId;
      var rock := Rock(data.name.value, data.weight.value, caller, typeId);
      ghost var before := rocks;
      rocks := rocks[id := rock];
      nextId := nextId + 1;
      r := Created(Serialize(id, rock, types, users));
      forall owner, u ensures Without(List(owner, u).rocks, id) == Listing(before, types, users, OwnerFilter(owner, u), id) {
        ListingAfterInsert(before, types, users, OwnerFilter(owner, u), nextId, id, rock);
        ListingBoundIrrelevant(before, types, users, OwnerFilter(owner, u), id, nextId);
      }
    }

    /** GET: every rock, or only the caller's when `owner` is "current". */
    function List(owner: Option<string>, caller: UserId): (r: Response)
      reads this
      requires Valid()
      ensures r.Ok?
      ensures forall i :: 0 <= i < |r.rocks| ==>
        && r.rocks[i].id in rocks
        && (owner == Some("current") ==> rocks[r.rocks[i].id].ownerId == caller)
        && r.rocks[i] == Serialize(r.rocks[i].id, rocks[r.rocks[i].id], types, users)
      ensures forall id :: Occurrences(r.rocks, id) ==
                           (if id in rocks && (owner == Some("current") ==> rocks[id].ownerId == caller) then 1 else 0)
      ensures forall i, j :: 0 <= i < j < |r.rocks| ==> r.rocks[i].id < r.rocks[j].id
    {
      var f := OwnerFilter(owner, caller);
      var listing := Listing(rocks, types, users, f, nextId);
      ListingSound(rocks, types, users, f, nextId);
      ListingAscending(rocks, types, users, f, nextId);
      assert forall x :: x in rocks ==> (Selected(rocks[x], f) <==> (owner == Some("current") ==> rocks[x].ownerId == caller));
      assert forall id :: Occurrences(listing, id) ==
                          (if id in rocks && (owner == Some("current") ==> rocks[id].ownerId == caller) then 1 else 0)
      by {
        forall id ensures Occurrences(listing, id) ==
          if id in rocks && (owner == Some("current") ==> rocks[id].ownerId == caller) then 1 else 0
        {
          ListedOnce(rocks, types, users, f, nextId, id);
        }
      }
      Ok(listing)
    }

    /** DELETE: only the owner may remove a rock. */
    method Destroy(id: RockId, caller: UserId) returns (r: Response)
      requires Valid()
      modifies this
      ensures Valid()
      ensures types == old(types) && users == old(users) && nextId == old(nextId)
      ensures id !in old(rocks) ==> r == NotFound(RockNotFound) && rocks == old(rocks)
      ensures id in old(rocks) && old(rocks)[id].ownerId == caller ==>
        r == NoContent && rocks == old(rocks) - {id}
      ensures id in old(rocks) && old(rocks)[id].ownerId != caller ==>
        r == Forbidden(NotOwner) && rocks == old(rocks)
      ensures r == NoContent ==> forall owner, u :: List(owner, u).rocks == Without(old(List(owner, u)).rocks, id)
    {
      if id !in rocks {
        return NotFound(RockNotFound);
      }
      if rocks[id].ownerId == caller {
        ghost var before := rocks;
        rocks := rocks - {id};
        forall owner, u ensures List(owner, u).rocks == Without(Listing(before, types, users, OwnerFilter(owner, u), nextId), id) {
          ListingAfterRemove(before, types, users, OwnerFilter(owner, u), nextId, id);
        }
        return NoContent;
      }
      return Forbidden(NotOwner);
    }
  }

  /** The owner's delete succeeds once; the same delete again, by anyone,
      finds nothing. */
  method DestroyTwice(view: RockView, id: RockId, caller: UserId, anyone: UserId) returns (first: Response, second: Response)
    requires view.Valid() && id in view.rocks && view.rocks[id].ownerId == caller
    modifies view
    ensures first == NoContent && second == NotFound(RockNotFound)
    ensures view.rocks == old(view.rocks) - {id}
  {
    first := view.Destroy(id, caller);
    second := view.Destroy(id, anyone);
  }

  /** A rock created by A, refused to B's delete, still listed, then
      deleted by A; a second delete finds nothing. */
  method OwnershipScenario() returns (created: Response, refused: Response, listed: Response, deleted: Response, again: Response)
    ensures created.Created? && created.rock.name == "Obsidian" && created.rock.weight == 5.0
    ensures created.rock.user == OwnerFields("A", "Adams") && created.rock.rockType == TypeFields("Igneous")
    ensures refused == Forbidden(NotOwner)
    ensures listed.Ok? && Occurrences(listed.rocks, created.rock.id) == 1
    ensures deleted == NoContent && again == NotFound(RockNotFound)
  {
    var a, b := 1, 2;
    var users := map[a := User("a", "A", "Adams", "a@example.org"), b := User("b", "B", "Brown", "b@example.org")];
    var view := new RockView(map[1 := Type("Igneous")], users);
    created := view.Create(a, CreateRequest(Some(1), Some(5.0), Some("Obsidian")));
    var id := created.rock.id;
    refused := view.Destroy(id, b);
    listed := view.List(None, b);
    deleted := view.Destroy(id, a);
    again := view.Destroy(id, b);
  }
}
