/**
  Properties that relate several store operations: the invariant every
  operation keeps, what `getActiveCakeId` reports after each operation, and
  the independence of a duplicated cake from its source.
 */
module StoreProperties {
  import opened Lists
  import opened Types
  import opened Storage
  import Themes

  /**
    The store invariant: when an index exists, its ids are unique, its
    active id (if set) names one of its cakes, and every cake has a
    pick-list key.
   */
  ghost predicate StoreInvariant(s: Store) {
    match LoadIndex(s)
    case None => true
    case Some(idx) =>
      && IndexInvariant(idx)
      && forall i :: 0 <= i < |idx.cakes| ==> CakeKey(idx.cakes[i].id) in s
  }

  /** The ids in an index extended by one cake. */
  lemma IdsAppend(cakes: seq<CakeMeta>, m: CakeMeta)
    ensures Ids(cakes + [m]) == Ids(cakes) + [m.id]
  {
  }

  /** Creating a cake with an id not yet in the index keeps the invariant. */
  lemma CreatePreservesInvariant(s: Store, name: string, picks: seq<Pick>, themeId: string, id: string, now: int)
    requires StoreInvariant(s)
    requires id !in Ids(StoredCakes(s))
    ensures StoreInvariant(CreateNewCake(s, name, picks, themeId, id, now).store)
  {
    var r := CreateNewCake(s, name, picks, themeId, id, now);
    var before := StoredCakes(s);
    var after := r.result.index.cakes;
    assert after == before + [r.result.meta];
    IdsAppend(before, r.result.meta);
    forall i, j | 0 <= i < j < |after| ensures after[i].id != after[j].id {
      if j == |before| {
        assert after[i].id == Ids(before)[i];
      }
    }
    forall i | 0 <= i < |after| ensures CakeKey(after[i].id) in r.store {
      if i < |before| {
        assert CakeKey(before[i].id) in s;
      }
    }
  }

  /** Activating a cake of the index keeps the invariant. */
  lemma SetActivePreservesInvariant(s: Store, id: string)
    requires StoreInvariant(s)
    requires id in Ids(StoredCakes(s))
    ensures StoreInvariant(SetActiveCake(s, id))
  {
  }

  /** Rename, retheme and touch keep the invariant and the ids of every cake. */
  lemma MetaUpdatesPreserveInvariant(s: Store, id: string, name: string, themeId: string, now: int)
    requires StoreInvariant(s)
    ensures StoreInvariant(UpdateCakeMetaName(s, id, name, now))
    ensures StoreInvariant(UpdateCakeTheme(s, id, themeId, now))
    ensures StoreInvariant(TouchCakeUpdated(s, id, now))
    ensures Ids(StoredCakes(UpdateCakeMetaName(s, id, name, now))) == Ids(StoredCakes(s))
    ensures Ids(StoredCakes(UpdateCakeTheme(s, id, themeId, now))) == Ids(StoredCakes(s))
    ensures Ids(StoredCakes(TouchCakeUpdated(s, id, now))) == Ids(StoredCakes(s))
  {
    UpdateKeepsIds(s, UpdateCakeMetaName(s, id, name, now));
    UpdateKeepsIds(s, UpdateCakeTheme(s, id, themeId, now));
    UpdateKeepsIds(s, TouchCakeUpdated(s, id, now));
  }

  /** `after` holds the same cakes' ids as `before`, position by position, and the same active id. */
  predicate SameIdsAndActive(before: CakesIndex, after: CakesIndex) {
    && |after.cakes| == |before.cakes|
    && after.activeId == before.activeId
    && forall i :: 0 <= i < |before.cakes| ==> after.cakes[i].id == before.cakes[i].id
  }

  /** A store change that keeps every cake's id and the active id keeps the invariant. */
  lemma UpdateKeepsIds(s: Store, r: Store)
    requires StoreInvariant(s)
    requires SameOutside(s, r, {IndexKey})
    requires LoadIndex(s).None? ==> r == s
    requires LoadIndex(s).Some? ==> LoadIndex(r).Some? && SameIdsAndActive(LoadIndex(s).value, LoadIndex(r).value)
    ensures Ids(StoredCakes(r)) == Ids(StoredCakes(s))
    ensures StoreInvariant(r)
  {
    if LoadIndex(s).Some? {
      var before := LoadIndex(s).value.cakes;
      var after := LoadIndex(r).value.cakes;
      assert Ids(after) == Ids(before);
      forall i | 0 <= i < |after| ensures CakeKey(after[i].id) in r {
        assert CakeKey(before[i].id) in s;
      }
    }
  }

  /** Deleting a cake keeps the invariant. */
  lemma DeletePreservesInvariant(s: Store, id: string)
    requires StoreInvariant(s)
    ensures StoreInvariant(DeleteCake(s, id).store)
  {
    var r := DeleteCake(s, id);
    if LoadIndex(s).Some? {
      var before := LoadIndex(s).value;
      var after := r.result.value;
      RemainingUnique(before.cakes, id);
      DeleteKeepsActiveValid(before, id);
      forall i | 0 <= i < |after.cakes| ensures CakeKey(after.cakes[i].id) in r.store {
        var c := after.cakes[i];
        var j :| 0 <= j < |before.cakes| && before.cakes[j] == c;
        assert CakeKey(before.cakes[j].id) in s;
        CakeKeyInjective(c.id, id);
      }
    }
  }

  /** After a delete, the active id (if any) still names one of the remaining cakes. */
  lemma DeleteKeepsActiveValid(idx: CakesIndex, id: string)
    requires IndexInvariant(idx)
    ensures var a := ActiveAfterDelete(idx, id);
      a.Some? ==> a.value in Ids(Remaining(idx.cakes, id))
  {
    var a := ActiveAfterDelete(idx, id);
    var rest := Remaining(idx.cakes, id);
    if a.Some? {
      if idx.activeId == Some(id) {
        FirstRemainingIsFirstOther(idx.cakes, id);
        assert rest[0].id == a.value;
        assert Ids(rest)[0] == a.value;
      } else {
        var j :| 0 <= j < |idx.cakes| && idx.cakes[j].id == a.value;
        assert idx.cakes[j] in rest;
        var m :| 0 <= m < |rest| && rest[m] == idx.cakes[j];
        assert Ids(rest)[m] == a.value;
      }
    }
  }

  /** Removing cakes from a list with unique ids leaves unique ids. */
  lemma {:induction false} RemainingUnique(cakes: seq<CakeMeta>, id: string)
    requires UniqueIds(cakes)
    ensures UniqueIds(Remaining(cakes, id))
  {
    if |cakes| > 0 {
      var tail := cakes[1..];
      assert UniqueIds(tail) by {
        forall i, j | 0 <= i < j < |tail| ensures tail[i].id != tail[j].id {
          assert tail[i] == cakes[i + 1] && tail[j] == cakes[j + 1];
        }
      }
      RemainingUnique(tail, id);
      if cakes[0].id != id {
        var rest := Remaining(tail, id);
        assert Remaining(cakes, id) == [cakes[0]] + rest;
        forall i | 0 <= i < |rest| ensures rest[i].id != cakes[0].id {
          var j :| 0 <= j < |tail| && tail[j] == rest[i];
          assert tail[j] == cakes[j + 1];
        }
      } else {
        assert Remaining(cakes, id) == Remaining(tail, id);
      }
    }
  }

  /** Duplicating into an id not yet in the index keeps the invariant. */
  lemma DuplicatePreservesInvariant(s: Store, id: string, newName: Option<string>, newId: string, now: int)
    requires StoreInvariant(s)
    requires newId !in Ids(StoredCakes(s))
    ensures StoreInvariant(DuplicateCake(s, id, newName, newId, now).store)
  {
    match LoadIndex(s)
    case None =>
    case Some(idx) =>
      match FindCake(idx.cakes, id)
      case None =>
      case Some(k) =>
        var src := idx.cakes[k];
        var name := if Truthy(newName) then newName.value else "Copy of " + src.name;
        CreatePreservesInvariant(s, name, LoadCakePicks(s, id), src.themeId.GetOr(Themes.DefaultThemeId), newId, now);
  }

  /**
    After creating a cake, the active id, the index's active id and the
    stored picks all refer to the new cake.
   */
  lemma CreateThenActive(s: Store, name: string, picks: seq<Pick>, themeId: string, id: string, now: int)
    requires id != ""
    ensures var r := CreateNewCake(s, name, picks, themeId, id, now).store;
      && GetActiveCakeId(r) == Some(id)
      && LoadIndex(r).value.activeId == Some(id)
      && LoadCakePicks(r, id) == picks
  {
  }

  /** After activating a cake of an existing index, `getActiveCakeId` reports it. */
  lemma SetActiveThenActive(s: Store, id: string)
    requires LoadIndex(s).Some? && id != ""
    ensures GetActiveCakeId(SetActiveCake(s, id)) == Some(id)
  {
  }

  /**
    With no index, `setActiveCake` writes nothing, so `getActiveCakeId` keeps
    reporting the old pointer.
   */
  lemma SetActiveWithoutIndex(s: Store, id: string)
    requires LoadIndex(s).None?
    ensures GetActiveCakeId(SetActiveCake(s, id)) == ReadPointer(s)
  {
  }

  /** After deleting a cake its pick list reads as empty. */
  lemma DeleteDropsPicks(s: Store, id: string)
    requires LoadIndex(s).Some?
    ensures LoadCakePicks(DeleteCake(s, id).store, id) == []
  {
  }

  /**
    Deleting the active cake of a two-cake index makes the other cake active
    and rewrites the pointer to it.
   */
  lemma DeleteActiveOfTwo(s: Store, a: CakeMeta, b: CakeMeta)
    requires a.id != b.id && b.id != ""
    requires LoadIndex(s) == Some(CakesIndex([a, b], Some(a.id)))
    ensures var r := DeleteCake(s, a.id);
      && r.result == Some(CakesIndex([b], Some(b.id)))
      && GetActiveCakeId(r.store) == Some(b.id)
  {
    assert Remaining([a, b], a.id) == [b] by {
      assert [a, b][1..] == [b];
      assert [b][1..] == [];
      assert Remaining([b], a.id) == [b] + Remaining([], a.id);
    }
  }

  /**
    Deleting the only, active cake empties the index and clears its active
    id, but leaves the pointer in place: `getActiveCakeId` then still reports
    the deleted id, which no cake of the index carries any more.
   */
  lemma DeleteLastCakeLeavesStalePointer(s: Store, m: CakeMeta)
    requires m.id != ""
    requires LoadIndex(s) == Some(CakesIndex([m], Some(m.id)))
    requires ReadPointer(s) == Some(m.id)
    ensures var r := DeleteCake(s, m.id).store;
      && LoadIndex(r) == Some(CakesIndex([], None))
      && GetActiveCakeId(r) == Some(m.id)
      && LoadCakePicks(r, m.id) == []
  {
    assert Remaining([m], m.id) == [];
  }

  /**
    The stale id is reachable from an empty store: create one cake, delete
    it, and `getActiveCakeId` still names it.
   */
  lemma CreateDeleteResurrects(name: string, picks: seq<Pick>, themeId: string, id: string, now: int)
    requires id != ""
    ensures var s1 := CreateNewCake(map[], name, picks, themeId, id, now).store;
      var s2 := DeleteCake(s1, id).store;
      && StoredCakes(s2) == []
      && GetActiveCakeId(s2) == Some(id)
  {
    var c := CreateNewCake(map[], name, picks, themeId, id, now);
    assert c.result.index == CakesIndex([c.result.meta], Some(id));
    DeleteLastCakeLeavesStalePointer(c.store, c.result.meta);
  }

  /**
    A duplicate is independent of its source: overwriting the duplicate's
    picks leaves the source's stored picks as they were before duplication.
   */
  lemma DuplicateIndependent(s: Store, id: string, newName: Option<string>, newId: string, now: int, edited: seq<Pick>)
    requires newId != id
    requires LoadIndex(s).Some? && FindCake(LoadIndex(s).value.cakes, id).Some?
    ensures var d := DuplicateCake(s, id, newName, newId, now).store;
      && LoadCakePicks(SaveCakePicks(d, newId, edited), id) == LoadCakePicks(s, id)
      && LoadCakePicks(SaveCakePicks(d, newId, edited), newId) == edited
  {
    var d := DuplicateCake(s, id, newName, newId, now).store;
    PicksRoundTrip(d, newId, edited, id);
  }
}
