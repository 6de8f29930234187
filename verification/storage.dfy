/**
  The local cake store. Saved cakes live in a string-keyed key-value store
  under three kinds of key: one fixed key for the index of all cakes, one
  fixed key for the last active cake id, and one key per cake, derived from
  its id, for that cake's pick list. Every operation is a read-modify-write
  of these keys, modelled as a pure transition from one store to the next.

  Stored values are typed documents. A key that holds something other than
  the document its reader expects reads as a parse failure: no index, or an
  empty pick list. The clock and the id generator are parameters.
 */
module Storage {
  import opened Lists
  import opened Types
  import Themes

  const IndexKey: string := "ac_cakes_index_v1"
  const ActiveKey: string := "ac_active_cake_v1"

  /** What a key holds: a serialised index, a serialised pick list, or raw text. */
  datatype Value = IndexDoc(index: CakesIndex) | PicksDoc(picks: seq<Pick>) | Raw(text: string)

  type Store = map<string, Value>

  /** An operation's new store together with what it returns to its caller. */
  datatype Step<T> = Step(store: Store, result: T)

  /** What creating a cake returns: the new id, its metadata and the new index. */
  datatype Created = Created(id: string, meta: CakeMeta, index: CakesIndex)

  /** The key of a cake's pick list; it never collides with the two fixed keys. */
  function CakeKey(id: string): (k: string)
    ensures |k| == |id| + 11
    ensures k != IndexKey && k != ActiveKey
  {
    var k := "ac_cake_" + id + "_v1";
    assert k[7] == '_' && IndexKey[7] == 's';
    assert k[3] == 'c' && ActiveKey[3] == 'a';
    k
  }

  /** Distinct cakes have distinct pick-list keys. */
  lemma CakeKeyInjective(a: string, b: string)
    ensures CakeKey(a) == CakeKey(b) <==> a == b
  {
    if CakeKey(a) == CakeKey(b) {
      assert |a| == |b|;
      forall i | 0 <= i < |a| ensures a[i] == b[i] {
        assert CakeKey(a)[8 + i] == a[i];
        assert CakeKey(b)[8 + i] == b[i];
      }
    }
  }

  /** The two stores agree on every key outside `keys`. */
  ghost predicate SameOutside(s: Store, t: Store, keys: set<string>) {
    forall k :: k !in keys ==> (k in s <==> k in t) && (k in s ==> s[k] == t[k])
  }

  /** JavaScript truthiness of an optional string: present and non-empty. */
  predicate Truthy(o: Option<string>) {
    o.Some? && o.value != ""
  }

  /** `loadIndex`: the stored index, or none when absent or unreadable. */
  function LoadIndex(s: Store): (r: Option<CakesIndex>)
    ensures r.Some? <==> IndexKey in s && s[IndexKey].IndexDoc?
    ensures r.Some? ==> s[IndexKey] == IndexDoc(r.value)
  {
    if IndexKey in s && s[IndexKey].IndexDoc? then Some(s[IndexKey].index) else None
  }

  /** `saveIndex`: overwrite the index key with `idx`. */
  function SaveIndex(s: Store, idx: CakesIndex): (r: Store)
    ensures LoadIndex(r) == Some(idx)
    ensures SameOutside(s, r, {IndexKey})
  {
    s[IndexKey := IndexDoc(idx)]
  }

  /** `loadCakePicks`: the stored pick list, or empty when absent or unreadable. */
  function LoadCakePicks(s: Store, id: string): (r: seq<Pick>)
    ensures CakeKey(id) in s && s[CakeKey(id)].PicksDoc? ==> r == s[CakeKey(id)].picks
    ensures !(CakeKey(id) in s && s[CakeKey(id)].PicksDoc?) ==> r == []
  {
    var k := CakeKey(id);
    if k in s && s[k].PicksDoc? then s[k].picks else []
  }

  /** `saveCakePicks`: overwrite the cake's pick-list key with `picks`. */
  function SaveCakePicks(s: Store, id: string, picks: seq<Pick>): (r: Store)
    ensures SameOutside(s, r, {CakeKey(id)})
    ensures CakeKey(id) in r
  {
    s[CakeKey(id) := PicksDoc(picks)]
  }

  /** Saving then loading a pick list gives it back; other cakes keep theirs. */
  lemma PicksRoundTrip(s: Store, id: string, picks: seq<Pick>, other: string)
    requires other != id
    ensures LoadCakePicks(SaveCakePicks(s, id, picks), id) == picks
    ensures LoadCakePicks(SaveCakePicks(s, id, picks), other) == LoadCakePicks(s, other)
    ensures LoadIndex(SaveCakePicks(s, id, picks)) == LoadIndex(s)
  {
    CakeKeyInjective(id, other);
  }

  /** The raw last-active pointer, when it holds a non-empty id. */
  function ReadPointer(s: Store): (r: Option<string>)
    ensures Truthy(r) <==> r.Some?
    ensures r.Some? ==> ActiveKey in s && s[ActiveKey] == Raw(r.value)
    ensures r.None? ==> ActiveKey !in s || !s[ActiveKey].Raw? || s[ActiveKey].text == ""
  {
    if ActiveKey in s && s[ActiveKey].Raw? && s[ActiveKey].text != "" then Some(s[ActiveKey].text) else None
  }

  /**
    `getActiveCakeId`: the index's active id when it is set and non-empty,
    otherwise the last-active pointer, otherwise none.
   */
  function GetActiveCakeId(s: Store): (r: Option<string>)
    ensures r.None? || r.value != ""
    ensures LoadIndex(s).Some? && Truthy(LoadIndex(s).value.activeId) ==> r == LoadIndex(s).value.activeId
    ensures !(LoadIndex(s).Some? && Truthy(LoadIndex(s).value.activeId)) ==> r == ReadPointer(s)
  {
    var idx := LoadIndex(s);
    if idx.Some? && Truthy(idx.value.activeId) then idx.value.activeId
    else ReadPointer(s)
  }

  /** The cakes recorded in the store, or none when it holds no index. */
  function StoredCakes(s: Store): seq<CakeMeta> {
    match LoadIndex(s)
    case Some(idx) => idx.cakes
    case None => []
  }

  /**
    `createNewCake`: append a new cake with the fresh `id` and the time `now`,
    make it active, and write its picks, the index and the pointer.
   */
  function CreateNewCake(s: Store, name: string, initialPicks: seq<Pick>, themeId: string, id: string, now: int): (r: Step<Created>)
    ensures r.result.id == id
    ensures r.result.meta == CakeMeta(id, name, now, now, Some(themeId))
    ensures r.result.index.cakes == StoredCakes(s) + [r.result.meta]
    ensures r.result.index.activeId == Some(id)
    ensures LoadIndex(r.store) == Some(r.result.index)
    ensures LoadCakePicks(r.store, id) == initialPicks
    ensures ActiveKey in r.store && r.store[ActiveKey] == Raw(id)
    ensures SameOutside(s, r.store, {IndexKey, ActiveKey, CakeKey(id)})
  {
    var meta := CakeMeta(id, name, now, now, Some(themeId));
    var newIdx := match LoadIndex(s)
      case Some(idx) => CakesIndex(idx.cakes + [meta], Some(id))
      case None => CakesIndex([meta], Some(id));
    var s1 := SaveCakePicks(s, id, initialPicks);
    var s2 := SaveIndex(s1, newIdx);
    Step(s2[ActiveKey := Raw(id)], Created(id, meta, newIdx))
  }

  /**
    `setActiveCake`: with no index nothing changes; otherwise the index's
    active id and the pointer become `id` and nothing else changes.
   */
  function SetActiveCake(s: Store, id: string): (r: Store)
    ensures LoadIndex(s).None? ==> r == s
    ensures LoadIndex(s).Some? ==> LoadIndex(r) == Some(LoadIndex(s).value.(activeId := Some(id)))
    ensures LoadIndex(s).Some? ==> ActiveKey in r && r[ActiveKey] == Raw(id)
    ensures SameOutside(s, r, {IndexKey, ActiveKey})
  {
    match LoadIndex(s)
    case None => s
    case Some(idx) => SaveIndex(s, idx.(activeId := Some(id)))[ActiveKey := Raw(id)]
  }

  predicate HasId(id: string, c: CakeMeta) {
    c.id == id
  }

  /** `cakes.find(c => c.id === id)`: the position of the first cake with `id`. */
  function FindCake(cakes: seq<CakeMeta>, id: string): (r: Option<nat>)
    ensures r.Some? ==> r.value < |cakes| && cakes[r.value].id == id
    ensures r.Some? ==> forall j :: 0 <= j < r.value ==> cakes[j].id != id
    ensures r.None? <==> id !in Ids(cakes)
  {
    FindIndex(cakes, (c: CakeMeta) => HasId(id, c))
  }

  /**
    `after` is `before` with only the cake at position `k` replaced by `m`:
    same length, same order, same active id.
   */
  predicate OnlyCakeChanged(before: CakesIndex, after: CakesIndex, k: nat, m: CakeMeta) {
    && k < |before.cakes|
    && |after.cakes| == |before.cakes|
    && after.activeId == before.activeId
    && after.cakes[k] == m
    && forall i :: 0 <= i < |before.cakes| && i != k ==> after.cakes[i] == before.cakes[i]
  }

  /**
    The shared read-modify-write of the three metadata updates: find the
    first cake with `id` and replace it by `change` of it; no index or no
    such cake leaves the store as it is.
   */
  function UpdateMeta(s: Store, id: string, change: CakeMeta -> CakeMeta): (r: Store)
    ensures LoadIndex(s).None? ==> r == s
    ensures LoadIndex(s).Some? && FindCake(LoadIndex(s).value.cakes, id).None? ==> r == s
    ensures LoadIndex(s).Some? && FindCake(LoadIndex(s).value.cakes, id).Some? ==>
      var before := LoadIndex(s).value;
      var k := FindCake(before.cakes, id).value;
      LoadIndex(r).Some? && OnlyCakeChanged(before, LoadIndex(r).value, k, change(before.cakes[k]))
    ensures SameOutside(s, r, {IndexKey})
  {
    match LoadIndex(s)
    case None => s
    case Some(idx) =>
      match FindCake(idx.cakes, id)
      case None => s
      case Some(k) => SaveIndex(s, idx.(cakes := idx.cakes[k := change(idx.cakes[k])]))
  }

  /** `updateCakeMetaName`: rename the cake with `id` and stamp it with `now`. */
  function UpdateCakeMetaName(s: Store, id: string, name: string, now: int): (r: Store)
    ensures LoadIndex(s).None? || FindCake(LoadIndex(s).value.cakes, id).None? ==> r == s
    ensures LoadIndex(s).Some? && FindCake(LoadIndex(s).value.cakes, id).Some? ==>
      var before := LoadIndex(s).value;
      var k := FindCake(before.cakes, id).value;
      LoadIndex(r).Some? && OnlyCakeChanged(before, LoadIndex(r).value, k, before.cakes[k].(name := name, updatedAt := now))
    ensures SameOutside(s, r, {IndexKey})
  {
    UpdateMeta(s, id, (c: CakeMeta) => c.(name := name, updatedAt := now))
  }

  /** `updateCakeTheme`: set the theme of the cake with `id` and stamp it with `now`. */
  function UpdateCakeTheme(s: Store, id: string, themeId: string, now: int): (r: Store)
    ensures LoadIndex(s).None? || FindCake(LoadIndex(s).value.cakes, id).None? ==> r == s
    ensures LoadIndex(s).Some? && FindCake(LoadIndex(s).value.cakes, id).Some? ==>
      var before := LoadIndex(s).value;
      var k := FindCake(before.cakes, id).value;
      LoadIndex(r).Some? && OnlyCakeChanged(before, LoadIndex(r).value, k, before.cakes[k].(themeId := Some(themeId), updatedAt := now))
    ensures SameOutside(s, r, {IndexKey})
  {
    UpdateMeta(s, id, (c: CakeMeta) => c.(themeId := Some(themeId), updatedAt := now))
  }

  /** `touchCakeUpdated`: stamp the cake with `id` with `now`. */
  function TouchCakeUpdated(s: Store, id: string, now: int): (r: Store)
    ensures LoadIndex(s).None? || FindCake(LoadIndex(s).value.cakes, id).None? ==> r == s
    ensures LoadIndex(s).Some? && FindCake(LoadIndex(s).value.cakes, id).Some? ==>
      var before := LoadIndex(s).value;
      var k := FindCake(before.cakes, id).value;
      LoadIndex(r).Some? && OnlyCakeChanged(before, LoadIndex(r).value, k, before.cakes[k].(updatedAt := now))
    ensures SameOutside(s, r, {IndexKey})
  {
    UpdateMeta(s, id, (c: CakeMeta) => c.(updatedAt := now))
  }

  predicate NotId(id: string, c: CakeMeta) {
    c.id != id
  }

  /** The cakes other than those with `id`, in their original order. */
  function Remaining(cakes: seq<CakeMeta>, id: string): (r: seq<CakeMeta>)
    ensures forall i :: 0 <= i < |r| ==> r[i].id != id && r[i] in cakes
    ensures forall i :: 0 <= i < |cakes| && cakes[i].id != id ==> cakes[i] in r
  {
    Filter(cakes, (c: CakeMeta) => NotId(id, c))
  }

  /** The active id after deleting `id`: moved to the first remaining cake if `id` was active. */
  function ActiveAfterDelete(idx: CakesIndex, id: string): (r: Option<string>)
    ensures idx.activeId != Some(id) ==> r == idx.activeId
    ensures idx.activeId == Some(id) ==>
      match FindIndex(idx.cakes, (c: CakeMeta) => NotId(id, c))
      case Some(k) => r == Some(idx.cakes[k].id)
      case None => r.None?
  {
    FirstRemainingIsFirstOther(idx.cakes, id);
    if idx.activeId == Some(id) then
      var rest := Remaining(idx.cakes, id);
      if |rest| > 0 then Some(rest[0].id) else None
    else idx.activeId
  }

  /**
    `deleteCake`: remove every cake with `id` from the index, reassign the
    active id if it was `id`, drop the cake's pick list and, only when the
    new active id is non-empty, rewrite the pointer. Returns the new index,
    or none (and no change) when the store holds no index.
   */
  function DeleteCake(s: Store, id: string): (r: Step<Option<CakesIndex>>)
    ensures LoadIndex(s).None? ==> r.store == s && r.result.None?
    ensures LoadIndex(s).Some? ==>
      && r.result.Some?
      && LoadIndex(r.store) == r.result
      && r.result.value.cakes == Remaining(LoadIndex(s).value.cakes, id)
      && CakeKey(id) !in r.store
    ensures LoadIndex(s).Some? && LoadIndex(s).value.activeId != Some(id) ==>
      r.result.value.activeId == LoadIndex(s).value.activeId
    ensures LoadIndex(s).Some? && LoadIndex(s).value.activeId == Some(id) ==>
      var before := LoadIndex(s).value.cakes;
      match FindIndex(before, (c: CakeMeta) => NotId(id, c))
      case Some(k) => r.result.value.activeId == Some(before[k].id)
      case None => r.result.value.activeId == None
    ensures LoadIndex(s).Some? && Truthy(r.result.value.activeId) ==>
      ActiveKey in r.store && r.store[ActiveKey] == Raw(r.result.value.activeId.value)
    ensures LoadIndex(s).Some? && !Truthy(r.result.value.activeId) ==>
      SameOutside(s, r.store, {IndexKey, CakeKey(id)})
    ensures SameOutside(s, r.store, {IndexKey, ActiveKey, CakeKey(id)})
  {
    match LoadIndex(s)
    case None => Step(s, None)
    case Some(idx) =>
      var newIdx := CakesIndex(Remaining(idx.cakes, id), ActiveAfterDelete(idx, id));
      FirstRemainingIsFirstOther(idx.cakes, id);
      var s1 := SaveIndex(s, newIdx) - {CakeKey(id)};
      var s2 := if Truthy(newIdx.activeId) then s1[ActiveKey := Raw(newIdx.activeId.value)] else s1;
      Step(s2, Some(newIdx))
  }

  lemma FirstRemainingIsFirstOther(cakes: seq<CakeMeta>, id: string)
    ensures |Remaining(cakes, id)| > 0 <==> FindIndex(cakes, (c: CakeMeta) => NotId(id, c)).Some?
    ensures |Remaining(cakes, id)| > 0 ==>
      Remaining(cakes, id)[0] == cakes[FindIndex(cakes, (c: CakeMeta) => NotId(id, c)).value]
  {
    FilterHeadIsFirstKept(cakes, (c: CakeMeta) => NotId(id, c));
  }

  /**
    `duplicateCake`: copy the cake with `id` into a new cake (fresh id
    `newId`, time `now`) named `newName` or "Copy of" the source's name, with
    the source's theme and stored picks. None, and no change, when the store
    holds no index or no cake with `id`.
   */
  function DuplicateCake(s: Store, id: string, newName: Option<string>, newId: string, now: int): (r: Step<Option<Created>>)
    ensures LoadIndex(s).None? || FindCake(LoadIndex(s).value.cakes, id).None? ==> r.store == s && r.result.None?
    ensures LoadIndex(s).Some? && FindCake(LoadIndex(s).value.cakes, id).Some? ==>
      var src := LoadIndex(s).value.cakes[FindCake(LoadIndex(s).value.cakes, id).value];
      var name := if Truthy(newName) then newName.value else "Copy of " + src.name;
      && r.result.Some?
      && r.result.value.id == newId
      && r.result.value.meta == CakeMeta(newId, name, now, now, Some(src.themeId.GetOr(Themes.DefaultThemeId)))
      && r.result.value.index.cakes == LoadIndex(s).value.cakes + [r.result.value.meta]
      && r.result.value.index.activeId == Some(newId)
      && LoadIndex(r.store) == Some(r.result.value.index)
      && LoadCakePicks(r.store, newId) == LoadCakePicks(s, id)
      && (newId != id ==> LoadCakePicks(r.store, id) == LoadCakePicks(s, id))
      && ActiveKey in r.store && r.store[ActiveKey] == Raw(newId)
    ensures SameOutside(s, r.store, {IndexKey, ActiveKey, CakeKey(newId)})
  {
    match LoadIndex(s)
    case None => Step(s, None)
    case Some(idx) =>
      match FindCake(idx.cakes, id)
      case None => Step(s, None)
      case Some(k) =>
        var src := idx.cakes[k];
        var picks := LoadCakePicks(s, id);
        var name := if Truthy(newName) then newName.value else "Copy of " + src.name;
        var c := CreateNewCake(s, name, picks, src.themeId.GetOr(Themes.DefaultThemeId), newId, now);
        CakeKeyInjective(id, newId);
        Step(c.store, Some(c.result))
  }
}
