/**
  The records the application stores and edits: a flag ("pick") planted in a
  cake, the metadata of one saved cake, and the index of all saved cakes.
 */
module Types {
  import opened Lists

  /**
    One flag on the cake top. Its position is polar: `angle` in radians and
    `radius` from the centre; `height` is the constant top-of-cake height.
   */
  datatype Pick = Pick(id: string, text: string, angle: real, radius: real, height: real)

  /**
    Metadata of one saved cake; timestamps are epoch milliseconds. `themeId`
    is optional because records written before themes existed lack it.
   */
  datatype CakeMeta = CakeMeta(id: string, name: string, createdAt: int, updatedAt: int, themeId: Option<string>)

  /** The directory of saved cakes, in creation order, and the active one. */
  datatype CakesIndex = CakesIndex(cakes: seq<CakeMeta>, activeId: Option<string>)

  /** The ids of `cakes`, position by position. */
  function Ids(cakes: seq<CakeMeta>): (ids: seq<string>)
    ensures |ids| == |cakes|
    ensures forall i :: 0 <= i < |cakes| ==> ids[i] == cakes[i].id
  {
    seq(|cakes|, i requires 0 <= i < |cakes| => cakes[i].id)
  }

  /** No two cakes share an id. */
  predicate UniqueIds(cakes: seq<CakeMeta>) {
    forall i, j :: 0 <= i < j < |cakes| ==> cakes[i].id != cakes[j].id
  }

  /**
    The index invariant the store maintains: ids are unique and the active
    id, when set, names a cake of the index.
   */
  predicate IndexInvariant(idx: CakesIndex) {
    && UniqueIds(idx.cakes)
    && (idx.activeId.Some? ==> idx.activeId.value in Ids(idx.cakes))
  }
}
