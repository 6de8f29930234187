/**
  The colour themes a cake can use, identified by a short id, and the lookup
  that resolves a cake's theme id with a fall-back to the default theme.
 */
module Themes {
  import opened Lists

  /**
    A theme; only the id and the display label are modelled, not the colours.
    The label field is called `title` because `label` is a reserved word in Dafny.
   */
  datatype Theme = Theme(id: string, title: string)

  const DefaultThemeId: string := "chocolate"

  /** The theme table, in its declared order. */
  const Table: seq<Theme> := [
    Theme("vanilla", "Vanilla Minimal"),
    Theme("chocolate", "Chocolate"),
    Theme("red-velvet", "Red Velvet")
  ]

  predicate InTable(id: string) {
    exists k :: 0 <= k < |Table| && Table[k].id == id
  }

  /** `themes.find(t => t.id === id)`. */
  function FindTheme(id: string): (r: Option<Theme>)
    ensures r.Some? ==> r.value in Table && r.value.id == id
    ensures r.None? <==> !InTable(id)
  {
    match FindIndex(Table, (t: Theme) => t.id == id)
    case Some(k) => Some(Table[k])
    case None => None
  }

  /** The table entry whose id is the default id; it always exists. */
  function DefaultTheme(): (t: Theme)
    ensures t in Table && t.id == DefaultThemeId
  {
    assert Table[1].id == DefaultThemeId;
    FindTheme(DefaultThemeId).value
  }

  /**
    The theme for an optional id: a missing or empty id, or one the table
    does not hold, resolves to the default theme.
   */
  function GetThemeById(id: Option<string>): (t: Theme)
    ensures t in Table
    ensures (id.None? || id.value == "") ==> t.id == DefaultThemeId
    ensures id.Some? && id.value != "" && InTable(id.value) ==> t.id == id.value
    ensures id.Some? && id.value != "" && !InTable(id.value) ==> t.id == DefaultThemeId
  {
    if id.None? || id.value == "" then DefaultTheme()
    else match FindTheme(id.value)
      case Some(t) => t
      case None => DefaultTheme()
  }

  /** The table's ids are pairwise distinct and include the default id. */
  lemma TableWellFormed()
    ensures forall i, j :: 0 <= i < j < |Table| ==> Table[i].id != Table[j].id
    ensures InTable(DefaultThemeId)
  {
    assert Table[1].id == DefaultThemeId;
  }

  /** Looking a table entry up by its own id yields that very entry. */
  lemma GetThemeByOwnId(k: nat)
    requires k < |Table|
    ensures GetThemeById(Some(Table[k].id)) == Table[k]
  {
    TableWellFormed();
    var t := GetThemeById(Some(Table[k].id));
    var j :| 0 <= j < |Table| && Table[j] == t;
    assert Table[j].id == Table[k].id;
  }
}
