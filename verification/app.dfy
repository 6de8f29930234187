/**
  The application's editing actions on the active cake's pick list, and the
  two file-format rules of export and import: the exported file's name and
  where the picks are found in an imported document.
 */
module AppActions {
  import opened Lists
  import opened Types
  import opened Text
  import opened Placement
  import Storage

  /**
    `addPick`: a blank draft (nothing left after trimming) changes nothing;
    otherwise the placed pick, labelled with the trimmed draft, is appended.
   */
  function AddPick(picks: seq<Pick>, draft: string, id: string, draw: nat -> Candidate, proj: (real, real) -> Point): (r: seq<Pick>)
    ensures AllWhitespace(draft) ==> r == picks
    ensures !AllWhitespace(draft) ==>
      && |r| == |picks| + 1
      && r[..|picks|] == picks
      && r[|picks|].id == id
      && r[|picks|].text == Trim(draft)
      && r[|picks|].height == PickHeight
      && r[|picks|] == Place(picks, Trim(draft), id, draw, proj)
  {
    var text := Trim(draft);
    if text == "" then picks
    else picks + [Place(picks, text, id, draw, proj)]
  }

  predicate HasPickId(id: string, p: Pick) {
    p.id == id
  }

  predicate OtherPickId(id: string, p: Pick) {
    p.id != id
  }

  /**
    `editPick`: relabel every pick with `id` using the trimmed answer to the
    edit prompt. Nothing changes when no pick has `id`, when the prompt is
    cancelled (`answer` is none) or when the trimmed answer is empty.
   */
  function EditPick(picks: seq<Pick>, id: string, answer: Option<string>): (r: seq<Pick>)
    ensures FindIndex(picks, (p: Pick) => HasPickId(id, p)).None? || answer.None? || AllWhitespace(answer.value) ==> r == picks
    ensures |r| == |picks|
    ensures forall i :: 0 <= i < |picks| ==>
      && r[i].id == picks[i].id
      && r[i].angle == picks[i].angle
      && r[i].radius == picks[i].radius
      && r[i].height == picks[i].height
    ensures forall i :: 0 <= i < |picks| && picks[i].id != id ==> r[i] == picks[i]
    ensures answer.Some? && !AllWhitespace(answer.value) ==>
      forall i :: 0 <= i < |picks| && picks[i].id == id ==> r[i].text == Trim(answer.value)
  {
    if FindIndex(picks, (p: Pick) => HasPickId(id, p)).None? then picks
    else if answer.None? then picks
    else
      var text := Trim(answer.value);
      if text == "" then picks
      else seq(|picks|, i requires 0 <= i < |picks| => if picks[i].id == id then picks[i].(text := text) else picks[i])
  }

  /** `deletePick`: the picks whose id differs from `id`, in their original order. */
  function DeletePick(picks: seq<Pick>, id: string): (r: seq<Pick>)
    ensures forall i :: 0 <= i < |r| ==> r[i].id != id && r[i] in picks
    ensures forall i :: 0 <= i < |picks| && picks[i].id != id ==> picks[i] in r
  {
    Filter(picks, (p: Pick) => OtherPickId(id, p))
  }

  /** Deleting an id no pick carries leaves the list unchanged. */
  lemma DeleteAbsentIsIdentity(picks: seq<Pick>, id: string)
    requires forall i :: 0 <= i < |picks| ==> picks[i].id != id
    ensures DeletePick(picks, id) == picks
  {
    FilterIdentity(picks, (p: Pick) => OtherPickId(id, p));
  }

  /** Deleting the id of a pick appended under a fresh id removes exactly that pick. */
  lemma {:induction false} DeleteUndoesAppend(picks: seq<Pick>, p: Pick)
    requires forall i :: 0 <= i < |picks| ==> picks[i].id != p.id
    ensures DeletePick(picks + [p], p.id) == picks
  {
    DeleteAbsentIsIdentity(picks, p.id);
    FilterConcat(picks, [p], (q: Pick) => OtherPickId(p.id, q));
  }

  /**
    Adding a pick under a fresh id and then deleting that id gives back the
    original list: delete undoes add.
   */
  lemma {:induction false} DeleteUndoesAdd(picks: seq<Pick>, draft: string, id: string, draw: nat -> Candidate, proj: (real, real) -> Point)
    requires forall i :: 0 <= i < |picks| ==> picks[i].id != id
    ensures DeletePick(AddPick(picks, draft, id, draw, proj), id) == picks
  {
    if !AllWhitespace(draft) {
      var added := AddPick(picks, draft, id, draw, proj);
      assert added == picks + [added[|picks|]];
      DeleteUndoesAppend(picks, added[|picks|]);
    } else {
      DeleteAbsentIsIdentity(picks, id);
    }
  }

  /** Editing a pick and then deleting it is the same as deleting it. */
  lemma {:induction false} DeleteAfterEdit(picks: seq<Pick>, id: string, answer: Option<string>)
    ensures DeletePick(EditPick(picks, id, answer), id) == DeletePick(picks, id)
  {
    EditThenFilter(picks, EditPick(picks, id, answer), id);
  }

  lemma {:induction false} EditThenFilter(picks: seq<Pick>, edited: seq<Pick>, id: string)
    requires |edited| == |picks|
    requires forall i :: 0 <= i < |picks| ==> edited[i].id == picks[i].id
    requires forall i :: 0 <= i < |picks| && picks[i].id != id ==> edited[i] == picks[i]
    ensures Filter(edited, (p: Pick) => OtherPickId(id, p)) == Filter(picks, (p: Pick) => OtherPickId(id, p))
  {
    if |picks| > 0 {
      EditThenFilter(picks[1..], edited[1..], id);
    }
  }

  /** Repeating the same edit changes nothing further. */
  lemma EditIdempotent(picks: seq<Pick>, id: string, answer: Option<string>)
    ensures EditPick(EditPick(picks, id, answer), id, answer) == EditPick(picks, id, answer)
  {
    var once := EditPick(picks, id, answer);
    var twice := EditPick(once, id, answer);
    if answer.Some? && !AllWhitespace(answer.value) {
      TrimIdempotent(answer.value);
      forall i | 0 <= i < |picks| ensures twice[i] == once[i] {
        if picks[i].id == id {
          assert FindIndex(once, (p: Pick) => HasPickId(id, p)).Some? by {
            assert HasPickId(id, once[i]);
          }
        }
      }
    }
  }

  const ExportSuffix: string := ".cake.json"

  /**
    The name a cake is exported under: its name in the index, or "cake" when
    the index, the cake or a non-empty name is missing.
   */
  function ExportedName(index: Option<CakesIndex>, activeId: string): (n: string)
    ensures n != ""
    ensures (index.Some? && Storage.FindCake(index.value.cakes, activeId).Some? &&
             index.value.cakes[Storage.FindCake(index.value.cakes, activeId).value].name != "") ==>
      n == index.value.cakes[Storage.FindCake(index.value.cakes, activeId).value].name
    ensures
      !(index.Some? && Storage.FindCake(index.value.cakes, activeId).Some? &&
        index.value.cakes[Storage.FindCake(index.value.cakes, activeId).value].name != "")
      ==> n == "cake"
  {
    var name := match index
      case None => ""
      case Some(idx) =>
        match Storage.FindCake(idx.cakes, activeId)
        case None => ""
        case Some(k) => idx.cakes[k].name;
    if name == "" then "cake" else name
  }

  /**
    `handleExport`'s file name: nothing without an active cake; otherwise the
    exported name with each white-space run replaced by `_`, then ".cake.json".
   */
  function ExportFileName(index: Option<CakesIndex>, activeId: Option<string>): (r: Option<string>)
    ensures r.Some? <==> Storage.Truthy(activeId)
    ensures r.Some? ==>
      && |r.value| > |ExportSuffix|
      && r.value[|r.value| - |ExportSuffix|..] == ExportSuffix
      && r.value[..|r.value| - |ExportSuffix|] == CollapseWhitespace(ExportedName(index, activeId.value))
  {
    if !Storage.Truthy(activeId) then None
    else
      var stem := CollapseWhitespace(ExportedName(index, activeId.value));
      assert (stem + ExportSuffix)[..|stem|] == stem;
      Some(stem + ExportSuffix)
  }

  /**
    The exported file name contains no white space, and its stem keeps every
    other character of the cake's name, in order.
   */
  lemma ExportFileNameShape(index: Option<CakesIndex>, activeId: string)
    requires activeId != ""
    ensures var f := ExportFileName(index, Some(activeId)).value;
      && NoWhitespace(f)
      && Filter(f[..|f| - |ExportSuffix|], NotUnderscore) == Filter(ExportedName(index, activeId), IsKeptChar)
  {
    var f := ExportFileName(index, Some(activeId)).value;
    var stem := CollapseWhitespace(ExportedName(index, activeId));
    assert f == stem + ExportSuffix;
    assert f[..|f| - |ExportSuffix|] == stem;
    SuffixHasNoWhitespace();
    assert NoWhitespace(f) by {
      forall i | 0 <= i < |f| ensures !IsWhitespace(f[i]) {
        if i < |stem| {
          assert f[i] == stem[i];
        } else {
          assert f[i] == ExportSuffix[i - |stem|];
        }
      }
    }
    CollapseKeepsOtherChars(ExportedName(index, activeId));
  }

  lemma SuffixHasNoWhitespace()
    ensures NoWhitespace(ExportSuffix)
  {
    forall i | 0 <= i < |ExportSuffix| ensures !IsWhitespace(ExportSuffix[i]) {
      assert ExportSuffix[i] in ".cakejson";
    }
  }

  /** A parsed JSON document. */
  datatype Json =
    | JNull
    | JBool(b: bool)
    | JNumber(n: real)
    | JString(s: string)
    | JArray(items: seq<Json>)
    | JObject(fields: map<string, Json>)

  /**
    `handleFile`'s picks: `parsed.picks ?? parsed`. A parse failure (`parsed`
    is none) and a `null` document (reading a field of `null` throws) both
    abort the import.
   */
  function ImportedPicks(parsed: Option<Json>): (r: Option<Json>)
    ensures r.None? <==> parsed.None? || parsed.value == JNull
    ensures parsed.Some? && parsed.value.JObject? && "picks" in parsed.value.fields && parsed.value.fields["picks"] != JNull ==>
      r == Some(parsed.value.fields["picks"])
    ensures parsed.Some? && parsed.value != JNull && !(parsed.value.JObject? && "picks" in parsed.value.fields && parsed.value.fields["picks"] != JNull) ==>
      r == parsed
  {
    match parsed
    case None => None
    case Some(JNull) => None
    case Some(JObject(fields)) =>
      if "picks" in fields && fields["picks"] != JNull then Some(fields["picks"]) else parsed
    case Some(_) => parsed
  }

  /** A pick as `JSON.stringify` writes it. */
  function PickJson(p: Pick): Json {
    JObject(map[
      "id" := JString(p.id),
      "text" := JString(p.text),
      "angle" := JNumber(p.angle),
      "radius" := JNumber(p.radius),
      "height" := JNumber(p.height)])
  }

  function PicksJson(picks: seq<Pick>): (r: Json)
    ensures r.JArray? && |r.items| == |picks|
  {
    JArray(seq(|picks|, i requires 0 <= i < |picks| => PickJson(picks[i])))
  }

  /** The exported document `{ name, picks }`. */
  function ExportDocument(name: string, picks: seq<Pick>): Json {
    JObject(map["name" := JString(name), "picks" := PicksJson(picks)])
  }

  /**
    Import accepts both shapes with the same result: an exported document
    and a bare list of picks both yield that list.
   */
  lemma ImportAcceptsBothShapes(name: string, picks: seq<Pick>)
    ensures ImportedPicks(Some(ExportDocument(name, picks))) == Some(PicksJson(picks))
    ensures ImportedPicks(Some(PicksJson(picks))) == Some(PicksJson(picks))
  {
  }
}
