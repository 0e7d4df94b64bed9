/** The list editors of the admin forms: a text box whose trimmed contents are appended to a
    list unless empty or already listed (the box is then cleared), and a remove button that
    filters every copy of an item out. */
module FormLists {
  import opened Text
  import opened Seqs

  /** A list being edited together with the text box that feeds it. */
  datatype ListEdit = ListEdit(items: seq<String>, draft: String)

  /** `if (draft.trim() && !items.includes(draft.trim())) { items = [...items, draft.trim()]; draft = "" }` */
  function AddItem(e: ListEdit): (r: ListEdit)
    ensures var t := Trim(e.draft);
            forall y :: y in r.items <==> y in e.items || (y == t && t != [])
    ensures |e.items| <= |r.items| <= |e.items| + 1 && r.items[..|e.items|] == e.items
    ensures r.draft == [] <==> |r.items| > |e.items| || e.draft == []
    ensures |r.items| == |e.items| ==> r == e
    ensures |r.items| > |e.items| ==> Last(r.items) == Trim(e.draft) && IsTrimmed(Last(r.items))
    ensures NoDup(e.items) ==> NoDup(r.items)
  {
    var t := Trim(e.draft);
    if t != [] && t !in e.items then ListEdit(e.items + [t], []) else e
  }

  /** `items.filter((x) => x !== item)` */
  function RemoveItem(items: seq<String>, item: String): (r: seq<String>)
    ensures item !in r
    ensures forall y :: y != item ==> multiset(r)[y] == multiset(items)[y]
    ensures item !in items ==> r == items
  {
    RemoveAll(items, item)
  }

  /** Removing what was just added gives the list back. */
  lemma RemoveUndoesAdd(e: ListEdit)
    requires |AddItem(e).items| > |e.items|
    ensures RemoveItem(AddItem(e).items, Trim(e.draft)) == e.items
  {
    var t := Trim(e.draft);
    RemoveAllAppend(e.items, [t], t);
    assert RemoveAll([t], t) == [] by {
      assert DropLast([t]) == [];
    }
  }

  /** Adding the same text twice adds it once. */
  lemma AddIdempotent(e: ListEdit)
    ensures AddItem(ListEdit(AddItem(e).items, e.draft)).items == AddItem(e).items
  {
  }

  /** A list built only through the editor has no repeated and no blank items, and every item
      is trimmed. */
  predicate WellFormed(items: seq<String>) {
    NoDup(items) && forall k :: 0 <= k < |items| ==> items[k] != [] && IsTrimmed(items[k])
  }

  lemma EditorKeepsWellFormed(e: ListEdit, item: String)
    requires WellFormed(e.items)
    ensures WellFormed(AddItem(e).items)
    ensures WellFormed(RemoveItem(e.items, item))
  {
    var r := RemoveItem(e.items, item);
    forall k | 0 <= k < |r| ensures r[k] != [] && IsTrimmed(r[k]) {
      assert r[k] in e.items;
    }
  }
}
