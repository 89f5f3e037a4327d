/** Shopping lists of _shopping/models.py: resetting a list marks each of
    its items as not bought. The item table is an array of rows that the
    reset updates in place, one row at a time. */
module ShoppingModels {
  import opened Common

  datatype AmountUnit = Gramm | Milliliter | TableSpoons | TeaSpoons | Pieces | Packages | Bottles

  datatype ShoppingList = ShoppingList(
    id: Uuid, createdBy: Uuid, createdAt: int, name: string, description: Option<string>,
    isRecurring: bool, isArchived: bool)

  /** An item row; `amount` is in tenths (one decimal place). */
  datatype ShoppingListItem = ShoppingListItem(
    id: Uuid, createdBy: Uuid, createdAt: int, shoppingList: Uuid, item: Uuid,
    amount: int, amountUnit: AmountUnit, isBought: bool)

  /** A new item row with the column defaults: amount 1.0 gramm, not
      bought. */
  function NewShoppingListItem(id: Uuid, createdBy: Uuid, createdAt: int, shoppingList: Uuid, item: Uuid): ShoppingListItem {
    ShoppingListItem(id, createdBy, createdAt, shoppingList, item, 10, Gramm, false)
  }

  /** One row after resetting list `listId`. */
  function ResetItem(it: ShoppingListItem, listId: Uuid): ShoppingListItem {
    if it.shoppingList == listId then it.(isBought := false) else it
  }

  /** The whole item table after resetting list `listId`, row by row in
      table order. */
  function ResetItems(items: seq<ShoppingListItem>, listId: Uuid): seq<ShoppingListItem> {
    if items == [] then []
    else ResetItems(items[..|items| - 1], listId) + [ResetItem(items[|items| - 1], listId)]
  }

  /** Reset works row by row: same length, and each row is reset on its
      own. */
  lemma {:induction false} ResetItemsPointwise(items: seq<ShoppingListItem>, listId: Uuid)
    ensures |ResetItems(items, listId)| == |items|
    ensures forall k :: 0 <= k < |items| ==> ResetItems(items, listId)[k] == ResetItem(items[k], listId)
  {
    if items != [] {
      ResetItemsPointwise(items[..|items| - 1], listId);
    }
  }

  /** After a reset every item of the list is unbought; every other row is
      untouched; no row is added, removed or moved; and no column other
      than `is_bought` changes. */
  lemma {:induction false} ResetItemsEffect(items: seq<ShoppingListItem>, listId: Uuid)
    ensures var r := ResetItems(items, listId);
      |r| == |items| &&
      (forall k :: 0 <= k < |r| && items[k].shoppingList == listId ==> !r[k].isBought) &&
      (forall k :: 0 <= k < |r| && items[k].shoppingList != listId ==> r[k] == items[k]) &&
      (forall k :: 0 <= k < |r| ==> r[k].(isBought := items[k].isBought) == items[k])
  {
    ResetItemsPointwise(items, listId);
  }

  /** Resetting twice leaves the table as resetting once does. */
  lemma {:induction false} ResetItemsIdempotent(items: seq<ShoppingListItem>, listId: Uuid)
    ensures ResetItems(ResetItems(items, listId), listId) == ResetItems(items, listId)
  {
    var r := ResetItems(items, listId);
    ResetItemsPointwise(items, listId);
    ResetItemsPointwise(r, listId);
  }

  /** A reset restores the creation default: a reset row is not bought,
      exactly like a freshly created one, and a freshly created row is left as it
      is. */
  lemma {:induction false} ResetRestoresCreationDefault(it: ShoppingListItem)
    ensures var created := NewShoppingListItem(it.id, it.createdBy, it.createdAt, it.shoppingList, it.item);
      ResetItem(it, it.shoppingList).isBought == created.isBought &&
      ResetItems([created], it.shoppingList) == [created]
  {
    var created := NewShoppingListItem(it.id, it.createdBy, it.createdAt, it.shoppingList, it.item);
    assert [created][..0] == [];
  }

  /** ShoppingList.reset: walk the item table and clear `is_bought` on each
      row of this list, writing the row back. */
  method Reset(list: ShoppingList, items: array<ShoppingListItem>)
    modifies items
    ensures items[..] == ResetItems(old(items[..]), list.id)
  {
    var i := 0;
    while i < items.Length
      invariant 0 <= i <= items.Length
      invariant items[..i] == ResetItems(old(items[..i]), list.id)
      invariant items[i..] == old(items[i..])
    {
      ghost var done := old(items[..i + 1]);
      assert done[..i] == old(items[..i]);
      assert done[i] == old(items[i..])[0] == items[i];
      assert ResetItems(done, list.id) == ResetItems(old(items[..i]), list.id) + [ResetItem(items[i], list.id)];
      if items[i].shoppingList == list.id {
        items[i] := items[i].(isBought := false);
      }
      assert items[..i + 1] == items[..i] + [items[i]];
      assert items[i + 1..] == old(items[i..])[1..];
      i := i + 1;
    }
    assert items[..] == items[..items.Length];
    assert old(items[..]) == old(items[..items.Length]);
  }
}
