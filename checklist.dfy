/** The checklist a child works through: an ordered list of details, each
    with a position id and a flag saying whether the child has named it.

    In the program an item is a dictionary `{"detail", "identified", "id"}`
    that lists share by reference, and only the `identified` entry is ever
    written after creation. Here it is an `Item` object with constant
    `detail` and `id` and a mutable `identified`; `ItemValue` is the same
    triple as a value, used wherever the program only reads a checklist. */
module Checklist {

  datatype ItemValue = ItemValue(detail: string, identified: bool, id: nat)

  class Item {
    const detail: string
    const id: nat
    var identified: bool

    constructor (detail: string, identified: bool, id: nat)
      ensures this.detail == detail && this.identified == identified && this.id == id
    {
      this.detail := detail;
      this.identified := identified;
      this.id := id;
    }
  }

  /** What the items hold right now, in list order. */
  function Snapshot(items: seq<Item>): (r: seq<ItemValue>)
    reads items
    ensures |r| == |items|
    ensures forall k :: 0 <= k < |items| ==>
      r[k] == ItemValue(items[k].detail, items[k].identified, items[k].id)
  {
    if items == [] then []
    else [ItemValue(items[0].detail, items[0].identified, items[0].id)] + Snapshot(items[1..])
  }

  /** A snapshot only depends on the items' fields. */
  twostate lemma SnapshotUnchanged(items: seq<Item>)
    requires unchanged(items)
    ensures Snapshot(items) == old(Snapshot(items))
  {
  }

  /** One new item object per value, in order: how the program builds a
      checklist, a fresh dictionary appended per entry. */
  method Materialize(values: seq<ItemValue>) returns (items: seq<Item>)
    ensures forall i :: 0 <= i < |items| ==> fresh(items[i])
    ensures Snapshot(items) == values
  {
    items := [];
    for i := 0 to |values|
      invariant |items| == i
      invariant forall j :: 0 <= j < i ==> fresh(items[j])
      invariant forall j :: 0 <= j < i ==>
        items[j].detail == values[j].detail && items[j].identified == values[j].identified
        && items[j].id == values[j].id
    {
      var item := new Item(values[i].detail, values[i].identified, values[i].id);
      items := items + [item];
    }
  }

  /** Items given ids 0..n-1 in list order, as `enumerate` assigns them. */
  predicate IdsArePositions(items: seq<ItemValue>) {
    forall k :: 0 <= k < |items| ==> items[k].id == k
  }

  /** `[item["detail"] for item in checklist if not item["identified"]]`. */
  function Unidentified(items: seq<ItemValue>): (details: seq<string>)
    ensures |details| <= |items|
    ensures details == [] <==> forall k :: 0 <= k < |items| ==> items[k].identified
    ensures forall d :: d in details <==> exists k :: 0 <= k < |items| && !items[k].identified && items[k].detail == d
  {
    if items == [] then []
    else
      var rest := Unidentified(items[1..]);
      assert forall k :: 1 <= k < |items| ==> items[k] == items[1..][k - 1];
      if items[0].identified then rest else [items[0].detail] + rest
  }

  /** `sum(1 for item in checklist if item["identified"])`. */
  function CountIdentified(items: seq<ItemValue>): (n: nat)
    ensures n <= |items|
    ensures n == |items| <==> forall k :: 0 <= k < |items| ==> items[k].identified
    ensures n == 0 <==> forall k :: 0 <= k < |items| ==> !items[k].identified
  {
    if items == [] then 0
    else
      var rest := CountIdentified(items[1..]);
      assert forall k :: 1 <= k < |items| ==> items[k] == items[1..][k - 1];
      (if items[0].identified then 1 else 0) + rest
  }

  /** `all(item["identified"] for item in checklist)`; true of an empty list. */
  predicate AllIdentified(items: seq<ItemValue>) {
    forall k :: 0 <= k < |items| ==> items[k].identified
  }
}
