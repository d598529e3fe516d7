/**
 The payload `respondToFormSubmit` posts to its webhook: one `{title, id}`
 record per form item, in item order. Only the mapping is modelled; the JSON
 encoding and the HTTP call are not.
 */
module Webhook {
  import opened FormModel

  /** One record of the posted array. */
  datatype PayloadEntry = PayloadEntry(title: string, id: int)

  /** The records for the given items. */
  function Payload(items: seq<Item>): (p: seq<PayloadEntry>)
    ensures |p| == |items|
    ensures forall k :: 0 <= k < |items| ==> p[k].title == items[k].title && p[k].id == items[k].id
    decreases |items|
  {
    if |items| == 0 then []
    else Payload(items[..|items| - 1]) + [PayloadEntry(items[|items| - 1].title, items[|items| - 1].id)]
  }

  /** The item a record describes. */
  function ItemOf(e: PayloadEntry): Item
  {
    Item(e.id, e.title)
  }

  /** The items a payload describes, in order. */
  function ItemsOf(p: seq<PayloadEntry>): (items: seq<Item>)
    ensures |items| == |p|
    ensures forall k :: 0 <= k < |p| ==> items[k] == ItemOf(p[k])
  {
    seq(|p|, k requires 0 <= k < |p| => ItemOf(p[k]))
  }

  /** The loop of `respondToFormSubmit` that pushes one record per item. */
  method BuildPayload(items: seq<Item>) returns (formData: seq<PayloadEntry>)
    ensures formData == Payload(items)
  {
    formData := [];
    var i := 0;
    while i < |items|
      invariant 0 <= i <= |items|
      invariant formData == Payload(items[..i])
    {
      assert items[..i + 1][..i] == items[..i];
      formData := formData + [PayloadEntry(items[i].title, items[i].id)];
      i := i + 1;
    }
    assert items[..i] == items;
  }

  /** The payload loses nothing: the items can be read back from it, in order. */
  lemma PayloadRoundTrip(items: seq<Item>)
    ensures ItemsOf(Payload(items)) == items
  {
  }
}
