/** The conversion history `textHistory`: newest entry first, at most
    `MAX_HISTORY_ITEMS` entries. */
module History {

  const MaxHistoryItems: nat := 20

  /** What one entry records besides its text: for a gradient the two end
      colours and the formatted result, for a code conversion the result. */
  datatype HistoryResult =
    | GradientRecord(start: string, end: string, result: string)
    | CodeRecord(result: string)

  /** An entry; its `id` and `timestamp` come from the clock and are not
      modelled. */
  datatype HistoryItem = HistoryItem(text: string, kind: string, result: HistoryResult)

  function Min(a: nat, b: nat): nat {
    if a <= b then a else b
  }

  /** `unshift(item)` then `slice(0, MAX_HISTORY_ITEMS)`: the new item is at
      the front, the list never grows past the bound, and the older items
      follow in their old order, the oldest dropped when it is full. */
  function AddedToHistory(items: seq<HistoryItem>, item: HistoryItem): (r: seq<HistoryItem>)
    ensures |r| == Min(|items| + 1, MaxHistoryItems)
    ensures r[0] == item
    ensures forall k :: 1 <= k < |r| ==> r[k] == items[k - 1]
  {
    ([item] + items)[..Min(|items| + 1, MaxHistoryItems)]
  }

  /** Adding keeps at most the newest twenty entries, newest first. */
  lemma {:induction false} HistoryIsNewestFirst(items: seq<HistoryItem>, newer: seq<HistoryItem>)
    requires |newer| > 0
    ensures var r := AddAll(items, newer);
      |r| == Min(|items| + |newer|, MaxHistoryItems) &&
      forall k :: 0 <= k < |r| ==>
        r[k] == (if k < |newer| then newer[|newer| - 1 - k] else items[k - |newer|])
    decreases |newer|
  {
    if |newer| > 1 {
      var front := newer[..|newer| - 1];
      var last := newer[|newer| - 1];
      HistoryIsNewestFirst(items, front);
      var before := AddAll(items, front);
      assert AddAll(items, newer) == AddedToHistory(before, last);
    }
  }

  /** The list after adding `newer[0]`, then `newer[1]`, and so on. */
  function AddAll(items: seq<HistoryItem>, newer: seq<HistoryItem>): seq<HistoryItem>
    decreases |newer|
  {
    if newer == [] then items else AddedToHistory(AddAll(items, newer[..|newer| - 1]), newer[|newer| - 1])
  }

  class TextHistory {
    var items: seq<HistoryItem>

    /** The history as loaded: whatever the store held. */
    constructor (stored: seq<HistoryItem>)
      ensures items == stored
    {
      items := stored;
    }

    /** `addToHistory(text, type, result)`. */
    method Add(item: HistoryItem)
      modifies this
      ensures items == AddedToHistory(old(items), item)
      ensures items[0] == item && |items| <= MaxHistoryItems
    {
      items := [item] + items;
      items := items[..Min(|items|, MaxHistoryItems)];
    }
  }
}
