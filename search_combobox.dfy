/**
 * The searchable combo box: a popover that lists items fetched from a
 * search endpoint, keeps the currently selected item visible when the
 * search is empty, and reports the item the reader picks.
 */
module SearchComboBox {

  datatype Item = Item(value: string, labelText: string)

  /** How a `fetch(url + "?search=" + e)` ended: a JSON array of items, or a rejection. */
  datatype FetchResult = Fetched(v: seq<Item>) | FetchFailed

  /** A fetch handed to the 300 ms debouncer or run at once. */
  datatype Scheduled = Immediate(query: string) | Debounced(query: string)

  /** Some fetched item has the selected item's value (`v.find(...)` is truthy). */
  predicate Listed(v: seq<Item>, value: string) {
    exists i :: 0 <= i < |v| && v[i].value == value
  }

  /** The list `fetchItems(e)` stores once its request settles. */
  function ItemsAfterFetch(selected: Item, e: string, response: FetchResult): seq<Item> {
    match response
    case FetchFailed => [selected]
    case Fetched(v) =>
      if selected.value != "" && e == "" && !Listed(v, selected.value) then [selected] + v else v
  }

  /**
   * `handleOnSearchChange(e)`: an empty search runs a fetch at once and, as
   * `fetchItems` returns `undefined`, also hands one to the debouncer; any
   * other search only goes through the debouncer.
   */
  function SearchFetches(e: string): (r: seq<Scheduled>)
    ensures e == "" ==> r == [Immediate(""), Debounced("")]
    ensures e != "" ==> r == [Debounced(e)]
  {
    (if e == "" then [Immediate(e)] else []) + [Debounced(e)]
  }

  /** The trigger's text: the selected label, or a prompt when it is empty. */
  function TriggerLabel(selected: Item): (r: string)
    ensures selected.labelText != "" ==> r == selected.labelText
    ensures selected.labelText == "" ==> r == "Select an item"
  {
    if selected.labelText != "" then selected.labelText else "Select an item"
  }

  /** A rendered row: the item and whether it carries the check mark. */
  datatype Row = Row(item: Item, checked: bool)

  /** `items.map(...)`: items without a value render nothing; the selected value is checked. */
  function Rows(items: seq<Item>, selected: Item): (r: seq<Row>)
    ensures forall k :: 0 <= k < |r| ==> r[k].item.value != "" && (r[k].checked <==> r[k].item.value == selected.value)
    ensures |r| <= |items|
  {
    if items == [] then []
    else
      var rest := Rows(items[1..], selected);
      if items[0].value == "" then rest
      else [Row(items[0], selected.value == items[0].value)] + rest
  }

  class ComboBox {
    const selectedItem: Item
    var open: bool
    var items: seq<Item>
    /** The fetches requested, run at once or handed to the debouncer, oldest first. */
    var fetches: seq<Scheduled>
    /** The items passed to `onSelect`, oldest first. */
    var picked: seq<Item>

    /** `useState(false)` and `useState([selectedItem])`. */
    constructor (selectedItem: Item)
      ensures this.selectedItem == selectedItem && !open && items == [selectedItem]
      ensures fetches == [] && picked == []
    {
      this.selectedItem := selectedItem;
      open := false;
      items := [selectedItem];
      fetches := [];
      picked := [];
    }

    /** The `.then` / `.catch` of `fetchItems(e)` running once its request settles. */
    method Settle(e: string, response: FetchResult)
      modifies this
      ensures items == ItemsAfterFetch(selectedItem, e, response)
      ensures open == old(open) && fetches == old(fetches) && picked == old(picked)
    {
      match response {
        case FetchFailed =>
          items := [selectedItem];
        case Fetched(fetched) =>
          var v := fetched;
          if selectedItem.value != "" && e == "" && !Listed(v, selectedItem.value) {
            v := [selectedItem] + v;
          }
          items := v;
      }
    }

    /** `handleOnSearchChange(e)`. */
    method OnSearchChange(e: string)
      modifies this
      ensures fetches == old(fetches) + SearchFetches(e)
      ensures open == old(open) && items == old(items) && picked == old(picked)
    {
      if e == "" {
        fetches := fetches + [Immediate(e)];
      }
      fetches := fetches + [Debounced(e)];
    }

    /** `setOpen(isOpen)`: opening empties the list and searches for `""`; closing keeps the list. */
    method SetOpen(isOpen: bool)
      modifies this
      ensures open == isOpen && picked == old(picked)
      ensures isOpen ==> items == [] && fetches == old(fetches) + [Immediate(""), Debounced("")]
      ensures !isOpen ==> items == old(items) && fetches == old(fetches)
    {
      if isOpen {
        items := [];
        OnSearchChange("");
      }
      open := isOpen;
    }

    /** A row's `onSelect`: report the item and close the popover. */
    method Select(item: Item)
      modifies this
      ensures picked == old(picked) + [item] && !open
      ensures items == old(items) && fetches == old(fetches)
    {
      picked := picked + [item];
      SetOpen(false);
    }
  }

  /**
   * The selected item is put first exactly when it has a value, the search
   * is empty and the answer lacks it; otherwise the list is the answer as
   * fetched, and a failed request leaves only the selected item.
   */
  lemma FetchedList(selected: Item, e: string, v: seq<Item>)
    ensures var r := ItemsAfterFetch(selected, e, Fetched(v));
      (selected.value != "" && e == "" && !Listed(v, selected.value) <==> r == [selected] + v && r != v) &&
      (!(selected.value != "" && e == "" && !Listed(v, selected.value)) ==> r == v)
    ensures ItemsAfterFetch(selected, e, FetchFailed) == [selected]
  {
    var r := ItemsAfterFetch(selected, e, Fetched(v));
    if r == [selected] + v {
      assert |r| != |v|;
    }
  }

  /** With an empty search the selected item, when it has a value, is always among the items. */
  lemma SelectedStaysVisible(selected: Item, response: FetchResult)
    requires selected.value != ""
    ensures Listed(ItemsAfterFetch(selected, "", response), selected.value)
  {
    var r := ItemsAfterFetch(selected, "", response);
    assert r[0] == selected || response.Fetched?;
  }

  /** Every item with a value gets exactly one row, in order; items without a value get none. */
  lemma {:induction false} RowsKeepValuedItems(items: seq<Item>, selected: Item)
    ensures |Rows(items, selected)| == |FilterValued(items)|
    ensures forall k :: 0 <= k < |Rows(items, selected)| ==> Rows(items, selected)[k].item == FilterValued(items)[k]
  {
    if items != [] {
      RowsKeepValuedItems(items[1..], selected);
    }
  }

  /** The items that have a value, in order. */
  function FilterValued(items: seq<Item>): (r: seq<Item>)
    ensures |r| <= |items|
  {
    if items == [] then []
    else if items[0].value == "" then FilterValued(items[1..])
    else [items[0]] + FilterValued(items[1..])
  }
}
