/**
 * The dropdown widget of client/src/js/dropdown.js as a state machine.
 *
 * The DOM is reduced to what the widget's logic reads and writes: the menu's `scrollTop` and
 * `offsetHeight`, the rendered rows (index and top offset of each), and the focused row (its
 * `data-index`). Every call of `remoteDataSource` becomes a `Request` returned by the operation
 * that issues it; the promise continuation that handles its answer is a separate method taking
 * the `Response`.
 */
module Dropdown {
  import opened Util
  import opened Matcher
  import ServerSearch

  /** What `keyFunction` returns; the default key is the record's `_id`. */
  type Key = string

  // ---------------------------------------------------------------------------------------------
  // Filtering a list of records by key.

  /** The records of s whose key is not taken, in order (`s.filter(item => !taken(key(item)))`). */
  function Untaken(s: seq<Record>, key: Record -> Key, taken: Key -> bool): seq<Record>
    decreases |s|
  {
    if |s| == 0 then []
    else
      var n := |s| - 1;
      Untaken(s[..n], key, taken) + (if taken(key(s[n])) then [] else [s[n]])
  }

  /** No record of the filtered list has a taken key. */
  lemma {:induction false} UntakenFree(s: seq<Record>, key: Record -> Key, taken: Key -> bool)
    ensures forall k :: 0 <= k < |Untaken(s, key, taken)| ==> !taken(key(Untaken(s, key, taken)[k]))
    decreases |s|
  {
    if |s| > 0 {
      UntakenFree(s[..|s| - 1], key, taken);
    }
  }

  /** Filtering keeps each record with an untaken key as often as it occurs, and drops every other. */
  lemma {:induction false} UntakenCount(s: seq<Record>, key: Record -> Key, taken: Key -> bool, x: Record)
    ensures multiset(Untaken(s, key, taken))[x] == if taken(key(x)) then 0 else multiset(s)[x]
    decreases |s|
  {
    if |s| > 0 {
      var n := |s| - 1;
      UntakenCount(s[..n], key, taken, x);
      assert s == s[..n] + [s[n]];
    }
  }

  /**
   * Filtering keeps order: the result is s restricted to an increasing list of positions, namely
   * every position whose key is not taken.
   */
  lemma {:induction false} UntakenPositions(s: seq<Record>, key: Record -> Key, taken: Key -> bool) returns (pos: seq<nat>)
    ensures |pos| == |Untaken(s, key, taken)|
    ensures forall k :: 0 <= k < |pos| ==> pos[k] < |s| && Untaken(s, key, taken)[k] == s[pos[k]]
    ensures forall k, l :: 0 <= k < l < |pos| ==> pos[k] < pos[l]
    ensures forall j :: 0 <= j < |s| && !taken(key(s[j])) ==> j in pos
    decreases |s|
  {
    if |s| == 0 {
      pos := [];
    } else {
      var n := |s| - 1;
      var init := s[..n];
      var p := UntakenPositions(init, key, taken);
      var u0 := Untaken(init, key, taken);
      assert forall k :: 0 <= k < |p| ==> s[p[k]] == init[p[k]];
      if taken(key(s[n])) {
        assert Untaken(s, key, taken) == u0;
        pos := p;
        assert forall j :: 0 <= j < n && !taken(key(s[j])) ==> !taken(key(init[j]));
      } else {
        assert Untaken(s, key, taken) == u0 + [s[n]];
        pos := p + [n];
        assert forall j :: 0 <= j < n && !taken(key(s[j])) ==> !taken(key(init[j]));
      }
    }
  }

  /** When no key is taken, filtering returns the list unchanged, duplicates included. */
  lemma {:induction false} UntakenNone(s: seq<Record>, key: Record -> Key, taken: Key -> bool)
    requires forall k :: 0 <= k < |s| ==> !taken(key(s[k]))
    ensures Untaken(s, key, taken) == s
    decreases |s|
  {
    if |s| > 0 {
      var n := |s| - 1;
      UntakenNone(s[..n], key, taken);
      assert s[..n] + [s[n]] == s;
    }
  }

  /** Keys in use by the selection: `selectedItems[key] !== undefined`. */
  function Selected(selection: map<Key, Record>): Key -> bool {
    k => k in selection
  }

  /** Some record of a has key k. */
  predicate HasKey(a: seq<Record>, key: Record -> Key, k: Key) {
    exists j :: 0 <= j < |a| && key(a[j]) == k
  }

  /** Keys in use by a list. */
  function KeysOf(a: seq<Record>, key: Record -> Key): Key -> bool {
    k => HasKey(a, key, k)
  }

  /** No two records of s share a key. */
  predicate KeyUnique(s: seq<Record>, key: Record -> Key) {
    forall i, j :: 0 <= i < j < |s| ==> key(s[i]) != key(s[j])
  }

  // ---------------------------------------------------------------------------------------------
  // `merge(array1, array2, keyFunction)`

  /** What `merge` returns: array1, then the records of array2 whose key array1 does not use. */
  function Merged(a1: seq<Record>, a2: seq<Record>, key: Record -> Key): seq<Record> {
    a1 + Untaken(a2, key, KeysOf(a1, key))
  }

  /**
   * `merge`: copy array2, walk it with an index, and splice out (without advancing the index)
   * every record whose key equals the key of some record of array1; then append the copy to array1.
   */
  method Merge(a1: seq<Record>, a2: seq<Record>, key: Record -> Key) returns (r: seq<Record>)
    ensures r == Merged(a1, a2, key)
    ensures r[..|a1|] == a1
  {
    var cleaned := a2;
    var i := 0;
    ghost var done := 0;
    while i < |cleaned|
      invariant 0 <= i <= |cleaned| && done <= |a2|
      invariant cleaned[..i] == Untaken(a2[..done], key, KeysOf(a1, key))
      invariant cleaned[i..] == a2[done..]
      decreases |cleaned| - i
    {
      assert cleaned[i] == a2[done];
      assert a2[..done + 1][..done] == a2[..done];
      var found := false;
      var j := 0;
      while j < |a1|
        invariant 0 <= j <= |a1|
        invariant forall m :: 0 <= m < j ==> key(cleaned[i]) != key(a1[m])
      {
        if key(cleaned[i]) == key(a1[j]) {
          found := true;
          break;
        }
        j := j + 1;
      }
      if found {
        assert HasKey(a1, key, key(a2[done]));
        assert cleaned[i + 1..] == a2[done + 1..];
        cleaned := cleaned[..i] + cleaned[i + 1..];
        assert cleaned[..i] == Untaken(a2[..done + 1], key, KeysOf(a1, key));
      } else {
        assert !HasKey(a1, key, key(a2[done]));
        assert cleaned[..i + 1] == cleaned[..i] + [a2[done]];
        i := i + 1;
      }
      done := done + 1;
    }
    assert a2[..done] == a2;
    r := a1 + cleaned;
  }

  /**
   * A record of array2 survives the merge iff array1 has no record with its key; records of
   * array1 are all kept. Duplicates inside array2 are not removed.
   */
  lemma MergedCount(a1: seq<Record>, a2: seq<Record>, key: Record -> Key, x: Record)
    ensures multiset(Merged(a1, a2, key))[x]
         == multiset(a1)[x] + if HasKey(a1, key, key(x)) then 0 else multiset(a2)[x]
  {
    UntakenCount(a2, key, KeysOf(a1, key), x);
  }

  /** The surviving records of array2 follow array1 in their original relative order. */
  lemma MergedOrder(a1: seq<Record>, a2: seq<Record>, key: Record -> Key) returns (pos: seq<nat>)
    ensures |Merged(a1, a2, key)| == |a1| + |pos|
    ensures Merged(a1, a2, key)[..|a1|] == a1
    ensures forall k :: 0 <= k < |pos| ==> pos[k] < |a2| && Merged(a1, a2, key)[|a1| + k] == a2[pos[k]]
    ensures forall k, l :: 0 <= k < l < |pos| ==> pos[k] < pos[l]
    ensures forall j :: 0 <= j < |a2| && !HasKey(a1, key, key(a2[j])) ==> j in pos
  {
    pos := UntakenPositions(a2, key, KeysOf(a1, key));
  }

  /** Merging two key-unique lists gives a key-unique list. */
  lemma MergedKeyUnique(a1: seq<Record>, a2: seq<Record>, key: Record -> Key)
    requires KeyUnique(a1, key) && KeyUnique(a2, key)
    ensures KeyUnique(Merged(a1, a2, key), key)
  {
    var u := Untaken(a2, key, KeysOf(a1, key));
    var pos := UntakenPositions(a2, key, KeysOf(a1, key));
    UntakenFree(a2, key, KeysOf(a1, key));
    var r := Merged(a1, a2, key);
    forall i, j | 0 <= i < j < |r| ensures key(r[i]) != key(r[j]) {
      if j < |a1| {
        assert r[i] == a1[i] && r[j] == a1[j];
      } else if i < |a1| {
        assert r[j] == u[j - |a1|];
        assert !HasKey(a1, key, key(r[j]));
        assert r[i] == a1[i];
      } else {
        assert r[i] == a2[pos[i - |a1|]] && r[j] == a2[pos[j - |a1|]];
      }
    }
  }

  /**
   * The merge does not look at the selection: a record of array2 that array1 lacks comes back
   * even when its key is selected, so the merged list can hold a selected record.
   */
  lemma SelectedRecordReturns(a1: seq<Record>, a2: seq<Record>, key: Record -> Key, selection: map<Key, Record>, x: Record)
    requires x in a2 && key(x) in selection && !HasKey(a1, key, key(x))
    ensures x in Merged(a1, a2, key)
    ensures exists k :: 0 <= k < |Merged(a1, a2, key)| && key(Merged(a1, a2, key)[k]) in selection
  {
    MergedCount(a1, a2, key, x);
    var m := Merged(a1, a2, key);
    assert x in m;
    var k :| 0 <= k < |m| && m[k] == x;
    assert key(m[k]) in selection;
  }

  /** Merging into an empty list returns array2 as it is, so its own duplicate keys stay. */
  lemma MergeIntoEmpty(a2: seq<Record>, key: Record -> Key)
    ensures Merged([], a2, key) == a2
  {
    UntakenNone(a2, key, KeysOf([], key));
  }

  // ---------------------------------------------------------------------------------------------
  // Arithmetic of the menu window.

  /** `Math.ceil(a / h)` for a positive divisor: the least c with a <= h * c. */
  function CeilDiv(a: int, h: int): (c: int)
    requires h > 0
    ensures h * (c - 1) < a <= h * c
  {
    (a + h - 1) / h
  }

  /** `Math.round(a / h)` (halves round up) for a positive divisor: the c with h*c - h/2 <= a < h*c + h/2. */
  function RoundDiv(a: int, h: int): (c: int)
    requires h > 0
    ensures 2 * h * c - h <= 2 * a < 2 * h * c + h
  {
    (2 * a + h) / (2 * h)
  }

  /**
   * `x < lo ? lo : x`, then `> hi ? hi : ...`: the two consecutive guards of `scrollTo` and
   * `setFocusedItem`. The upper bound wins when the bounds cross.
   */
  function Clamp(x: int, lo: int, hi: int): (c: int)
    ensures c <= hi
    ensures lo <= hi ==> lo <= c
    ensures lo <= x <= hi ==> c == x
    ensures x < lo <= hi ==> c == lo
    ensures x > hi ==> c == hi
  {
    var y := if x < lo then lo else x;
    if y > hi then hi else y
  }

  /** The rendered index range [first, last]; empty when first > last. */
  datatype Span = Span(first: int, last: int)

  /**
   * The window `renderMenu` renders for scroll offset s, menu height m, row height h, buffer b and
   * list length len: the visible rows `ceil(s/h)` .. `round(s/h + m/h)` widened by b rows on each
   * side, by 3b when the raw window touches the top or the last row, and cut to [0, len - 1].
   */
  function Window(s: int, m: int, h: int, b: int, len: nat): (w: Span)
    requires h > 0
    ensures 0 <= w.first && w.last <= len - 1
  {
    var first := CeilDiv(s, h);
    var last := RoundDiv(s + m, h);
    var extra := if first == 0 || last == len - 1 then b + b * 2 else b;
    Span(Max(0, first - extra), Min(len - 1, last + extra))
  }

  /**
   * On an empty list the window ends at index -1, which is `len - 1`: `renderMenu` then calls
   * `tryInfiniteScroll` although there is no last row.
   */
  lemma EmptyListWindowEnd(s: int, m: int, h: int, b: int)
    requires h > 0 && s >= 0 && m >= 0 && b >= 0
    ensures Window(s, m, h, b, 0).last == -1
  {
  }

  /** Row i is visible at scroll offset s: it lies in the raw window before buffering. */
  predicate Visible(i: int, s: int, m: int, h: int)
    requires h > 0
  {
    CeilDiv(s, h) <= i <= RoundDiv(s + m, h)
  }

  /** With a non-negative buffer, every row of the list that is visible is rendered. */
  lemma WindowCoversVisible(s: int, m: int, h: int, b: int, len: nat, i: int)
    requires h > 0 && b >= 0
    requires 0 <= i < len && Visible(i, s, m, h)
    ensures Window(s, m, h, b, len).first <= i <= Window(s, m, h, b, len).last
  {
  }

  /** From h*x > h*y with h positive, x > y. */
  lemma MulCancel(h: int, x: int, y: int)
    requires h > 0 && h * x > h * y
    ensures x > y
  {
  }

  /** Moving down by at most k rows moves `ceil(a/h)` back by at most k. */
  lemma CeilDivShift(a: int, a0: int, h: int, k: int)
    requires h > 0 && a >= a0 - h * k
    ensures CeilDiv(a, h) >= CeilDiv(a0, h) - k
  {
    var c, c0 := CeilDiv(a, h), CeilDiv(a0, h);
    assert h * c > h * (c0 - 1 - k);
    MulCancel(h, c, c0 - 1 - k);
  }

  /** Moving up by at most k rows moves `round(a/h)` on by at most k. */
  lemma RoundDivShift(a: int, a0: int, h: int, k: int)
    requires h > 0 && a <= a0 + h * k
    ensures RoundDiv(a, h) <= RoundDiv(a0, h) + k
  {
    var c, c0 := RoundDiv(a, h), RoundDiv(a0, h);
    assert 2 * h * (c0 + k + 1) > 2 * h * c;
    MulCancel(2 * h, c0 + k + 1, c);
  }

  /** The scroll handler re-renders when the offset moved further than `itemHeight * max(0, itemsBuffer - 1)`. */
  predicate NeedsRender(s: int, lastRender: Option<int>, h: int, b: int) {
    // An unset `lastRenderScrollTop` makes the difference NaN, which compares false.
    lastRender.Some? && Abs(s - lastRender.value) > h * Max(0, b - 1)
  }

  /**
   * The scroll hysteresis is safe: while the offset stays within the band that does not trigger
   * a re-render, every visible row of the list is still among the rows rendered at the last render
   * (the list and the menu height unchanged).
   */
  lemma ScrollBandKeepsVisibleRendered(s0: int, s: int, m: int, h: int, b: int, len: nat, i: int)
    requires h > 0 && b >= 0
    requires !NeedsRender(s, Some(s0), h, b)
    requires 0 <= i < len && Visible(i, s, m, h)
    ensures Window(s0, m, h, b, len).first <= i <= Window(s0, m, h, b, len).last
  {
    var k := Max(0, b - 1);
    CeilDivShift(s, s0, h, k);
    RoundDivShift(s + m, s0 + m, h, k);
  }

  /** One rendered row: its `data-index` and its `style.top` in pixels. */
  datatype Row = Row(index: int, top: int)

  /** The rows `renderMenu` lays out for a window: row i at top i * h, in index order. */
  function RowsOf(w: Span, h: int): seq<Row> {
    if w.first > w.last then []
    else seq(w.last - w.first + 1, k => Row(w.first + k, (w.first + k) * h))
  }

  /** The rendered rows are exactly the indices of the window, each a valid index of the list; none for an empty list. */
  lemma RowsInList(s: int, m: int, h: int, b: int, len: nat)
    requires h > 0
    ensures var rows := RowsOf(Window(s, m, h, b, len), h);
      (forall k :: 0 <= k < |rows| ==> 0 <= rows[k].index < len && rows[k].top == rows[k].index * h)
      && (forall k, l :: 0 <= k < l < |rows| ==> rows[k].index < rows[l].index)
      && (len == 0 ==> rows == [])
  {
  }

  // ---------------------------------------------------------------------------------------------
  // Requests to the data source.

  /** Which continuation handles the answer: the one of `runFilter`, or one of the two in `tryInfiniteScroll`. */
  datatype Reason = FilterFetch | CatchUp | NextPage

  /** `remoteDataSource({search, offset, count})`; a null search is `None`. */
  datatype Request = Request(reason: Reason, search: Option<string>, offset: int, count: int)

  /** The data source's answer. */
  datatype Response = Response(totalCount: int, data: seq<Record>)

  /** `this.filterText || null`: an absent or empty filter is sent as null. */
  function SearchParam(filterText: Option<string>): (p: Option<string>)
    ensures p.Some? <==> Active(filterText)
    ensures p.Some? ==> p == filterText
  {
    if Active(filterText) then filterText else None
  }

  /**
   * `filteredItems.length < offsetHeight / itemHeight + itemsBuffer`, with the division exact:
   * multiplied out by the positive row height.
   */
  predicate FewRows(len: int, m: int, h: int, b: int) {
    (len - b) * h < m
  }

  /** The request `runFilter` issues: a first page of the server search, when filtering leaves few rows. */
  function FilterRequest(filterText: Option<string>, len: nat, m: int, h: int, b: int, pageSize: int): seq<Request> {
    if Active(filterText) && FewRows(len, m, h, b) then [Request(FilterFetch, filterText, 0, pageSize)] else []
  }

  /**
   * The decision of `tryInfiniteScroll`: nothing while loading; the rows the local search showed,
   * again from the server, when no server search was made yet; otherwise the next page, as long
   * as the last known total is unknown or larger than the list.
   */
  function Fetch(loading: bool, performed: bool, totalCount: Option<int>, search: Option<string>, len: nat, pageSize: int): (r: seq<Request>)
    ensures |r| <= 1
    ensures loading ==> r == []
    ensures !loading && !performed ==> r == [Request(CatchUp, search, 0, len)]
    ensures !loading && performed ==>
      (r != [] <==> totalCount.None? || totalCount.value > len)
      && (r != [] ==> r[0] == Request(NextPage, search, len, pageSize))
  {
    if loading then []
    else if !performed then [Request(CatchUp, search, 0, len)]
    else if totalCount.None? || totalCount.value > len then [Request(NextPage, search, len, pageSize)]
    else []
  }

  /**
   * Against the server search, infinite scroll pages through the ranked result without gaps or
   * repeats: when the list holds the first k records and the server answers the next-page
   * request, the list holds the first min(k + pageSize, total) records, and a further page is
   * requested exactly when records remain.
   */
  lemma NextPageContiguous(result: seq<Record>, k: nat, pageSize: int, search: Option<string>)
    requires k <= |result| && pageSize > 0
    ensures var page := ServerSearch.Envelope(result, k, pageSize);
      var list := result[..k] + page.data;
      list == result[..Min(k + pageSize, |result|)]
      && (Fetch(false, true, Some(page.totalCount), search, |list|, pageSize) != [] <==> k + pageSize < |result|)
  {
    ServerSearch.SliceWindow(result, k, pageSize);
    var e := Min(k + pageSize, |result|);
    assert result[..k] + result[k..e] == result[..e];
  }

  // ---------------------------------------------------------------------------------------------
  // Other helpers.

  /** `s.splice(i, 1)` on a valid index: the other records keep their order. */
  function RemoveAt(s: seq<Record>, i: nat): (r: seq<Record>)
    requires i < |s|
    ensures |r| == |s| - 1
    ensures forall k :: 0 <= k < |r| ==> r[k] == if k < i then s[k] else s[k + 1]
  {
    s[..i] + s[i + 1..]
  }

  /** What `setFocusedItem` is called with: the index of a row, a row node (by its index), or anything else. */
  datatype FocusTarget = Index(n: int) | Node(index: nat) | Other

  /** What `value()` returns: all selected records, or the first one (`undefined` when none). */
  datatype Selection = All(values: set<Record>) | First(value: Option<Record>)

  /** `window.VKSearch.searchLocal`: the search of client/src/js/search.js, over name + surname. */
  function LocalSearch(query: Option<string>, users: seq<Record>): seq<Record> {
    SearchResult(NameSurname, query, users)
  }

  /** A map with at most one entry and key a has no other key. */
  lemma OnlyKey(m: map<Key, Record>, a: Key)
    requires |m| <= 1 && a in m
    ensures m.Keys == {a}
  {
    var rest := m.Keys - {a};
    assert m.Keys == rest + {a};
  }

  /** A map with at most one entry has at most one key. */
  lemma AtMostOneKey(m: map<Key, Record>)
    requires |m| <= 1
    ensures forall a, b :: a in m && b in m ==> a == b
  {
    forall a | a in m ensures m.Keys == {a} {
      OnlyKey(m, a);
    }
  }

  /** `x || d` for a numeric option: an absent or zero setting falls back to the default. */
  function OrDefault(x: Option<int>, d: int): (r: int)
  {
    if x.None? || x.value == 0 then d else x.value
  }

  // ---------------------------------------------------------------------------------------------
  // The widget.

  class Dropdown {
    const multiselect: bool
    const itemHeight: int
    const itemsBuffer: int
    const pageSize: int
    const keyFunction: Record -> Key
    /** The local search `runFilter` calls, bound to `LocalSearch` at construction. */
    const searchLocal: (Option<string>, seq<Record>) -> seq<Record>

    var items: seq<Record>
    var filteredItems: seq<Record>
    var selectedItems: map<Key, Record>
    var filterText: Option<string>
    /** null and undefined are both `None`. */
    var totalCount: Option<int>
    var serverSearchPerformed: bool
    /** `state.open`, `state.loading`, `state.notFound`. */
    var open: bool
    var loading: bool
    var notFound: bool
    /** The menu's `scrollTop` and `offsetHeight`. */
    var scrollTop: int
    var menuHeight: nat
    /** Unset until the first render. */
    var lastRenderScrollTop: Option<int>
    /** The rows currently in the items container. */
    var rows: seq<Row>
    /** The `data-index` of the focused row node, if there is one. */
    var focusedItem: Option<nat>

    /** Rows have a positive height, and a single-select dropdown holds at most one selection. */
    ghost predicate Valid()
      reads this`selectedItems
    {
      itemHeight > 0 && (!multiselect ==> |selectedItems| <= 1)
    }

    /** The rows `renderMenu` would lay out for the current list and scroll offset. */
    function CurrentRows(): seq<Row>
      reads this`scrollTop, this`menuHeight, this`filteredItems
      requires itemHeight > 0
    {
      RowsOf(Window(scrollTop, menuHeight, itemHeight, itemsBuffer, |filteredItems|), itemHeight)
    }

    /** The last row of the list is in the current window, so `renderMenu` tries to load more. */
    predicate AtEnd()
      reads this`scrollTop, this`menuHeight, this`filteredItems
      requires itemHeight > 0
    {
      Window(scrollTop, menuHeight, itemHeight, itemsBuffer, |filteredItems|).last == |filteredItems| - 1
    }

    /** Some rendered row has `data-index` i. */
    predicate IsRendered(i: int)
      reads this`rows
    {
      exists k :: 0 <= k < |rows| && rows[k].index == i
    }

    /** The focus after `setFocusedItem(n)`: the rendered row at the clamped index, if any. */
    function IndexFocus(n: int): (f: Option<nat>)
      reads this`filteredItems, this`rows
      ensures f.Some? ==> f.value < |filteredItems| && IsRendered(f.value)
      ensures f.Some? ==> f.value == Clamp(n, 0, |filteredItems| - 1)
      ensures |filteredItems| == 0 ==> f.None?
      ensures |filteredItems| > 0 ==>
        var c := Clamp(n, 0, |filteredItems| - 1); (f == Some(c) <==> IsRendered(c))
      ensures 0 <= n < |filteredItems| ==> (f == Some(n) <==> IsRendered(n))
    {
      var c := Clamp(n, 0, |filteredItems| - 1);
      if c >= 0 && IsRendered(c) then Some(c) else None
    }

    /** The list `runFilter` shows: the local search result without the selected records. */
    function FilterView(): seq<Record>
      reads this`filterText, this`items, this`selectedItems
    {
      Untaken(searchLocal(filterText, items), keyFunction, Selected(selectedItems))
    }

    /**
     * `new Dropdown(config)` without `config.items` (a config with items is this followed by
     * `Update`). Numeric settings fall back to their defaults when absent or zero.
     */
    constructor (multiselect: Option<bool>, itemHeight: Option<int>, itemsBuffer: Option<int>,
                 pageSize: Option<int>, keyFunction: Option<Record -> Key>, menuHeight: nat)
      requires itemHeight.None? || itemHeight.value >= 0
      ensures Valid()
      ensures this.multiselect == multiselect.GetOr(true)
      ensures this.itemHeight == OrDefault(itemHeight, 50)
      ensures this.itemsBuffer == OrDefault(itemsBuffer, 10)
      ensures this.pageSize == OrDefault(pageSize, 200)
      ensures this.keyFunction == keyFunction.GetOr((r: Record) => r.id)
      ensures searchLocal == LocalSearch
      ensures items == [] && filteredItems == [] && selectedItems == map[]
      ensures filterText.None? && totalCount.None? && !serverSearchPerformed
      ensures !open && !loading && !notFound
      ensures scrollTop == 0 && this.menuHeight == menuHeight && lastRenderScrollTop.None?
      ensures rows == [] && focusedItem.None?
    {
      this.multiselect := multiselect.GetOr(true);
      this.itemHeight := OrDefault(itemHeight, 50);
      this.itemsBuffer := OrDefault(itemsBuffer, 10);
      this.pageSize := OrDefault(pageSize, 200);
      this.keyFunction := keyFunction.GetOr((r: Record) => r.id);
      searchLocal := LocalSearch;
      items, filteredItems, selectedItems := [], [], map[];
      filterText, totalCount, serverSearchPerformed := None, None, false;
      open, loading, notFound := false, false, false;
      scrollTop, this.menuHeight, lastRenderScrollTop := 0, menuHeight, None;
      rows, focusedItem := [], None;
    }

    /**
     * `runFilter`: forget the server state, show the local search result minus the selected
     * records, and ask the server for a first page when a filter leaves fewer rows than fill the
     * menu plus the buffer.
     */
    method RunFilter() returns (reqs: seq<Request>)
      requires Valid()
      modifies this`totalCount, this`serverSearchPerformed, this`notFound, this`filteredItems, this`loading
      ensures Valid()
      ensures totalCount.None? && !serverSearchPerformed && !notFound
      ensures filteredItems == FilterView()
      ensures reqs == FilterRequest(filterText, |filteredItems|, menuHeight, itemHeight, itemsBuffer, pageSize)
      ensures loading == (old(loading) || reqs != [])
    {
      totalCount := None;
      serverSearchPerformed := false;
      notFound := false;
      var local := searchLocal(filterText, items);
      filteredItems := Untaken(local, keyFunction, Selected(selectedItems));
      reqs := [];
      if Active(filterText) && FewRows(|filteredItems|, menuHeight, itemHeight, itemsBuffer) {
        loading := true;
        reqs := [Request(FilterFetch, filterText, 0, pageSize)];
      }
    }

    /** `tryInfiniteScroll`: issue the request `Fetch` decides on, and mark the widget as loading. */
    method TryInfiniteScroll() returns (reqs: seq<Request>)
      modifies this`loading
      ensures reqs == Fetch(old(loading), serverSearchPerformed, totalCount, SearchParam(filterText), |filteredItems|, pageSize)
      ensures loading == (old(loading) || reqs != [])
    {
      reqs := [];
      if loading {
        return;
      }
      if !serverSearchPerformed {
        loading := true;
        reqs := [Request(CatchUp, SearchParam(filterText), 0, |filteredItems|)];
        return;
      }
      if totalCount.None? || totalCount.value > |filteredItems| {
        loading := true;
        reqs := [Request(NextPage, SearchParam(filterText), |filteredItems|, pageSize)];
      }
    }

    /**
     * `renderMenu`: lay out the window of rows for the current scroll offset, remember the
     * offset, and try to load more when the last row is in the window.
     */
    method RenderMenu() returns (reqs: seq<Request>)
      requires Valid()
      modifies this`rows, this`lastRenderScrollTop, this`loading
      ensures Valid()
      ensures lastRenderScrollTop == Some(scrollTop)
      ensures rows == CurrentRows()
      ensures reqs == if AtEnd() then Fetch(old(loading), serverSearchPerformed, totalCount, SearchParam(filterText), |filteredItems|, pageSize) else []
      ensures loading == (old(loading) || reqs != [])
    {
      var w := Window(scrollTop, menuHeight, itemHeight, itemsBuffer, |filteredItems|);
      lastRenderScrollTop := Some(scrollTop);
      var laid := [];
      var stop := if w.last + 1 < w.first then w.first else w.last + 1;
      for i := w.first to stop
        invariant laid == seq(i - w.first, k => Row(w.first + k, (w.first + k) * itemHeight))
      {
        laid := laid + [Row(i, i * itemHeight)];
      }
      rows := laid;
      reqs := [];
      if w.last == |filteredItems| - 1 {
        reqs := TryInfiniteScroll();
      }
    }

    /** `scrollTo(position)`: the offset clamped to [0, offsetHeight]. */
    method ScrollTo(position: int)
      modifies this`scrollTop
      ensures 0 <= scrollTop <= menuHeight
      ensures scrollTop == Clamp(position, 0, menuHeight)
    {
      var p := position;
      if p < 0 {
        p := 0;
      }
      if p > menuHeight {
        p := menuHeight;
      }
      scrollTop := p;
    }

    /**
     * `setFocusedItem(item)`: a row index is clamped to the list and resolved among the rendered
     * rows; a row node is focused as it is (re-focusing the focused one changes nothing); any
     * other argument only logs an error.
     */
    method SetFocusedItem(target: FocusTarget)
      modifies this`focusedItem
      ensures target.Index? ==> focusedItem == IndexFocus(target.n)
      ensures target.Node? ==> focusedItem == Some(target.index)
      ensures target.Other? ==> focusedItem == old(focusedItem)
    {
      match target
      case Node(i) =>
        if focusedItem == Some(i) {
          return;
        }
        focusedItem := Some(i);
      case Index(n) =>
        var c := n;
        if c < 0 {
          c := 0;
        }
        if c > |filteredItems| - 1 {
          c := |filteredItems| - 1;
        }
        focusedItem := if c >= 0 && IsRendered(c) then Some(c) else None;
      case Other =>
    }

    /** runFilter, scrollTo(0), renderMenu, setFocusedItem(0): the refresh on opening and on typing. */
    method RefilterFromTop() returns (reqs: seq<Request>)
      requires Valid()
      modifies this`totalCount, this`serverSearchPerformed, this`notFound, this`filteredItems, this`loading,
               this`scrollTop, this`rows, this`lastRenderScrollTop, this`focusedItem
      ensures Valid()
      ensures totalCount.None? && !serverSearchPerformed && !notFound
      ensures filteredItems == FilterView()
      ensures scrollTop == 0 && lastRenderScrollTop == Some(0)
      ensures rows == CurrentRows()
      ensures var first := FilterRequest(filterText, |filteredItems|, menuHeight, itemHeight, itemsBuffer, pageSize);
        reqs == first + if AtEnd() then Fetch(old(loading) || first != [], false, None, SearchParam(filterText), |filteredItems|, pageSize) else []
      ensures loading == (old(loading) || reqs != [])
      ensures focusedItem == IndexFocus(0)
    {
      // scrollTo(0) runs between runFilter and renderMenu; it neither reads nor writes what runFilter does.
      ScrollTo(0);
      reqs := Refilter();
      SetFocusedItem(Index(0));
    }

    /** `updateState({open: v})`: opening refreshes the menu from the top; closing only hides it. */
    method SetOpen(v: bool) returns (reqs: seq<Request>)
      requires Valid()
      modifies this`open, this`totalCount, this`serverSearchPerformed, this`notFound, this`filteredItems, this`loading,
               this`scrollTop, this`rows, this`lastRenderScrollTop, this`focusedItem
      ensures Valid()
      ensures open == v
      ensures v == old(open) || !v ==>
        reqs == [] && unchanged(this`totalCount, this`serverSearchPerformed, this`notFound, this`filteredItems, this`loading,
                                this`scrollTop, this`rows, this`lastRenderScrollTop, this`focusedItem)
      ensures v && !old(open) ==>
        filteredItems == FilterView() && totalCount.None? && !serverSearchPerformed && !notFound
        && scrollTop == 0 && lastRenderScrollTop == Some(0) && rows == CurrentRows() && focusedItem == IndexFocus(0)
        && loading == (old(loading) || reqs != [])
      ensures v && !old(open) ==>
        var first := FilterRequest(filterText, |filteredItems|, menuHeight, itemHeight, itemsBuffer, pageSize);
        reqs == first + if AtEnd() then Fetch(old(loading) || first != [], false, None, SearchParam(filterText), |filteredItems|, pageSize) else []
    {
      reqs := [];
      if open != v {
        open := v;
        if open {
          reqs := RefilterFromTop();
        }
      }
    }

    /** `update(items)`: replace the records, filter them and render. */
    method Update(newItems: seq<Record>) returns (reqs: seq<Request>)
      requires Valid()
      modifies this`items, this`totalCount, this`serverSearchPerformed, this`notFound, this`filteredItems,
               this`loading, this`rows, this`lastRenderScrollTop
      ensures Valid()
      ensures items == newItems && filteredItems == FilterView()
      ensures totalCount.None? && !serverSearchPerformed && !notFound
      ensures rows == CurrentRows() && lastRenderScrollTop == Some(scrollTop)
      ensures var first := FilterRequest(filterText, |filteredItems|, menuHeight, itemHeight, itemsBuffer, pageSize);
        reqs == first + if AtEnd() then Fetch(old(loading) || first != [], false, None, SearchParam(filterText), |filteredItems|, pageSize) else []
      ensures loading == (old(loading) || reqs != [])
    {
      items := newItems;
      reqs := Refilter();
    }

    /** runFilter, then renderMenu: used by `update` and by `remove` on an open menu. */
    method Refilter() returns (reqs: seq<Request>)
      requires Valid()
      modifies this`totalCount, this`serverSearchPerformed, this`notFound, this`filteredItems,
               this`loading, this`rows, this`lastRenderScrollTop
      ensures Valid()
      ensures filteredItems == FilterView()
      ensures totalCount.None? && !serverSearchPerformed && !notFound
      ensures rows == CurrentRows() && lastRenderScrollTop == Some(scrollTop)
      ensures var first := FilterRequest(filterText, |filteredItems|, menuHeight, itemHeight, itemsBuffer, pageSize);
        reqs == first + if AtEnd() then Fetch(old(loading) || first != [], false, None, SearchParam(filterText), |filteredItems|, pageSize) else []
      ensures loading == (old(loading) || reqs != [])
    {
      var first := RunFilter();
      ghost var busy := loading;
      var more := RenderMenu();
      assert more == if AtEnd() then Fetch(busy, false, None, SearchParam(filterText), |filteredItems|, pageSize) else [];
      reqs := first + more;
    }

    /** `onInputChanged(text)`: the new filter text, then the refresh from the top. */
    method InputChanged(text: string) returns (reqs: seq<Request>)
      requires Valid()
      modifies this`filterText, this`totalCount, this`serverSearchPerformed, this`notFound, this`filteredItems,
               this`loading, this`scrollTop, this`rows, this`lastRenderScrollTop, this`focusedItem
      ensures Valid()
      ensures filterText == Some(text)
      ensures filteredItems == FilterView()
      ensures totalCount.None? && !serverSearchPerformed && !notFound
      ensures scrollTop == 0 && lastRenderScrollTop == Some(0) && rows == CurrentRows() && focusedItem == IndexFocus(0)
      ensures var first := FilterRequest(filterText, |filteredItems|, menuHeight, itemHeight, itemsBuffer, pageSize);
        reqs == first + if AtEnd() then Fetch(old(loading) || first != [], false, None, SearchParam(filterText), |filteredItems|, pageSize) else []
      ensures loading == (old(loading) || reqs != [])
    {
      filterText := Some(text);
      reqs := RefilterFromTop();
    }

    /** The menu's scroll event, after the browser moved the offset to s. */
    method OnScroll(s: int) returns (reqs: seq<Request>)
      requires Valid()
      modifies this`scrollTop, this`rows, this`lastRenderScrollTop, this`loading
      ensures Valid()
      ensures scrollTop == s
      ensures NeedsRender(s, old(lastRenderScrollTop), itemHeight, itemsBuffer) ==>
        rows == CurrentRows() && lastRenderScrollTop == Some(s) && loading == (old(loading) || reqs != [])
        && reqs == if AtEnd() then Fetch(old(loading), serverSearchPerformed, totalCount, SearchParam(filterText), |filteredItems|, pageSize) else []
      ensures !NeedsRender(s, old(lastRenderScrollTop), itemHeight, itemsBuffer) ==>
        reqs == [] && unchanged(this`rows, this`lastRenderScrollTop, this`loading)
    {
      scrollTop := s;
      reqs := [];
      if lastRenderScrollTop.Some? && Abs(s - lastRenderScrollTop.value) > itemHeight * Max(0, itemsBuffer - 1) {
        reqs := RenderMenu();
      }
    }

    /**
     * `selectAndClose`: store the focused row's record under its key (replacing the selection in
     * single-select mode), take it out of the list and close the menu. Without a focused row, or
     * with a stale index past the end of the list, the handler throws after the single-select
     * reset; `ok` is false then.
     */
    method SelectAndClose() returns (ok: bool)
      requires Valid()
      modifies this`selectedItems, this`filteredItems, this`open
      ensures Valid()
      ensures ok == (focusedItem.Some? && focusedItem.value < |old(filteredItems)|)
      ensures !ok ==> (selectedItems == (if multiselect then old(selectedItems) else map[])
                       && filteredItems == old(filteredItems) && open == old(open))
      ensures ok ==>
        var x := old(filteredItems)[focusedItem.value];
        selectedItems == (if multiselect then old(selectedItems) else map[])[keyFunction(x) := x]
        && filteredItems == RemoveAt(old(filteredItems), focusedItem.value)
        && !open
    {
      if !multiselect {
        selectedItems := map[];
      }
      if focusedItem.None? || focusedItem.value >= |filteredItems| {
        return false;
      }
      var index := focusedItem.value;
      var x := filteredItems[index];
      selectedItems := selectedItems[keyFunction(x) := x];
      filteredItems := RemoveAt(filteredItems, index);
      // The input's blur: `updateState({open: false})`, which on closing only hides the menu.
      open := false;
      ok := true;
    }

    /** `value()`: all selected records, or in single-select mode the one selected (if any). */
    function Value(): (v: Selection)
      reads this
      requires Valid()
      ensures multiselect ==> v == All(selectedItems.Values)
      ensures !multiselect ==> v.First? && (v.value.None? <==> |selectedItems| == 0)
      ensures !multiselect && v.First? && v.value.Some? ==> selectedItems.Values == {v.value.value}
    {
      if multiselect then All(selectedItems.Values)
      else if |selectedItems| == 0 then First(None)
      else
        AtMostOneKey(selectedItems);
        var k :| k in selectedItems;
        First(Some(selectedItems[k]))
    }

    /** `remove(token)`: drop the selection under that key; an open menu is filtered and rendered again. */
    method Remove(key: Key) returns (reqs: seq<Request>)
      requires Valid()
      modifies this`selectedItems, this`totalCount, this`serverSearchPerformed, this`notFound, this`filteredItems,
               this`loading, this`rows, this`lastRenderScrollTop
      ensures Valid()
      ensures selectedItems == old(selectedItems) - {key}
      ensures !open ==> reqs == [] && unchanged(this`totalCount, this`serverSearchPerformed, this`notFound,
                                                this`filteredItems, this`loading, this`rows, this`lastRenderScrollTop)
      ensures open ==> filteredItems == FilterView() && totalCount.None? && !serverSearchPerformed && !notFound
                       && rows == CurrentRows() && lastRenderScrollTop == Some(scrollTop)
                       && loading == (old(loading) || reqs != [])
      ensures open ==>
        var first := FilterRequest(filterText, |filteredItems|, menuHeight, itemHeight, itemsBuffer, pageSize);
        reqs == first + if AtEnd() then Fetch(old(loading) || first != [], false, None, SearchParam(filterText), |filteredItems|, pageSize) else []
    {
      selectedItems := selectedItems - {key};
      reqs := [];
      if open {
        reqs := Refilter();
      }
    }

    /**
     * A data-source answer of `undefined`, which is what `searchQuery` resolves to after a failed
     * request: the continuation throws at its first use of the answer. The `runFilter`
     * continuation has marked the server search as made by then and leaves `loading` set, so
     * `tryInfiniteScroll` gives up from then on; the other two have cleared `loading` first.
     */
    method OnUndefinedResponse(reason: Reason)
      modifies this`serverSearchPerformed, this`loading
      ensures reason == FilterFetch ==> serverSearchPerformed && loading == old(loading)
      ensures reason != FilterFetch ==> serverSearchPerformed == old(serverSearchPerformed) && !loading
    {
      if reason == FilterFetch {
        serverSearchPerformed := true;
      } else {
        loading := false;
      }
    }

    /** The two `merge` calls of a server answer: the page into `items` and into `filteredItems`. */
    method MergePage(data: seq<Record>)
      modifies this`items, this`filteredItems
      ensures items == Merged(old(items), data, keyFunction)
      ensures filteredItems == Merged(old(filteredItems), data, keyFunction)
    {
      items := Merge(items, data, keyFunction);
      filteredItems := Merge(filteredItems, data, keyFunction);
    }

    /**
     * The continuation of `runFilter`'s request: record the server total, merge the page into
     * both lists (without checking the selection), flag an empty list, render and focus row 0.
     */
    method OnFilterResponse(response: Response) returns (reqs: seq<Request>)
      requires Valid()
      modifies this`serverSearchPerformed, this`totalCount, this`loading, this`items, this`filteredItems,
               this`notFound, this`rows, this`lastRenderScrollTop, this`focusedItem
      ensures Valid()
      ensures serverSearchPerformed && totalCount == Some(response.totalCount)
      ensures items == Merged(old(items), response.data, keyFunction)
      ensures filteredItems == Merged(old(filteredItems), response.data, keyFunction)
      ensures notFound == (|filteredItems| == 0)
      ensures rows == CurrentRows() && lastRenderScrollTop == Some(scrollTop)
      ensures reqs == if AtEnd() then Fetch(false, true, totalCount, SearchParam(filterText), |filteredItems|, pageSize) else []
      ensures loading == (reqs != [])
      ensures focusedItem == IndexFocus(0)
    {
      serverSearchPerformed := true;
      totalCount := Some(response.totalCount);
      loading := false;
      MergePage(response.data);
      notFound := |filteredItems| == 0;
      reqs := RenderMenu();
      SetFocusedItem(Index(0));
    }

    /**
     * The continuation of the catch-up request: merge the rows into both lists and render, and
     * only then mark the server search as made, so that this render can ask for a catch-up again.
     */
    method OnCatchUpResponse(response: Response) returns (reqs: seq<Request>)
      requires Valid()
      modifies this`loading, this`items, this`filteredItems, this`rows, this`lastRenderScrollTop, this`serverSearchPerformed
      ensures Valid()
      ensures items == Merged(old(items), response.data, keyFunction)
      ensures filteredItems == Merged(old(filteredItems), response.data, keyFunction)
      ensures rows == CurrentRows() && lastRenderScrollTop == Some(scrollTop)
      ensures reqs == if AtEnd() then Fetch(false, old(serverSearchPerformed), totalCount, SearchParam(filterText), |filteredItems|, pageSize) else []
      ensures loading == (reqs != [])
      ensures serverSearchPerformed
    {
      loading := false;
      MergePage(response.data);
      reqs := RenderMenu();
      serverSearchPerformed := true;
    }

    /** The continuation of the next-page request: append the page as it is, record the total, render. */
    method OnNextPageResponse(response: Response) returns (reqs: seq<Request>)
      requires Valid()
      modifies this`loading, this`filteredItems, this`totalCount, this`rows, this`lastRenderScrollTop
      ensures Valid()
      ensures filteredItems == old(filteredItems) + response.data
      ensures totalCount == Some(response.totalCount)
      ensures rows == CurrentRows() && lastRenderScrollTop == Some(scrollTop)
      ensures reqs == if AtEnd() then Fetch(false, serverSearchPerformed, totalCount, SearchParam(filterText), |filteredItems|, pageSize) else []
      ensures loading == (reqs != [])
    {
      loading := false;
      filteredItems := filteredItems + response.data;
      totalCount := Some(response.totalCount);
      reqs := RenderMenu();
    }
  }
}
