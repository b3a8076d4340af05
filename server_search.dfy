/**
 * The server search (`search(query, offset, count)` in server/core/search.js): the same four-tier
 * matcher over name + surname + domain, answered as one page of the ranked result.
 */
module ServerSearch {
  import opened Util
  import opened Matcher

  /** The response envelope; `searchExecutionTime` is left out. */
  datatype Page = Page(totalCount: nat, offset: int, count: int, data: seq<Record>)

  /** `Array.prototype.slice` index normalisation: a negative index counts from the end; clamped to [0, len]. */
  function SliceIndex(i: int, len: nat): (k: nat)
    ensures k <= len
  {
    if i < 0 then (if len + i < 0 then 0 else len + i)
    else if i > len then len
    else i
  }

  /** `a.slice(begin, end)` */
  function Slice<T>(a: seq<T>, begin: int, end: int): seq<T> {
    var b := SliceIndex(begin, |a|);
    var e := SliceIndex(end, |a|);
    if b < e then a[b..e] else []
  }

  /** The envelope of a ranked result: its total length and the page `slice(offset, offset + count)`. */
  function Envelope(result: seq<Record>, offset: int, count: int): Page {
    Page(|result|, offset, count, Slice(result, offset, offset + count))
  }

  /** `search(query, offset, count)` over the record store. */
  method Search(store: seq<Record>, query: Option<string>, offset: int, count: int) returns (page: Page)
    ensures page == Envelope(SearchResult(NameSurnameDomain, query, store), offset, count)
    ensures page.offset == offset && page.count == count
    ensures page.totalCount == |SearchResult(NameSurnameDomain, query, store)|
    ensures !Active(query) ==> page.totalCount == |store|
  {
    var result;
    if query.Some? && |query.value| > 0 {
      var qs := DeriveQueries(query.value);
      result := RankUsers(qs, NameSurnameDomain, store);
    } else {
      result := store;
    }
    page := Page(|result|, offset, count, Slice(result, offset, offset + count));
  }

  /** For a non-negative offset and count, the page is the stretch [offset, offset + count) of the result, cut at its end. */
  lemma SliceWindow<T>(a: seq<T>, offset: int, count: int)
    requires offset >= 0 && count >= 0
    ensures Min(offset, |a|) <= Min(offset + count, |a|) <= |a|
    ensures Slice(a, offset, offset + count) == a[Min(offset, |a|)..Min(offset + count, |a|)]
    ensures |Slice(a, offset, offset + count)| <= count
  {
  }

  /** The pages of size c at offsets o, o + c, o + 2c, ... up to the end of the result, concatenated. */
  function PagesFrom(result: seq<Record>, o: nat, c: nat): seq<Record>
    requires c > 0
    decreases |result| - o
  {
    if o >= |result| then [] else Envelope(result, o, c).data + PagesFrom(result, o + c, c)
  }

  /** Paging from offset o on yields exactly the records from position o on, each once, in order. */
  lemma {:induction false} PagesFromIsSuffix(result: seq<Record>, o: nat, c: nat)
    requires c > 0 && o <= |result|
    ensures PagesFrom(result, o, c) == result[o..]
    decreases |result| - o
  {
    if o < |result| {
      SliceWindow(result, o, c);
      var e := Min(o + c, |result|);
      PagesFromIsSuffix(result, e, c);
      if o + c >= |result| {
        assert PagesFrom(result, o + c, c) == [];
      }
      assert result[o..e] + result[e..] == result[o..];
    }
  }

  /** Pages at offsets 0, c, 2c, ... concatenate to the whole ranked result. */
  lemma PagesCoverResult(store: seq<Record>, query: Option<string>, c: nat)
    requires c > 0
    ensures PagesFrom(SearchResult(NameSurnameDomain, query, store), 0, c) == SearchResult(NameSurnameDomain, query, store)
  {
    var result := SearchResult(NameSurnameDomain, query, store);
    PagesFromIsSuffix(result, 0, c);
  }
}
