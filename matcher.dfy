/**
 * The four-tier ranked matcher shared by the client `search` (client/src/js/search.js) and the
 * server `search` (server/core/search.js).
 *
 * A query is turned into six derived queries; each record is classified by the first tier test
 * it passes (direct, layout-switched, transliterated, layout-switched then transliterated) and
 * the result is the four tier buckets concatenated in tier order. The two copies differ only in
 * the text a record is searched by: the client searches name + surname, the server adds the
 * domain.
 */
module Matcher {
  import opened Util
  import opened Text
  import Keymap
  import Translit

  /** A user record, as far as searching and keying are concerned. */
  datatype Record = Record(id: string, name: string, surname: string, domain: Option<string>)

  /** Which fields `_compare` concatenates. */
  datatype Fields = NameSurname | NameSurnameDomain

  /** A missing domain is concatenated as the text "undefined". */
  function DomainText(domain: Option<string>): string {
    domain.GetOr("undefined")
  }

  /** The lower-cased text `_compare` searches in. */
  function Haystack(f: Fields, d: Record): string {
    match f
    case NameSurname => Lower(d.name + d.surname)
    case NameSurnameDomain => Lower(d.name + d.surname + DomainText(d.domain))
  }

  /** `_compare(d, q)`: the lower-cased searched text contains q. */
  predicate Matches(f: Fields, d: Record, q: string) {
    Contains(Haystack(f, d), q)
  }

  /** The six derived queries. */
  datatype Queries = Queries(
    direct: string,
    switched: string,
    translit: string,
    translitReverse: string,
    switchedTranslit: string,
    switchedTranslitReverse: string)

  /** The derived queries of a query (the two switched-then-transliterated ones are not lower-cased again). */
  function Derive(query: string): Queries {
    var switched := Lower(Keymap.Switched(query));
    Queries(
      Lower(RemoveFirstSpace(query)),
      switched,
      Lower(Translit.ToLatin(query)),
      Lower(Translit.ToCyrillic(query)),
      Translit.ToLatin(switched),
      Translit.ToCyrillic(switched))
  }

  /** Computes the derived queries with the helper methods, as `search` does on entry. */
  method DeriveQueries(query: string) returns (qs: Queries)
    ensures qs == Derive(query)
    ensures qs.direct == Lower(RemoveFirstSpace(query))
  {
    var switched := Keymap.SwitchKeymap(query);
    var translit := Translit.RusToEng(query);
    var translitReverse := Translit.EngToRus(query);
    var switchedLower := Lower(switched);
    var switchedTranslit := Translit.RusToEng(switchedLower);
    var switchedTranslitReverse := Translit.EngToRus(switchedLower);
    qs := Queries(Lower(RemoveFirstSpace(query)), switchedLower, Lower(translit), Lower(translitReverse),
                  switchedTranslit, switchedTranslitReverse);
  }

  /** The bucket a record lands in: `weight_1` .. `weight_4`, or none. */
  datatype Tier = Direct | LayoutSwitched | Transliterated | SwitchedTransliterated | NoMatch

  /** The bucket number; 5 for a dropped record. */
  function Weight(t: Tier): nat {
    match t
    case Direct => 1
    case LayoutSwitched => 2
    case Transliterated => 3
    case SwitchedTransliterated => 4
    case NoMatch => 5
  }

  /** The first tier test the record passes. */
  function TierOf(qs: Queries, f: Fields, d: Record): Tier {
    if Matches(f, d, qs.direct) then Direct
    else if Matches(f, d, qs.switched) then LayoutSwitched
    else if (qs.translit != qs.direct && Matches(f, d, qs.translit))
         || (qs.translitReverse != qs.direct && Matches(f, d, qs.translitReverse)) then Transliterated
    else if Matches(f, d, qs.switchedTranslit) || Matches(f, d, qs.switchedTranslitReverse) then SwitchedTransliterated
    else NoMatch
  }

  /** The classification of one search: record to tier. */
  function Classify(qs: Queries, f: Fields): Record -> Tier {
    d => TierOf(qs, f, d)
  }

  /** The records the classification puts in tier t, in input order. */
  function Bucket(tier: Record -> Tier, users: seq<Record>, t: Tier): seq<Record>
    decreases |users|
  {
    if |users| == 0 then []
    else
      var n := |users| - 1;
      Bucket(tier, users[..n], t) + (if tier(users[n]) == t then [users[n]] else [])
  }

  /** The four buckets concatenated in tier order. */
  function Concat4(tier: Record -> Tier, users: seq<Record>): seq<Record> {
    Bucket(tier, users, Direct) + Bucket(tier, users, LayoutSwitched)
      + Bucket(tier, users, Transliterated) + Bucket(tier, users, SwitchedTransliterated)
  }

  /** `weight_1.concat(weight_2, weight_3, weight_4)` */
  function Ranked(qs: Queries, f: Fields, users: seq<Record>): seq<Record> {
    Concat4(Classify(qs, f), users)
  }

  /** A query `query && query.length` lets through: present and non-empty. */
  predicate Active(query: Option<string>) {
    query.Some? && |query.value| > 0
  }

  /** What `search` returns: the ranked result for an active query, the input otherwise. */
  function SearchResult(f: Fields, query: Option<string>, users: seq<Record>): seq<Record> {
    if Active(query) then Ranked(Derive(query.value), f, users) else users
  }

  /** The classification loop of `search`: one pass over the records, pushing each into its bucket. */
  method RankUsers(qs: Queries, f: Fields, users: seq<Record>) returns (result: seq<Record>)
    ensures result == Ranked(qs, f, users)
  {
    var tier := Classify(qs, f);
    var w1, w2, w3, w4 := [], [], [], [];
    for i := 0 to |users|
      invariant w1 == Bucket(tier, users[..i], Direct)
      invariant w2 == Bucket(tier, users[..i], LayoutSwitched)
      invariant w3 == Bucket(tier, users[..i], Transliterated)
      invariant w4 == Bucket(tier, users[..i], SwitchedTransliterated)
    {
      var d := users[i];
      assert users[..i + 1][..i] == users[..i];
      if Matches(f, d, qs.direct) {
        w1 := w1 + [d];
      } else if Matches(f, d, qs.switched) {
        w2 := w2 + [d];
      } else if (qs.translit != qs.direct && Matches(f, d, qs.translit))
             || (qs.translitReverse != qs.direct && Matches(f, d, qs.translitReverse)) {
        w3 := w3 + [d];
      } else if Matches(f, d, qs.switchedTranslit) || Matches(f, d, qs.switchedTranslitReverse) {
        w4 := w4 + [d];
      }
    }
    assert users[..|users|] == users;
    result := w1 + w2 + w3 + w4;
  }

  // ---------------------------------------------------------------------------------------------
  // Properties of one bucket, for any classification.

  /** Every record of a bucket has that bucket's tier. */
  lemma {:induction false} BucketTier(tier: Record -> Tier, users: seq<Record>, t: Tier)
    ensures forall k :: 0 <= k < |Bucket(tier, users, t)| ==> tier(Bucket(tier, users, t)[k]) == t
    decreases |users|
  {
    if |users| > 0 {
      BucketTier(tier, users[..|users| - 1], t);
    }
  }

  /** A bucket holds each record of its tier as often as the input does, and no other record. */
  lemma {:induction false} BucketCount(tier: Record -> Tier, users: seq<Record>, t: Tier, x: Record)
    ensures multiset(Bucket(tier, users, t))[x] == if tier(x) == t then multiset(users)[x] else 0
    decreases |users|
  {
    if |users| > 0 {
      var n := |users| - 1;
      BucketCount(tier, users[..n], t, x);
      assert users == users[..n] + [users[n]];
    }
  }

  /**
   * A bucket keeps input order: it is the input restricted to an increasing list of positions,
   * namely every position whose record has the bucket's tier.
   */
  lemma {:induction false} BucketPositions(tier: Record -> Tier, users: seq<Record>, t: Tier) returns (pos: seq<nat>)
    ensures |pos| == |Bucket(tier, users, t)|
    ensures forall k :: 0 <= k < |pos| ==> pos[k] < |users| && Bucket(tier, users, t)[k] == users[pos[k]]
    ensures forall k, l :: 0 <= k < l < |pos| ==> pos[k] < pos[l]
    ensures forall j :: 0 <= j < |users| && tier(users[j]) == t ==> j in pos
    decreases |users|
  {
    if |users| == 0 {
      pos := [];
    } else {
      var n := |users| - 1;
      var init := users[..n];
      var p := BucketPositions(tier, init, t);
      var b0 := Bucket(tier, init, t);
      assert forall k :: 0 <= k < |p| ==> users[p[k]] == init[p[k]];
      if tier(users[n]) == t {
        assert Bucket(tier, users, t) == b0 + [users[n]];
        pos := p + [n];
        assert forall j :: 0 <= j < n && tier(users[j]) == t ==> tier(init[j]) == t;
      } else {
        assert Bucket(tier, users, t) == b0;
        pos := p;
        assert forall j :: 0 <= j < n && tier(users[j]) == t ==> tier(init[j]) == t;
      }
    }
  }

  /** Every record lands in exactly one of the five tiers. */
  lemma {:induction false} BucketsPartition(tier: Record -> Tier, users: seq<Record>)
    ensures |Bucket(tier, users, Direct)| + |Bucket(tier, users, LayoutSwitched)|
          + |Bucket(tier, users, Transliterated)| + |Bucket(tier, users, SwitchedTransliterated)|
          + |Bucket(tier, users, NoMatch)| == |users|
    decreases |users|
  {
    if |users| > 0 {
      BucketsPartition(tier, users[..|users| - 1]);
    }
  }

  // ---------------------------------------------------------------------------------------------
  // Properties of the ranked result.

  /** The ranked result is no longer than the input. */
  lemma RankedLength(qs: Queries, f: Fields, users: seq<Record>)
    ensures |Ranked(qs, f, users)| <= |users|
  {
    BucketsPartition(Classify(qs, f), users);
  }

  /** Each record occurs in the result as often as in the input when it passes a tier test, else never. */
  lemma RankedCount(qs: Queries, f: Fields, users: seq<Record>, x: Record)
    ensures multiset(Ranked(qs, f, users))[x] == if TierOf(qs, f, x) != NoMatch then multiset(users)[x] else 0
  {
    var tier := Classify(qs, f);
    BucketCount(tier, users, Direct, x);
    BucketCount(tier, users, LayoutSwitched, x);
    BucketCount(tier, users, Transliterated, x);
    BucketCount(tier, users, SwitchedTransliterated, x);
  }

  /** A record is in the result iff it is in the input and passes some tier test. */
  lemma RankedMembership(qs: Queries, f: Fields, users: seq<Record>, x: Record)
    ensures x in Ranked(qs, f, users) <==> x in users && TierOf(qs, f, x) != NoMatch
  {
    RankedCount(qs, f, users, x);
  }

  /** An input record is dropped iff it fails every applicable tier test. */
  lemma DroppedIff(qs: Queries, f: Fields, users: seq<Record>, x: Record)
    requires x in users
    ensures x !in Ranked(qs, f, users) <==>
      !Matches(f, x, qs.direct) && !Matches(f, x, qs.switched)
      && !(qs.translit != qs.direct && Matches(f, x, qs.translit))
      && !(qs.translitReverse != qs.direct && Matches(f, x, qs.translitReverse))
      && !Matches(f, x, qs.switchedTranslit) && !Matches(f, x, qs.switchedTranslitReverse)
  {
    RankedMembership(qs, f, users, x);
  }

  /** A record is in the first bucket iff it is in the input and its text contains the direct query. */
  lemma DirectIff(qs: Queries, f: Fields, users: seq<Record>, x: Record)
    ensures x in Bucket(Classify(qs, f), users, Direct) <==> x in users && Contains(Haystack(f, x), qs.direct)
  {
    BucketCount(Classify(qs, f), users, Direct, x);
  }

  /** The tier tests without the two `!== querydirect` guards of the third test. */
  function UnguardedTierOf(qs: Queries, f: Fields, d: Record): Tier {
    if Matches(f, d, qs.direct) then Direct
    else if Matches(f, d, qs.switched) then LayoutSwitched
    else if Matches(f, d, qs.translit) || Matches(f, d, qs.translitReverse) then Transliterated
    else if Matches(f, d, qs.switchedTranslit) || Matches(f, d, qs.switchedTranslitReverse) then SwitchedTransliterated
    else NoMatch
  }

  /**
   * The guards never change a tier: a transliteration equal to the direct query matches only
   * records the first test has already taken.
   */
  lemma GuardsNeverChangeTier(qs: Queries, f: Fields, d: Record)
    ensures TierOf(qs, f, d) == UnguardedTierOf(qs, f, d)
  {
  }

  /** The position of a record in the four concatenated buckets fixes its tier. */
  lemma Concat4Weight(tier: Record -> Tier, users: seq<Record>, i: nat)
    requires i < |Concat4(tier, users)|
    ensures var n1 := |Bucket(tier, users, Direct)|;
      var n2 := n1 + |Bucket(tier, users, LayoutSwitched)|;
      var n3 := n2 + |Bucket(tier, users, Transliterated)|;
      Weight(tier(Concat4(tier, users)[i])) == if i < n1 then 1 else if i < n2 then 2 else if i < n3 then 3 else 4
  {
    var b1, b2 := Bucket(tier, users, Direct), Bucket(tier, users, LayoutSwitched);
    var b3, b4 := Bucket(tier, users, Transliterated), Bucket(tier, users, SwitchedTransliterated);
    var r := Concat4(tier, users);
    assert r == b1 + b2 + b3 + b4;
    if i < |b1| {
      BucketTier(tier, users, Direct);
      assert r[i] == b1[i];
    } else if i < |b1| + |b2| {
      BucketTier(tier, users, LayoutSwitched);
      assert r[i] == b2[i - |b1|];
    } else if i < |b1| + |b2| + |b3| {
      BucketTier(tier, users, Transliterated);
      assert r[i] == b3[i - |b1| - |b2|];
    } else {
      BucketTier(tier, users, SwitchedTransliterated);
      assert r[i] == b4[i - |b1| - |b2| - |b3|];
    }
  }

  /** The result is sorted by tier: a record never precedes one of a better tier. */
  lemma RankedTierOrder(qs: Queries, f: Fields, users: seq<Record>)
    ensures var r := Ranked(qs, f, users);
      forall i, j :: 0 <= i < j < |r| ==> Weight(TierOf(qs, f, r[i])) <= Weight(TierOf(qs, f, r[j]))
  {
    var tier := Classify(qs, f);
    var r := Ranked(qs, f, users);
    forall i, j | 0 <= i < j < |r| ensures Weight(tier(r[i])) <= Weight(tier(r[j])) {
      Concat4Weight(tier, users, i);
      Concat4Weight(tier, users, j);
    }
  }

  /** An absent or empty query returns the records unchanged, in the same order. */
  lemma InactiveQueryKeepsAll(f: Fields, query: Option<string>, users: seq<Record>)
    requires !Active(query)
    ensures SearchResult(f, query, users) == users
  {
  }
}
