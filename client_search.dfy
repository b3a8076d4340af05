/** The local search of the dropdown (`search` in client/src/js/search.js): name + surname. */
module ClientSearch {
  import opened Util
  import opened Matcher

  /** `search(query, users)`: the four-tier search for a present, non-empty query; the input otherwise. */
  method Search(query: Option<string>, users: seq<Record>) returns (result: seq<Record>)
    ensures result == SearchResult(NameSurname, query, users)
    ensures !Active(query) ==> result == users
    ensures |result| <= |users|
    ensures forall x :: x in result ==> x in users
  {
    if query.Some? && |query.value| > 0 {
      var qs := DeriveQueries(query.value);
      result := RankUsers(qs, NameSurname, users);
      RankedLength(qs, NameSurname, users);
      forall x | x in result ensures x in users {
        RankedMembership(qs, NameSurname, users, x);
      }
    } else {
      result := users;
    }
  }
}
