/**
  The ranking followed by the upsert, as the fetch-and-store request runs
  them. Because the pages are not deduplicated, one username can be
  ranked more than once; the store then keeps the entry ranked last for
  it, which is the one with the smallest count.
*/
module Pipeline {
  import opened Wrappers
  import opened Ranking
  import opened UserStore

  /** After storing a ranking, each ranked username's record holds a count
      no larger than any of that username's ranked entries. */
  lemma StoredCountIsSmallestRanked(s: Store, p1: Response<seq<SearchItem>>, p2: Response<seq<SearchItem>>,
                                    p3: Response<seq<SearchItem>>, lookups: seq<Response<int>>)
    requires WellFormed(s)
    requires |lookups| == |Concat(p1, p2, p3)|
    ensures var r := TopUsers(p1, p2, p3, lookups);
            forall i :: 0 <= i < |r| ==>
              r[i].login in UpsertAll(s, r).records
              && UpsertAll(s, r).records[r[i].login].repositoriesCount <= r[i].repoCount
  {
    var r := TopUsers(p1, p2, p3, lookups);
    UpsertAllLastWins(s, r);
    forall i | 0 <= i < |r|
      ensures r[i].login in UpsertAll(s, r).records
              && UpsertAll(s, r).records[r[i].login].repositoriesCount <= r[i].repoCount
    {
      assert r[i].login in Logins(r);
      var j :| LastOccurrence(r, j) && r[j].login == r[i].login;
      assert i <= j;
    }
  }
}
