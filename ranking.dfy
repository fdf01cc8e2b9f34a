/**
  The ranking pipeline of the backend (getTopUsers in bE/app.mjs):
  three search-result pages are concatenated, every entry is paired with
  its repository count, the candidates are sorted by that count, largest
  first, with a stable sort, and the first 300 are kept.

  The network calls become inputs: each page and each count lookup is a
  Response that either succeeded or failed.
*/
module Ranking {
  import opened Wrappers

  /** The number of candidates a ranking keeps. */
  const MaxTopUsers: nat := 300

  /** One item of a search-result page. */
  datatype SearchItem = SearchItem(login: string, avatarUrl: string, htmlUrl: string)

  /** A search item paired with its repository count. */
  datatype Candidate = Candidate(login: string, avatarUrl: string, htmlUrl: string, repoCount: int)

  function Min(a: nat, b: nat): nat { if a <= b then a else b }

  /** The entries a page contributes: its items, or none when the page
      request failed. */
  function PageItems(page: Response<seq<SearchItem>>): seq<SearchItem>
  {
    match page
    case Ok(items) => items
    case Failed => []
  }

  /** The repository count a lookup yields: its value, or 0 when the
      lookup failed. */
  function RepoCount(lookup: Response<int>): int
  {
    match lookup
    case Ok(n) => n
    case Failed => 0
  }

  /** The three pages, in page order and in-page order, duplicates kept. */
  function Concat(p1: Response<seq<SearchItem>>, p2: Response<seq<SearchItem>>,
                  p3: Response<seq<SearchItem>>): seq<SearchItem>
  {
    PageItems(p1) + PageItems(p2) + PageItems(p3)
  }

  /** The candidate built from one search item and its count lookup. */
  function Enrich(item: SearchItem, lookup: Response<int>): Candidate
  {
    Candidate(item.login, item.avatarUrl, item.htmlUrl, RepoCount(lookup))
  }

  /** Pairs every entry with its own count lookup, keeping order. */
  function WithCounts(users: seq<SearchItem>, lookups: seq<Response<int>>): (r: seq<Candidate>)
    requires |lookups| == |users|
    ensures |r| == |users|
    ensures forall i :: 0 <= i < |users| ==> r[i] == Enrich(users[i], lookups[i])
  {
    if users == [] then []
    else [Enrich(users[0], lookups[0])] + WithCounts(users[1..], lookups[1..])
  }

  /** The candidates of one run, before sorting. */
  function Candidates(p1: Response<seq<SearchItem>>, p2: Response<seq<SearchItem>>,
                      p3: Response<seq<SearchItem>>, lookups: seq<Response<int>>): seq<Candidate>
    requires |lookups| == |Concat(p1, p2, p3)|
  {
    WithCounts(Concat(p1, p2, p3), lookups)
  }

  /** Repository counts never increase from one entry to a later one. */
  predicate SortedDesc(s: seq<Candidate>)
  {
    forall i, j :: 0 <= i < j < |s| ==> s[i].repoCount >= s[j].repoCount
  }

  /** The entries of s whose count is k, in their order in s. */
  function OfCount(s: seq<Candidate>, k: int): seq<Candidate>
  {
    if s == [] then []
    else (if s[0].repoCount == k then [s[0]] else []) + OfCount(s[1..], k)
  }

  /** Puts x in front of the first entry of s whose count is not larger,
      so x comes before the entries of equal count already in s. */
  function Insert(x: Candidate, s: seq<Candidate>): seq<Candidate>
  {
    if s == [] || s[0].repoCount <= x.repoCount then [x] + s
    else [s[0]] + Insert(x, s[1..])
  }

  /** Stable sort by repository count, largest first: the comparator
      (a, b) => b.repoCount - a.repoCount under a stable sort. */
  function SortDesc(s: seq<Candidate>): seq<Candidate>
  {
    if s == [] then [] else Insert(s[0], SortDesc(s[1..]))
  }

  /** getTopUsers: concatenate, pair with counts, sort, keep the first 300. */
  function TopUsers(p1: Response<seq<SearchItem>>, p2: Response<seq<SearchItem>>,
                    p3: Response<seq<SearchItem>>, lookups: seq<Response<int>>): (r: seq<Candidate>)
    requires |lookups| == |Concat(p1, p2, p3)|
    ensures |r| == Min(|Concat(p1, p2, p3)|, MaxTopUsers)
    ensures |r| <= MaxTopUsers
    ensures SortedDesc(r)
  {
    var ranked := SortDesc(Candidates(p1, p2, p3, lookups));
    SortDescCorrect(Candidates(p1, p2, p3, lookups));
    ranked[..Min(|ranked|, MaxTopUsers)]
  }

  // ---------------------------------------------------------------------
  // Lemmas about OfCount

  lemma {:induction false} OfCountAppend(a: seq<Candidate>, b: seq<Candidate>, k: int)
    ensures OfCount(a + b, k) == OfCount(a, k) + OfCount(b, k)
  {
    if a == [] {
      assert a + b == b;
    } else {
      assert (a + b)[0] == a[0];
      assert (a + b)[1..] == a[1..] + b;
      OfCountAppend(a[1..], b, k);
    }
  }

  lemma {:induction false} OfCountMembers(s: seq<Candidate>, k: int)
    ensures forall x :: x in OfCount(s, k) ==> x in s && x.repoCount == k
  {
    if s != [] {
      OfCountMembers(s[1..], k);
    }
  }

  lemma {:induction false} OfCountPrefix(s: seq<Candidate>, n: nat, k: int)
    requires n <= |s|
    ensures OfCount(s[..n], k) <= OfCount(s, k)
  {
    if n > 0 {
      assert s[..n][0] == s[0];
      assert s[..n][1..] == s[1..][..n - 1];
      OfCountPrefix(s[1..], n - 1, k);
    }
  }

  // ---------------------------------------------------------------------
  // Correctness of the stable sort

  lemma OfCountSingle(y: Candidate, k: int)
    ensures OfCount([y], k) == if y.repoCount == k then [y] else []
  {
    assert [y][1..] == [];
  }

  /** The first entry of a descending ordering has the largest count. */
  lemma HeadIsLargest(s: seq<Candidate>, x: Candidate)
    requires SortedDesc(s) && x in s
    ensures x.repoCount <= s[0].repoCount
  {
    var j :| 0 <= j < |s| && s[j] == x;
    assert j == 0 || s[0].repoCount >= s[j].repoCount;
  }

  lemma {:induction false} InsertPermutation(x: Candidate, s: seq<Candidate>)
    ensures multiset(Insert(x, s)) == multiset(s) + multiset{x}
  {
    if s != [] && s[0].repoCount > x.repoCount {
      InsertPermutation(x, s[1..]);
      assert s == [s[0]] + s[1..];
    }
  }

  lemma {:induction false} InsertSorted(x: Candidate, s: seq<Candidate>)
    requires SortedDesc(s)
    ensures SortedDesc(Insert(x, s))
  {
    if s != [] && s[0].repoCount > x.repoCount {
      var rest := Insert(x, s[1..]);
      InsertSorted(x, s[1..]);
      InsertPermutation(x, s[1..]);
      forall j | 0 <= j < |rest| ensures s[0].repoCount >= rest[j].repoCount {
        assert rest[j] in multiset(rest);
        if rest[j] != x {
          assert rest[j] in s[1..];
        }
      }
      assert Insert(x, s) == [s[0]] + rest;
    }
  }

  lemma {:induction false} InsertStable(x: Candidate, s: seq<Candidate>, k: int)
    ensures OfCount(Insert(x, s), k) == OfCount([x], k) + OfCount(s, k)
  {
    if s == [] || s[0].repoCount <= x.repoCount {
      OfCountAppend([x], s, k);
    } else {
      var rest := Insert(x, s[1..]);
      InsertStable(x, s[1..], k);
      assert s == [s[0]] + s[1..];
      OfCountAppend([s[0]], rest, k);
      OfCountAppend([s[0]], s[1..], k);
      OfCountSingle(s[0], k);
      OfCountSingle(x, k);
    }
  }

  /** The sort orders by count, is a permutation, and keeps the relative
      order of the entries of every count. */
  lemma {:induction false} SortDescCorrect(s: seq<Candidate>)
    ensures SortedDesc(SortDesc(s))
    ensures multiset(SortDesc(s)) == multiset(s)
    ensures |SortDesc(s)| == |s|
    ensures forall k :: OfCount(SortDesc(s), k) == OfCount(s, k)
  {
    if s != [] {
      SortDescCorrect(s[1..]);
      InsertSorted(s[0], SortDesc(s[1..]));
      InsertPermutation(s[0], SortDesc(s[1..]));
      assert s == [s[0]] + s[1..];
      forall k ensures OfCount(SortDesc(s), k) == OfCount(s, k) {
        InsertStable(s[0], SortDesc(s[1..]), k);
        OfCountAppend([s[0]], s[1..], k);
      }
      assert |SortDesc(s)| == |multiset(SortDesc(s))|;
    }
  }

  lemma HeadStartsItsGroup(s: seq<Candidate>)
    requires s != []
    ensures OfCount(s, s[0].repoCount) == [s[0]] + OfCount(s[1..], s[0].repoCount)
  {
  }

  /** Two descending orderings with the same groups start with the same entry. */
  lemma HeadsAgree(r: seq<Candidate>, t: seq<Candidate>)
    requires r != [] && t != []
    requires SortedDesc(r) && SortedDesc(t)
    requires forall k :: OfCount(r, k) == OfCount(t, k)
    ensures r[0] == t[0]
  {
    var a, b := r[0].repoCount, t[0].repoCount;
    HeadStartsItsGroup(r);
    HeadStartsItsGroup(t);
    OfCountMembers(r, b);
    OfCountMembers(t, a);
    assert OfCount(r, b)[0] in OfCount(r, b);
    HeadIsLargest(r, OfCount(r, b)[0]);
    assert OfCount(t, a)[0] in OfCount(t, a);
    HeadIsLargest(t, OfCount(t, a)[0]);
  }

  /** After a common first entry, the rests have the same groups. */
  lemma TailsAgreeOnGroups(r: seq<Candidate>, t: seq<Candidate>, k: int)
    requires r != [] && t != [] && r[0] == t[0]
    requires OfCount(r, k) == OfCount(t, k)
    ensures OfCount(r[1..], k) == OfCount(t[1..], k)
  {
    var h := if r[0].repoCount == k then [r[0]] else [];
    assert OfCount(r, k) == h + OfCount(r[1..], k);
    assert OfCount(t, k) == h + OfCount(t[1..], k);
    assert OfCount(r[1..], k) == OfCount(r, k)[|h|..];
    assert OfCount(t[1..], k) == OfCount(t, k)[|h|..];
  }

  /** Two orderings by descending count that keep the same order among
      entries of equal count are the same sequence. */
  lemma {:induction false} StableOrderingsAgree(r: seq<Candidate>, t: seq<Candidate>)
    requires SortedDesc(r) && SortedDesc(t)
    requires forall k :: OfCount(r, k) == OfCount(t, k)
    ensures r == t
    decreases |r|
  {
    if r == [] && t == [] {
    } else if r == [] {
      HeadStartsItsGroup(t);
      assert false;
    } else if t == [] {
      HeadStartsItsGroup(r);
      assert false;
    } else {
      HeadsAgree(r, t);
      forall k ensures OfCount(r[1..], k) == OfCount(t[1..], k) {
        TailsAgreeOnGroups(r, t, k);
      }
      StableOrderingsAgree(r[1..], t[1..]);
      assert r == [r[0]] + r[1..];
      assert t == [t[0]] + t[1..];
    }
  }

  /** SortDesc is the only stable descending ordering of s, so it is the
      result of any sort that orders by the comparator and is stable. */
  lemma SortDescIsTheStableSort(s: seq<Candidate>, r: seq<Candidate>)
    requires SortedDesc(r)
    requires forall k :: OfCount(r, k) == OfCount(s, k)
    ensures r == SortDesc(s)
  {
    SortDescCorrect(s);
    StableOrderingsAgree(r, SortDesc(s));
  }

  // ---------------------------------------------------------------------
  // Properties of the ranking

  /** Every ranked entry is one of the candidates, and when at most 300
      candidates came in, none is dropped (duplicates across pages stay). */
  lemma TopUsersPermutation(p1: Response<seq<SearchItem>>, p2: Response<seq<SearchItem>>,
                            p3: Response<seq<SearchItem>>, lookups: seq<Response<int>>)
    requires |lookups| == |Concat(p1, p2, p3)|
    ensures multiset(TopUsers(p1, p2, p3, lookups)) <= multiset(Candidates(p1, p2, p3, lookups))
    ensures |Concat(p1, p2, p3)| <= MaxTopUsers ==>
              multiset(TopUsers(p1, p2, p3, lookups)) == multiset(Candidates(p1, p2, p3, lookups))
  {
    var cs := Candidates(p1, p2, p3, lookups);
    var ranked := SortDesc(cs);
    SortDescCorrect(cs);
    var n := Min(|ranked|, MaxTopUsers);
    assert ranked == ranked[..n] + ranked[n..];
    assert multiset(ranked) == multiset(ranked[..n]) + multiset(ranked[n..]);
  }

  /** Stability: among entries of equal count the ranking keeps the first
      ones in concatenation order, and all of them when at most 300 came in. */
  lemma TopUsersStable(p1: Response<seq<SearchItem>>, p2: Response<seq<SearchItem>>,
                       p3: Response<seq<SearchItem>>, lookups: seq<Response<int>>, k: int)
    requires |lookups| == |Concat(p1, p2, p3)|
    ensures OfCount(TopUsers(p1, p2, p3, lookups), k) <= OfCount(Candidates(p1, p2, p3, lookups), k)
    ensures |Concat(p1, p2, p3)| <= MaxTopUsers ==>
              OfCount(TopUsers(p1, p2, p3, lookups), k) == OfCount(Candidates(p1, p2, p3, lookups), k)
  {
    var cs := Candidates(p1, p2, p3, lookups);
    var ranked := SortDesc(cs);
    SortDescCorrect(cs);
    OfCountPrefix(ranked, Min(|ranked|, MaxTopUsers), k);
    assert ranked[..|ranked|] == ranked;
  }

  /** In a descending ordering, every entry after position n has a count
      no larger than any entry before it. */
  lemma DroppedAreSmaller(s: seq<Candidate>, n: nat, c: Candidate)
    requires SortedDesc(s) && n <= |s| && c in s[n..]
    ensures forall i :: 0 <= i < n ==> c.repoCount <= s[i].repoCount
  {
    var j :| 0 <= j < |s| - n && s[n..][j] == c;
    assert s[n + j] == c;
  }

  /** The ranking keeps the largest counts: every candidate left out has a
      count no larger than any kept entry. */
  lemma TopUsersKeepsLargest(p1: Response<seq<SearchItem>>, p2: Response<seq<SearchItem>>,
                             p3: Response<seq<SearchItem>>, lookups: seq<Response<int>>)
    requires |lookups| == |Concat(p1, p2, p3)|
    ensures var r := TopUsers(p1, p2, p3, lookups);
            forall c :: c in multiset(Candidates(p1, p2, p3, lookups)) - multiset(r) ==>
              forall i :: 0 <= i < |r| ==> c.repoCount <= r[i].repoCount
  {
    var cs := Candidates(p1, p2, p3, lookups);
    var ranked := SortDesc(cs);
    SortDescCorrect(cs);
    var n := Min(|ranked|, MaxTopUsers);
    var r := ranked[..n];
    assert r == TopUsers(p1, p2, p3, lookups);
    assert ranked == r + ranked[n..];
    assert multiset(cs) == multiset(r) + multiset(ranked[n..]);
    forall c: Candidate | c in multiset(cs) - multiset(r)
      ensures forall i :: 0 <= i < |r| ==> c.repoCount <= r[i].repoCount
    {
      assert c in multiset(ranked[n..]);
      DroppedAreSmaller(ranked, n, c);
    }
  }

  /** Every ranked entry carries the login, avatar and profile URL of one
      concatenated search item, and the count of that entry's own lookup. */
  lemma TopUsersEntriesFromInput(p1: Response<seq<SearchItem>>, p2: Response<seq<SearchItem>>,
                                 p3: Response<seq<SearchItem>>, lookups: seq<Response<int>>)
    requires |lookups| == |Concat(p1, p2, p3)|
    ensures var users := Concat(p1, p2, p3);
            forall c :: c in TopUsers(p1, p2, p3, lookups) ==>
              exists i :: 0 <= i < |users| && c.login == users[i].login
                && c.avatarUrl == users[i].avatarUrl && c.htmlUrl == users[i].htmlUrl
                && c.repoCount == RepoCount(lookups[i])
  {
    var users := Concat(p1, p2, p3);
    var cs := Candidates(p1, p2, p3, lookups);
    TopUsersPermutation(p1, p2, p3, lookups);
    forall c | c in TopUsers(p1, p2, p3, lookups)
      ensures exists i :: 0 <= i < |users| && c.login == users[i].login
                && c.avatarUrl == users[i].avatarUrl && c.htmlUrl == users[i].htmlUrl
                && c.repoCount == RepoCount(lookups[i])
    {
      assert c in multiset(TopUsers(p1, p2, p3, lookups));
      assert c in cs;
      var i :| 0 <= i < |cs| && cs[i] == c;
      assert c == Enrich(users[i], lookups[i]);
    }
  }

  /** A failed count lookup keeps its entry, with count 0; it is in the
      ranking whenever at most 300 entries came in. */
  lemma FailedLookupKeepsEntry(p1: Response<seq<SearchItem>>, p2: Response<seq<SearchItem>>,
                               p3: Response<seq<SearchItem>>, lookups: seq<Response<int>>, i: nat)
    requires |lookups| == |Concat(p1, p2, p3)|
    requires i < |lookups| && lookups[i] == Failed
    ensures var u := Concat(p1, p2, p3)[i];
            Candidates(p1, p2, p3, lookups)[i] == Candidate(u.login, u.avatarUrl, u.htmlUrl, 0)
    ensures var u := Concat(p1, p2, p3)[i];
            |Concat(p1, p2, p3)| <= MaxTopUsers ==>
              Candidate(u.login, u.avatarUrl, u.htmlUrl, 0) in TopUsers(p1, p2, p3, lookups)
  {
    var cs := Candidates(p1, p2, p3, lookups);
    TopUsersPermutation(p1, p2, p3, lookups);
    assert cs[i] in multiset(cs);
  }

  /** A failed page contributes no entries; when all three fail the
      ranking is empty. */
  lemma FailedPagesContributeNothing(p1: Response<seq<SearchItem>>, p2: Response<seq<SearchItem>>,
                                     p3: Response<seq<SearchItem>>)
    ensures p1 == Failed ==> Concat(p1, p2, p3) == PageItems(p2) + PageItems(p3)
    ensures p2 == Failed ==> Concat(p1, p2, p3) == PageItems(p1) + PageItems(p3)
    ensures p3 == Failed ==> Concat(p1, p2, p3) == PageItems(p1) + PageItems(p2)
    ensures p1 == p2 == p3 == Failed ==> TopUsers(p1, p2, p3, []) == []
  {
  }

  /** Three one-item pages for alice, bob and carol, with counts 10, 50
      and 30, rank as bob, carol, alice. */
  lemma ThreeUserScenario(alice: SearchItem, bob: SearchItem, carol: SearchItem)
    ensures TopUsers(Ok([alice]), Ok([bob]), Ok([carol]), [Ok(10), Ok(50), Ok(30)])
         == [Enrich(bob, Ok(50)), Enrich(carol, Ok(30)), Enrich(alice, Ok(10))]
  {
    var a, b, c := Enrich(alice, Ok(10)), Enrich(bob, Ok(50)), Enrich(carol, Ok(30));
    var cs := Candidates(Ok([alice]), Ok([bob]), Ok([carol]), [Ok(10), Ok(50), Ok(30)]);
    assert cs == [a, b, c];
    assert cs[1..] == [b, c] && cs[1..][1..] == [c];
    assert SortDesc([c]) == [c];
    assert Insert(b, [c]) == [b, c];
    assert SortDesc([b, c]) == [b, c];
    assert [b, c][1..] == [c];
    assert Insert(a, [c]) == [c, a];
    assert Insert(a, [b, c]) == [b, c, a];
  }
}
