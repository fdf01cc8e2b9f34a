/**
  The persistence step of the backend (storeUsersInDatabase in
  bE/app.mjs): the ranked candidates are upserted, one at a time and in
  order, into a document store keyed by username.

  The store is a map from username to record. Every record also carries
  the document identifier the store gives it when it is inserted; an
  update keeps the identifier, an insert takes the next fresh one. A
  database failure on the k-th candidate is an input.
*/
module UserStore {
  import opened Wrappers
  import opened Ranking

  /** A persisted user document. */
  datatype StoredUser = StoredUser(id: nat, username: string, avatarUrl: string,
                                   htmlUrl: string, repositoriesCount: int)

  /** The whole document store: the records by username, and the
      identifier the next inserted record gets. */
  datatype Store = Store(records: map<string, StoredUser>, nextId: nat)

  /** Each record sits under its own username, identifiers were handed out
      by the store, and no two records share one. */
  predicate WellFormed(s: Store)
  {
    && (forall u :: u in s.records ==> s.records[u].username == u && s.records[u].id < s.nextId)
    && (forall u, v :: u in s.records && v in s.records && u != v ==> s.records[u].id != s.records[v].id)
  }

  /** The record holds the candidate's username, URLs and count. */
  predicate Reflects(rec: StoredUser, c: Candidate)
  {
    rec.username == c.login && rec.avatarUrl == c.avatarUrl
    && rec.htmlUrl == c.htmlUrl && rec.repositoriesCount == c.repoCount
  }

  /** The usernames of a list of candidates. */
  function Logins(cs: seq<Candidate>): set<string>
  {
    set i | 0 <= i < |cs| :: cs[i].login
  }

  /** Position i holds the last candidate with its username. */
  predicate LastOccurrence(cs: seq<Candidate>, i: int)
  {
    0 <= i < |cs| && forall j :: i < j < |cs| ==> cs[j].login != cs[i].login
  }

  /** One upsert: overwrite the URLs and count of the record found under
      the username, or insert a new record. */
  function Upsert(s: Store, c: Candidate): Store
  {
    if c.login in s.records then
      var existing := s.records[c.login];
      Store(s.records[c.login := existing.(avatarUrl := c.avatarUrl, htmlUrl := c.htmlUrl,
                                           repositoriesCount := c.repoCount)], s.nextId)
    else
      Store(s.records[c.login := StoredUser(s.nextId, c.login, c.avatarUrl, c.htmlUrl, c.repoCount)],
            s.nextId + 1)
  }

  /** The candidates upserted one after the other, in list order. */
  function UpsertAll(s: Store, cs: seq<Candidate>): Store
    decreases |cs|
  {
    if cs == [] then s else Upsert(UpsertAll(s, cs[..|cs| - 1]), cs[|cs| - 1])
  }

  /** How many candidates are written when the database fails on the
      candidate at failAt, if any: those before it. */
  function Applied(n: nat, failAt: Option<nat>): (k: nat)
    ensures k <= n
  {
    match failAt
    case None => n
    case Some(f) => Min(f, n)
  }

  // ---------------------------------------------------------------------
  // Lemmas about one upsert

  lemma UpsertWellFormed(s: Store, c: Candidate)
    requires WellFormed(s)
    ensures WellFormed(Upsert(s, c))
    ensures Upsert(s, c).nextId >= s.nextId
  {
  }

  lemma UpsertEffect(s: Store, c: Candidate)
    requires WellFormed(s)
    ensures var t := Upsert(s, c);
            && t.records.Keys == s.records.Keys + {c.login}
            && Reflects(t.records[c.login], c)
            && (forall u :: u in s.records ==> t.records[u].id == s.records[u].id)
            && (forall u :: u in s.records && u != c.login ==> t.records[u] == s.records[u])
            && (c.login in s.records ==> t.nextId == s.nextId)
            && (c.login !in s.records ==> t.records[c.login].id == s.nextId && t.nextId == s.nextId + 1)
  {
  }

  // ---------------------------------------------------------------------
  // Lemmas about a whole run

  /** A run keeps the store well formed and never reuses an identifier. */
  lemma {:induction false} UpsertAllWellFormed(s: Store, cs: seq<Candidate>)
    requires WellFormed(s)
    ensures WellFormed(UpsertAll(s, cs))
    ensures UpsertAll(s, cs).nextId >= s.nextId
    decreases |cs|
  {
    if cs != [] {
      UpsertAllWellFormed(s, cs[..|cs| - 1]);
      UpsertWellFormed(UpsertAll(s, cs[..|cs| - 1]), cs[|cs| - 1]);
    }
  }

  lemma LoginsOfPrefix(cs: seq<Candidate>)
    requires cs != []
    ensures Logins(cs) == Logins(cs[..|cs| - 1]) + {cs[|cs| - 1].login}
  {
    var init := cs[..|cs| - 1];
    forall u | u in Logins(cs) ensures u in Logins(init) + {cs[|cs| - 1].login} {
      var i :| 0 <= i < |cs| && cs[i].login == u;
      if i < |cs| - 1 { assert init[i] == cs[i]; }
    }
    forall u | u in Logins(init) ensures u in Logins(cs) {
      var i :| 0 <= i < |init| && init[i].login == u;
      assert cs[i] == init[i];
    }
  }

  /** After a run the store holds exactly the usernames it held before
      and those of the candidates; no record is removed. */
  lemma {:induction false} UpsertAllKeys(s: Store, cs: seq<Candidate>)
    requires WellFormed(s)
    ensures UpsertAll(s, cs).records.Keys == s.records.Keys + Logins(cs)
    decreases |cs|
  {
    if cs != [] {
      var init := cs[..|cs| - 1];
      UpsertAllKeys(s, init);
      UpsertAllWellFormed(s, init);
      UpsertEffect(UpsertAll(s, init), cs[|cs| - 1]);
      LoginsOfPrefix(cs);
    }
  }

  /** Records whose username is not among the candidates are unchanged,
      and every record that existed keeps its identifier. */
  lemma {:induction false} UpsertAllLeavesOthers(s: Store, cs: seq<Candidate>)
    requires WellFormed(s)
    ensures var t := UpsertAll(s, cs);
            && (forall u :: u in s.records ==> u in t.records && t.records[u].id == s.records[u].id)
            && (forall u :: u in s.records && u !in Logins(cs) ==> t.records[u] == s.records[u])
    decreases |cs|
  {
    if cs != [] {
      var init := cs[..|cs| - 1];
      UpsertAllLeavesOthers(s, init);
      UpsertAllKeys(s, init);
      UpsertAllWellFormed(s, init);
      UpsertEffect(UpsertAll(s, init), cs[|cs| - 1]);
      LoginsOfPrefix(cs);
    }
  }

  /** Last write wins: the record of each candidate's username holds the
      values of the last candidate with that username. */
  lemma {:induction false} UpsertAllLastWins(s: Store, cs: seq<Candidate>)
    requires WellFormed(s)
    ensures forall i :: LastOccurrence(cs, i) ==>
              cs[i].login in UpsertAll(s, cs).records && Reflects(UpsertAll(s, cs).records[cs[i].login], cs[i])
    ensures forall u :: u in Logins(cs) ==>
              exists i :: LastOccurrence(cs, i) && cs[i].login == u
                && u in UpsertAll(s, cs).records && Reflects(UpsertAll(s, cs).records[u], cs[i])
    decreases |cs|
  {
    UpsertAllLastWritten(s, cs);
    forall u | u in Logins(cs)
      ensures exists i :: LastOccurrence(cs, i) && cs[i].login == u
                && u in UpsertAll(s, cs).records && Reflects(UpsertAll(s, cs).records[u], cs[i])
    {
      LastOccurrenceExists(cs, u);
    }
  }

  /** The record under each last-occurrence position reflects that candidate. */
  lemma {:induction false} UpsertAllLastWritten(s: Store, cs: seq<Candidate>)
    requires WellFormed(s)
    ensures forall i :: LastOccurrence(cs, i) ==>
              cs[i].login in UpsertAll(s, cs).records && Reflects(UpsertAll(s, cs).records[cs[i].login], cs[i])
    decreases |cs|
  {
    if cs != [] {
      var n := |cs| - 1;
      var init := cs[..n];
      var before := UpsertAll(s, init);
      UpsertAllLastWritten(s, init);
      UpsertAllWellFormed(s, init);
      UpsertEffect(before, cs[n]);
      forall i | LastOccurrence(cs, i)
        ensures cs[i].login in UpsertAll(s, cs).records && Reflects(UpsertAll(s, cs).records[cs[i].login], cs[i])
      {
        if i < n {
          assert cs[n].login != cs[i].login;
          assert LastOccurrence(init, i) by {
            forall j | i < j < |init| ensures init[j].login != init[i].login {
              assert init[j] == cs[j];
            }
          }
        }
      }
    }
  }

  /** Every username of the candidates has a last occurrence. */
  lemma LastOccurrenceExists(cs: seq<Candidate>, u: string)
    requires u in Logins(cs)
    ensures exists i :: LastOccurrence(cs, i) && cs[i].login == u
  {
    var i :| 0 <= i < |cs| && cs[i].login == u;
    while exists j :: i < j < |cs| && cs[j].login == u
      invariant 0 <= i < |cs| && cs[i].login == u
      decreases |cs| - i
    {
      var j :| i < j < |cs| && cs[j].login == u;
      i := j;
    }
    assert LastOccurrence(cs, i);
  }

  /** A run over usernames that are all present inserts nothing. */
  lemma {:induction false} UpsertAllNoInserts(s: Store, cs: seq<Candidate>)
    requires WellFormed(s)
    requires Logins(cs) <= s.records.Keys
    ensures UpsertAll(s, cs).nextId == s.nextId
    decreases |cs|
  {
    if cs != [] {
      var init := cs[..|cs| - 1];
      LoginsOfPrefix(cs);
      UpsertAllNoInserts(s, init);
      UpsertAllKeys(s, init);
      UpsertAllWellFormed(s, init);
      UpsertEffect(UpsertAll(s, init), cs[|cs| - 1]);
    }
  }

  /** Upserting the same list twice leaves the store as upserting it once. */
  lemma UpsertAllIdempotent(s: Store, cs: seq<Candidate>)
    requires WellFormed(s)
    ensures UpsertAll(UpsertAll(s, cs), cs) == UpsertAll(s, cs)
  {
    var t := UpsertAll(s, cs);
    var t2 := UpsertAll(t, cs);
    UpsertAllWellFormed(s, cs);
    UpsertAllKeys(s, cs);
    UpsertAllKeys(t, cs);
    UpsertAllNoInserts(t, cs);
    UpsertAllLeavesOthers(t, cs);
    UpsertAllLastWins(s, cs);
    UpsertAllLastWins(t, cs);
    forall u | u in t.records ensures t2.records[u] == t.records[u] {
      if u in Logins(cs) {
        var i :| LastOccurrence(cs, i) && cs[i].login == u;
        assert Reflects(t.records[u], cs[i]) && Reflects(t2.records[u], cs[i]);
      }
    }
    assert t2.records == t.records;
  }

  /** Running a list is running its first k candidates and then the rest,
      so a run cut short after k candidates leaves the store in the state
      the full run passes through after its k-th upsert. */
  lemma {:induction false} UpsertAllSplit(s: Store, cs: seq<Candidate>, k: nat)
    requires k <= |cs|
    ensures UpsertAll(s, cs) == UpsertAll(UpsertAll(s, cs[..k]), cs[k..])
    decreases |cs|
  {
    if k == |cs| {
      assert cs[..k] == cs;
      assert cs[k..] == [];
    } else {
      var n := |cs| - 1;
      UpsertAllSplit(s, cs[..n], k);
      assert cs[..n][..k] == cs[..k];
      assert cs[k..][..|cs[k..]| - 1] == cs[..n][k..];
      assert cs[k..][|cs[k..]| - 1] == cs[n];
    }
  }

  /** Storing dave and then an updated dave leaves one record for dave,
      with the second count. */
  lemma UpdatedUserScenario(s: Store, dave: Candidate, count: int)
    requires WellFormed(s)
    ensures var t := UpsertAll(UpsertAll(s, [dave]), [dave.(repoCount := count)]);
            && dave.login in t.records
            && t.records[dave.login].repositoriesCount == count
            && t.records.Keys == s.records.Keys + {dave.login}
  {
    var once := UpsertAll(s, [dave]);
    assert [dave][..0] == [];
    assert [dave.(repoCount := count)][..0] == [];
    assert UpsertAll(s, [dave][..0]) == s;
    assert [dave][|[dave]| - 1] == dave;
    assert once == Upsert(s, dave);
    UpsertEffect(s, dave);
    UpsertWellFormed(s, dave);
    UpsertEffect(once, dave.(repoCount := count));
  }

  /** The document store the backend writes to. */
  class UserDatabase {
    var records: map<string, StoredUser>
    var nextId: nat

    ghost predicate Valid()
      reads this
    {
      WellFormed(State())
    }

    function State(): Store
      reads this
    {
      Store(records, nextId)
    }

    constructor ()
      ensures Valid() && State() == Store(map[], 0)
    {
      records := map[];
      nextId := 0;
    }

    /** User.findOne({ username }): the record stored under the username. */
    method FindOne(username: string) returns (found: Option<StoredUser>)
      requires Valid()
      ensures found.Some? <==> username in records
      ensures found.Some? ==> found.value == records[username] && found.value.username == username
    {
      if username in records {
        found := Some(records[username]);
      } else {
        found := None;
      }
    }

    /** storeUsersInDatabase: upsert each candidate in order. A database
        failure on the candidate at failAt ends the whole loop, so the
        candidates before it stay written and none after it is tried. */
    method StoreUsersInDatabase(users: seq<Candidate>, failAt: Option<nat>)
      requires Valid()
      modifies this
      ensures Valid()
      ensures State() == UpsertAll(old(State()), users[..Applied(|users|, failAt)])
      ensures failAt.None? ==> State() == UpsertAll(old(State()), users)
      ensures failAt.Some? && failAt.value <= |users| ==>
                State() == UpsertAll(old(State()), users[..failAt.value])
    {
      var i := 0;
      while i < |users|
        invariant 0 <= i <= Applied(|users|, failAt)
        invariant Valid()
        invariant State() == UpsertAll(old(State()), users[..i])
      {
        if failAt == Some(i) {
          return;
        }
        var user := users[i];
        var existing := FindOne(user.login);
        if existing.Some? {
          var updated := existing.value.(avatarUrl := user.avatarUrl, htmlUrl := user.htmlUrl,
                                         repositoriesCount := user.repoCount);
          records := records[user.login := updated];
        } else {
          records := records[user.login := StoredUser(nextId, user.login, user.avatarUrl,
                                                      user.htmlUrl, user.repoCount)];
          nextId := nextId + 1;
        }
        assert users[..i + 1][..i] == users[..i];
        i := i + 1;
      }
      assert users[..i] == users;
      assert users[..|users|] == users;
    }
  }
}
