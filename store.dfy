/** The clipboard history store (`DBManager`). Behind the SQLite calls it is
    one table `entries(id, text UNIQUE, created_at)` with an AUTOINCREMENT id:
    here a sequence of entries in insertion order plus the next id to hand
    out. The clock is an input of `Add`. */
module Store {
  import opened Text
  import opened SqlLike
  import opened Paths

  /** `sqlite3_bind_int` takes the limit through `Int32(limit)`, which traps
      outside this range. */
  const Int32Min: int := -0x8000_0000
  const Int32Max: int := 0x7FFF_FFFF

  /** One row of the table (`ClipboardEntry`). */
  datatype Entry = Entry(id: int, text: string, createdAt: int)

  /** The table's rows in insertion order and the next AUTOINCREMENT id. */
  datatype Table = Table(entries: seq<Entry>, nextId: int)

  /** What every table reachable through `Add` satisfies: ids start at 1, are
      below `nextId` and increase in insertion order; texts are non-empty,
      already trimmed and pairwise distinct (the UNIQUE constraint). */
  ghost predicate WellFormed(t: Table) {
    t.nextId >= 1
    && (forall i :: 0 <= i < |t.entries| ==>
          1 <= t.entries[i].id < t.nextId && t.entries[i].text != []
          && Trim(t.entries[i].text) == t.entries[i].text)
    && (forall i, j :: 0 <= i < j < |t.entries| ==>
          t.entries[i].id < t.entries[j].id && t.entries[i].text != t.entries[j].text)
  }

  predicate HasText(entries: seq<Entry>, text: string) {
    exists i :: 0 <= i < |entries| && entries[i].text == text
  }

  /** `add(text:)` at clock reading `now`: trim; drop a blank text before any
      statement runs; otherwise `INSERT OR IGNORE`. SQLite draws the new
      AUTOINCREMENT id before the UNIQUE check on `text`, so an insert that
      is ignored because the text is already stored (first write wins) still
      uses up an id. */
  function AddText(t: Table, text: string, now: int): (r: Table)
    ensures r.entries == t.entries || r.entries == t.entries + [Entry(t.nextId, Trim(text), now)]
  {
    var trimmed := Trim(text);
    if trimmed == [] then t
    else if HasText(t.entries, trimmed) then Table(t.entries, t.nextId + 1)
    else Table(t.entries + [Entry(t.nextId, trimmed, now)], t.nextId + 1)
  }

  /** Adding a blank text (`""`, `"   "`, `"\n\t"`) leaves the table as it is. */
  lemma AddBlankIsNoop(t: Table, text: string, now: int)
    requires AllWhitespace(text)
    ensures AddText(t, text, now) == t
  {
    TrimBlankIff(text);
  }

  /** Adding a text whose trimmed form is already stored adds no entry: the
      stored entry keeps its id and its timestamp, and only the id the
      ignored insert drew is used up. */
  lemma AddDuplicateKeepsEntries(t: Table, text: string, now: int, i: nat)
    requires !AllWhitespace(text) && i < |t.entries| && t.entries[i].text == Trim(text)
    ensures AddText(t, text, now) == Table(t.entries, t.nextId + 1)
    ensures AddText(t, text, now).entries[i] == t.entries[i]
  {
    TrimBlankIff(text);
  }

  /** Adding a new non-blank text appends exactly one entry, holding the
      trimmed text, the clock reading and an id above every stored id;
      earlier entries are untouched. */
  lemma AddNewAppendsOne(t: Table, text: string, now: int)
    requires WellFormed(t)
    requires !AllWhitespace(text) && !HasText(t.entries, Trim(text))
    ensures var r := AddText(t, text, now);
            r.entries == t.entries + [Entry(t.nextId, Trim(text), now)]
            && r.nextId == t.nextId + 1
            && forall i :: 0 <= i < |t.entries| ==> t.entries[i].id < r.entries[|t.entries|].id
  {
    TrimBlankIff(text);
  }

  /** `Add` keeps the table well formed. */
  lemma AddPreservesWellFormed(t: Table, text: string, now: int)
    requires WellFormed(t)
    ensures WellFormed(AddText(t, text, now))
  {
    var trimmed := Trim(text);
    if trimmed != [] && !HasText(t.entries, trimmed) {
      TrimIdempotent(text);
      var r := AddText(t, text, now);
      assert r.entries[|t.entries|].text == trimmed;
      forall i, j | 0 <= i < j < |r.entries|
        ensures r.entries[i].id < r.entries[j].id && r.entries[i].text != r.entries[j].text
      {
        if j == |t.entries| {
          assert r.entries[i] == t.entries[i];
        }
      }
    }
  }

  /** After adding a non-blank text, exactly one entry holds its trimmed form. */
  lemma AddLeavesExactlyOne(t: Table, text: string, now: int)
    requires WellFormed(t) && !AllWhitespace(text)
    ensures var r := AddText(t, text, now);
            exists i :: 0 <= i < |r.entries| && r.entries[i].text == Trim(text)
                        && forall j :: 0 <= j < |r.entries| && r.entries[j].text == Trim(text) ==> j == i
  {
    TrimBlankIff(text);
    AddPreservesWellFormed(t, text, now);
    var r := AddText(t, text, now);
    if !HasText(t.entries, Trim(text)) {
      assert r.entries[|t.entries|].text == Trim(text);
    }
    var i :| 0 <= i < |r.entries| && r.entries[i].text == Trim(text);
    assert forall j :: 0 <= j < |r.entries| && j != i ==> r.entries[j].text != r.entries[i].text;
  }

  /** Adding the same text again adds no entry, whatever the clock reads:
      the first add wins. A non-blank text still uses up one id. */
  lemma AddIsIdempotent(t: Table, text: string, now1: int, now2: int)
    ensures var r := AddText(t, text, now1);
            AddText(r, text, now2).entries == r.entries
            && AddText(r, text, now2).nextId == r.nextId + (if AllWhitespace(text) then 0 else 1)
  {
    TrimBlankIff(text);
    var r := AddText(t, text, now1);
    if r.entries != t.entries {
      assert r.entries[|t.entries|].text == Trim(text);
    }
  }

  /** Adding `text` once for every clock reading in `nows`, in order. */
  function AddRepeatedly(t: Table, text: string, nows: seq<int>): (r: Table)
    ensures |r.entries| <= |t.entries| + |nows|
    decreases |nows|
  {
    if nows == [] then t else AddRepeatedly(AddText(t, text, nows[0]), text, nows[1..])
  }

  /** Adding the same text N >= 1 times leaves the entries the first add
      left; each add of a non-blank text uses up one id. */
  lemma {:induction false} AddRepeatedlyIsOnce(t: Table, text: string, nows: seq<int>)
    requires nows != []
    ensures AddRepeatedly(t, text, nows).entries == AddText(t, text, nows[0]).entries
    ensures AddRepeatedly(t, text, nows).nextId == t.nextId + (if AllWhitespace(text) then 0 else |nows|)
    decreases |nows|
  {
    TrimBlankIff(text);
    var r := AddText(t, text, nows[0]);
    if |nows| > 1 {
      AddRepeatedlyIsOnce(r, text, nows[1..]);
      AddIsIdempotent(t, text, nows[0], nows[1]);
    }
  }

  /** The ids SQLite hands out can skip: `add("a")`, `add("a")`, `add("b")`
      on an empty table stores "b" with id 3, not 2. */
  lemma IgnoredInsertUsesUpAnId()
    ensures var t := AddText(AddText(AddText(Table([], 1), "a", 0), "a", 1), "b", 2);
            t.entries == [Entry(1, "a", 0), Entry(3, "b", 2)] && t.nextId == 4
  {
    TrimFixesTrimmed("a");
    TrimFixesTrimmed("b");
    var t1 := AddText(Table([], 1), "a", 0);
    assert t1 == Table([Entry(1, "a", 0)], 2);
    var t2 := AddText(t1, "a", 1);
    assert t1.entries[0].text == "a";
    assert t2 == Table([Entry(1, "a", 0)], 3);
    assert !HasText(t2.entries, "b");
  }

  // ---------------------------------------------------------------- ordering

  /** `a` may come before `b` in `ORDER BY created_at DESC`; rows with the
      same second are ordered by id, newest first. */
  predicate Precedes(a: Entry, b: Entry) {
    a.createdAt > b.createdAt || (a.createdAt == b.createdAt && a.id >= b.id)
  }

  predicate SortedRecentFirst(s: seq<Entry>) {
    forall i, j :: 0 <= i < j < |s| ==> Precedes(s[i], s[j])
  }

  /** A row preceding every row of `s` and `e` precedes every row of any
      arrangement of `s` plus `e`. */
  lemma PrecedesAllOf(x: Entry, s: seq<Entry>, e: Entry, r: seq<Entry>)
    requires multiset(r) == multiset(s) + multiset{e}
    requires Precedes(x, e) && forall k :: 0 <= k < |s| ==> Precedes(x, s[k])
    ensures forall k :: 0 <= k < |r| ==> Precedes(x, r[k])
  {
    forall k | 0 <= k < |r| ensures Precedes(x, r[k]) {
      assert r[k] in multiset(r);
      if r[k] != e {
        assert r[k] in multiset(s);
      }
    }
  }

  /** Putting a row that precedes every row in front keeps the order. */
  lemma PrependSorted(x: Entry, r: seq<Entry>)
    requires SortedRecentFirst(r)
    requires forall k :: 0 <= k < |r| ==> Precedes(x, r[k])
    ensures SortedRecentFirst([x] + r)
  {
    var xr := [x] + r;
    forall i, j | 0 <= i < j < |xr| ensures Precedes(xr[i], xr[j]) {
      assert xr[j] == r[j - 1];
      if i > 0 {
        assert xr[i] == r[i - 1];
      }
    }
  }

  /** Insert `e` into rows already in recency order. */
  function InsertByRecency(e: Entry, s: seq<Entry>): (r: seq<Entry>)
    requires SortedRecentFirst(s)
    ensures multiset(r) == multiset(s) + multiset{e}
    ensures SortedRecentFirst(r)
  {
    if s == [] || Precedes(e, s[0]) then
      assert forall k :: 0 <= k < |s| ==> Precedes(s[0], s[k]);
      PrependSorted(e, s);
      [e] + s
    else
      var rest := InsertByRecency(e, s[1..]);
      assert s == [s[0]] + s[1..];
      PrecedesAllOf(s[0], s[1..], e, rest);
      PrependSorted(s[0], rest);
      [s[0]] + rest
  }

  /** The rows in the order `ORDER BY created_at DESC` yields them: a
      permutation of the table, newest first. */
  function RecentFirst(s: seq<Entry>): (r: seq<Entry>)
    ensures multiset(r) == multiset(s)
    ensures SortedRecentFirst(r)
  {
    if s == [] then []
    else
      assert s == [s[0]] + s[1..];
      InsertByRecency(s[0], RecentFirst(s[1..]))
  }

  /** `LIMIT limit`: a negative limit means no limit in SQLite. */
  function Capped<T>(rows: seq<T>, limit: int): (r: seq<T>)
    ensures r <= rows
    ensures |r| == if 0 <= limit < |rows| then limit else |rows|
  {
    if 0 <= limit < |rows| then rows[..limit] else rows
  }

  /** What `fetchAll(limit:)` returns. */
  function MostRecent(entries: seq<Entry>, limit: int): (r: seq<Entry>) {
    Capped(RecentFirst(entries), limit)
  }

  /** Cutting rows in recency order after `limit` keeps the newest ones: each
      kept row precedes each dropped one. */
  lemma CappedKeepsNewest(s: seq<Entry>, limit: int)
    requires SortedRecentFirst(s)
    ensures SortedRecentFirst(Capped(s, limit))
    ensures forall x, y :: x in Capped(s, limit) && y in s && y !in Capped(s, limit) ==> Precedes(x, y)
  {
    var r := Capped(s, limit);
    forall x, y | x in r && y in s && y !in r ensures Precedes(x, y) {
      var i :| 0 <= i < |r| && r[i] == x;
      var j :| 0 <= j < |s| && s[j] == y;
      assert s[i] == x;
    }
  }

  /** `fetchAll(limit:)` returns `min(limit, |table|)` stored entries (all
      of them for a negative limit), newest first, and no stored entry left
      out is newer than one returned. */
  lemma MostRecentIsNewestPrefix(entries: seq<Entry>, limit: int)
    ensures var r := MostRecent(entries, limit);
            |r| == (if 0 <= limit < |entries| then limit else |entries|)
            && SortedRecentFirst(r)
            && (forall x :: x in r ==> x in entries)
            && (forall x, y :: x in r && y in entries && y !in r ==> Precedes(x, y))
  {
    var o := RecentFirst(entries);
    var r := MostRecent(entries, limit);
    assert |o| == |multiset(o)| == |multiset(entries)| == |entries|;
    CappedKeepsNewest(o, limit);
    RecentFirstSameEntries(entries);
  }

  /** The entries were added with a clock that never went back. */
  predicate InsertedInClockOrder(entries: seq<Entry>) {
    forall i, j :: 0 <= i < j < |entries| ==> entries[i].createdAt <= entries[j].createdAt
  }

  function Reversed(s: seq<Entry>): (r: seq<Entry>)
    ensures |r| == |s|
    ensures forall k :: 0 <= k < |s| ==> r[k] == s[|s| - 1 - k]
  {
    if s == [] then [] else Reversed(s[1..]) + [s[0]]
  }

  lemma {:induction false} InsertOldest(e: Entry, s: seq<Entry>)
    requires SortedRecentFirst(s)
    requires forall k :: 0 <= k < |s| ==> !Precedes(e, s[k])
    ensures InsertByRecency(e, s) == s + [e]
  {
    if s != [] {
      InsertOldest(e, s[1..]);
    }
  }

  /** Adding with a clock that does not go back keeps the clock order. */
  lemma AddKeepsClockOrder(t: Table, text: string, now: int)
    requires InsertedInClockOrder(t.entries)
    requires forall i :: 0 <= i < |t.entries| ==> t.entries[i].createdAt <= now
    ensures InsertedInClockOrder(AddText(t, text, now).entries)
  {
  }

  predicate IdsIncreasing(entries: seq<Entry>) {
    forall i, j :: 0 <= i < j < |entries| ==> entries[i].id < entries[j].id
  }

  /** When entries were added with a clock that never went back, the
      recency order is the reverse of insertion order: among entries stored
      in the same second the last one added comes first. */
  lemma {:induction false} ClockOrderListsNewestFirst(s: seq<Entry>)
    requires IdsIncreasing(s) && InsertedInClockOrder(s)
    ensures RecentFirst(s) == Reversed(s)
  {
    if s != [] {
      var tail := s[1..];
      assert forall i :: 0 <= i < |tail| ==> tail[i] == s[i + 1];
      ClockOrderListsNewestFirst(tail);
      var r := Reversed(tail);
      assert forall k :: 0 <= k < |r| ==> r[k] == s[|s| - 1 - k];
      InsertOldest(s[0], r);
    }
  }

  /** With a clock that never went back, `fetchAll(limit:)` returns the most
      recently added entries, last added first. */
  lemma FetchAllLastAddedFirst(t: Table, limit: int)
    requires WellFormed(t) && InsertedInClockOrder(t.entries)
    ensures MostRecent(t.entries, limit) == Capped(Reversed(t.entries), limit)
  {
    ClockOrderListsNewestFirst(t.entries);
  }

  // ------------------------------------------------------------------ search

  /** The rows, in their order, whose text matches `text LIKE pattern`. */
  function Matching(rows: seq<Entry>, pattern: string): (r: seq<Entry>)
    ensures forall x :: x in r <==> x in rows && Like(pattern, x.text)
  {
    if rows == [] then []
    else (if Like(pattern, rows[0].text) then [rows[0]] else []) + Matching(rows[1..], pattern)
  }

  /** Filtering keeps every matching row as many times as the rows hold it
      and drops every other row. */
  lemma {:induction false} MatchingMultiset(rows: seq<Entry>, pattern: string)
    ensures forall x :: multiset(Matching(rows, pattern))[x]
                        == if Like(pattern, x.text) then multiset(rows)[x] else 0
  {
    if rows != [] {
      MatchingMultiset(rows[1..], pattern);
      assert rows == [rows[0]] + rows[1..];
    }
  }

  /** Filtering keeps each row as many times as the rows hold it, so rows
      holding the same entries filter to the same number of rows, each of
      them stored. */
  lemma MatchingCountsEntries(rows: seq<Entry>, entries: seq<Entry>, pattern: string)
    requires multiset(rows) == multiset(entries)
    ensures multiset(Matching(rows, pattern)) <= multiset(entries)
    ensures |Matching(rows, pattern)| == |Matching(entries, pattern)|
  {
    var a, b := Matching(rows, pattern), Matching(entries, pattern);
    MatchingMultiset(rows, pattern);
    MatchingMultiset(entries, pattern);
    assert forall x :: multiset(a)[x] == multiset(b)[x];
    assert multiset(a) == multiset(b);
    assert |a| == |multiset(a)| == |multiset(b)| == |b|;
  }

  lemma {:induction false} MatchingAppend(a: seq<Entry>, b: seq<Entry>, pattern: string)
    ensures Matching(a + b, pattern) == Matching(a, pattern) + Matching(b, pattern)
  {
    if a != [] {
      assert (a + b)[1..] == a[1..] + b;
      MatchingAppend(a[1..], b, pattern);
    } else {
      assert a + b == b;
    }
  }

  /** Filtering keeps the recency order. */
  lemma {:induction false} MatchingSorted(rows: seq<Entry>, pattern: string)
    requires SortedRecentFirst(rows)
    ensures SortedRecentFirst(Matching(rows, pattern))
  {
    if rows != [] {
      MatchingSorted(rows[1..], pattern);
      var rest := Matching(rows[1..], pattern);
      assert forall k :: 0 <= k < |rest| ==> rest[k] in rows[1..];
    }
  }

  /** Filtering one more row of a prefix extends the filtered prefix by that
      row exactly when it matches. */
  lemma MatchingStep(rows: seq<Entry>, i: nat, pattern: string)
    requires i < |rows|
    ensures Matching(rows[..i + 1], pattern)
            == Matching(rows[..i], pattern) + (if Like(pattern, rows[i].text) then [rows[i]] else [])
  {
    assert rows[..i + 1] == rows[..i] + [rows[i]];
    MatchingAppend(rows[..i], [rows[i]], pattern);
  }

  /** Scanning rows in order, filtering, and stopping once `limit` rows are
      kept yields the limited filtered rows. */
  lemma MatchingScanDone(rows: seq<Entry>, i: nat, pattern: string, limit: int)
    requires i <= |rows|
    requires limit >= 0 ==> |Matching(rows[..i], pattern)| <= limit
    requires i == |rows| || (limit >= 0 && |Matching(rows[..i], pattern)| == limit)
    ensures Matching(rows[..i], pattern) == Capped(Matching(rows, pattern), limit)
  {
    assert rows == rows[..i] + rows[i..];
    MatchingAppend(rows[..i], rows[i..], pattern);
  }

  /** What `search(query:limit:)` returns: `fetchAll(limit:)` for a blank
      query, otherwise the rows matching `'%' + trimmed query + '%'`, in the
      same order and under the same limit. */
  function SearchRows(entries: seq<Entry>, query: string, limit: int): (r: seq<Entry>) {
    var q := Trim(query);
    if q == [] then MostRecent(entries, limit)
    else Capped(Matching(RecentFirst(entries), SearchPattern(q)), limit)
  }

  /** The recency order holds exactly the stored entries. */
  lemma RecentFirstSameEntries(entries: seq<Entry>)
    ensures forall x :: x in RecentFirst(entries) <==> x in entries
  {
    var o := RecentFirst(entries);
    forall x ensures x in o <==> x in entries {
      assert x in o <==> x in multiset(o);
    }
  }

  /** The rows matching `pattern`, newest first and cut after `limit`, are
      as many as there are matching entries, but at most `limit`, and hold
      no entry more often than the table does. */
  lemma NewestMatchesCount(entries: seq<Entry>, pattern: string, limit: int)
    ensures var r := Capped(Matching(RecentFirst(entries), pattern), limit);
            var n := |Matching(entries, pattern)|;
            |r| == (if 0 <= limit < n then limit else n) && multiset(r) <= multiset(entries)
  {
    var o := RecentFirst(entries);
    var m := Matching(o, pattern);
    MatchingCountsEntries(o, entries, pattern);
    PrefixMultiset(Capped(m, limit), m);
  }

  lemma PrefixMultiset(r: seq<Entry>, m: seq<Entry>)
    requires r <= m
    ensures multiset(r) <= multiset(m)
  {
    assert m == r + m[|r|..];
    assert multiset(m) == multiset(r) + multiset(m[|r|..]);
  }

  /** The rows matching `pattern`, newest first and cut after `limit`, are
      stored and matching, in recency order; below the limit every matching
      entry is there, and no matching entry left out is newer than one
      kept. */
  lemma NewestMatchesKept(entries: seq<Entry>, pattern: string, limit: int)
    ensures var r := Capped(Matching(RecentFirst(entries), pattern), limit);
            SortedRecentFirst(r)
            && (forall x :: x in r ==> x in entries && Like(pattern, x.text))
            && ((limit < 0 || |r| < limit) ==>
                  forall y :: y in entries && Like(pattern, y.text) ==> y in r)
            && (forall x, y :: x in r && y in entries && Like(pattern, y.text) && y !in r ==> Precedes(x, y))
  {
    var o := RecentFirst(entries);
    RecentFirstSameEntries(entries);
    MatchingSorted(o, pattern);
    CappedKeepsNewest(Matching(o, pattern), limit);
  }

  /** A non-blank search returns stored entries matching the pattern, newest
      first: as many as the table has matching entries, but at most `limit`,
      and none more often than the table holds it. Below the limit it
      returns every matching entry, and at the limit no matching entry left
      out is newer than one returned. Nothing matching gives the empty
      result. */
  lemma SearchReturnsNewestMatches(entries: seq<Entry>, query: string, limit: int)
    requires !AllWhitespace(query)
    ensures var p := SearchPattern(Trim(query));
            var r := SearchRows(entries, query, limit);
            var n := |Matching(entries, p)|;
            SortedRecentFirst(r)
            && |r| == (if 0 <= limit < n then limit else n)
            && multiset(r) <= multiset(entries)
            && (forall x :: x in r ==> x in entries && Like(p, x.text))
            && ((limit < 0 || |r| < limit) ==>
                  forall y :: y in entries && Like(p, y.text) ==> y in r)
            && (forall x, y :: x in r && y in entries && Like(p, y.text) && y !in r ==> Precedes(x, y))
            && ((forall y :: y in entries ==> !Like(p, y.text)) ==> r == [])
  {
    TrimBlankIff(query);
    var p := SearchPattern(Trim(query));
    NewestMatchesCount(entries, p, limit);
    NewestMatchesKept(entries, p, limit);
    var r := SearchRows(entries, query, limit);
    if r != [] {
      assert r[0] in r;
    }
  }

  /** For a query without `%` or `_`, a non-blank search returns exactly the
      stored entries that contain the trimmed query, ignoring ASCII case
      (all of them when below the limit). */
  lemma SearchIsCaseInsensitiveContainment(entries: seq<Entry>, query: string, limit: int)
    requires !AllWhitespace(query) && NoWildcards(Trim(query))
    ensures var q := Trim(query);
            var r := SearchRows(entries, query, limit);
            (forall x :: x in r ==> x in entries && ContainsIgnoringCase(x.text, q))
            && ((limit < 0 || |r| < limit) ==>
                  forall y :: y in entries && ContainsIgnoringCase(y.text, q) ==> y in r)
  {
    var q := Trim(query);
    SearchReturnsNewestMatches(entries, query, limit);
    forall s: string ensures Like(SearchPattern(q), s) <==> ContainsIgnoringCase(s, q) {
      LikeIsContainment(q, s);
    }
  }

  // ------------------------------------------------------------- the manager

  /** `DBManager`: the open database at `dbPath` and its table. */
  class DBManager {
    const dbPath: string
    var entries: seq<Entry>
    var nextId: int

    ghost predicate Valid()
      reads this
    {
      WellFormed(Table(entries, nextId))
    }

    function State(): (t: Table)
      reads this
    {
      Table(entries, nextId)
    }

    /** `init(databasePath:)`: opens the file at the given path; `stored` is
        what the file already holds (an empty table for a new file). */
    constructor (databasePath: string, stored: Table)
      requires WellFormed(stored)
      ensures Valid() && dbPath == databasePath && State() == stored
    {
      dbPath := databasePath;
      entries := stored.entries;
      nextId := stored.nextId;
    }

    /** `defaultManager()`: the manager for `<Application Support>/iClippy/iclippy.sqlite3`. */
    static method DefaultManager(appSupport: string, stored: Table) returns (m: DBManager)
      requires WellFormed(stored)
      ensures fresh(m) && m.Valid() && m.State() == stored
      ensures m.dbPath == DefaultDatabasePath(appSupport)
    {
      var dir := AppendingPathComponent(appSupport, AppFolder);
      var path := AppendingPathComponent(dir, DatabaseFile);
      m := new DBManager(path, stored);
    }

    /** `databasePath()`: the path given at construction. */
    method DatabasePath() returns (p: string)
      ensures p == dbPath
    {
      p := dbPath;
    }

    /** `add(text:)`, with the clock reading `now` passed in. */
    method Add(text: string, now: int)
      requires Valid()
      modifies this
      ensures Valid()
      ensures State() == AddText(old(State()), text, now)
    {
      AddPreservesWellFormed(State(), text, now);
      var trimmed := Trim(text);
      if trimmed == [] {
        return;
      }
      // INSERT OR IGNORE: the id is drawn before the UNIQUE check on `text`
      if !HasText(entries, trimmed) {
        entries := entries + [Entry(nextId, trimmed, now)];
      }
      nextId := nextId + 1;
    }

    /** `fetchAll(limit:)`: read the rows of `ORDER BY created_at DESC LIMIT
        limit` one by one. */
    method FetchAll(limit: int := 500) returns (rows: seq<Entry>)
      requires Int32Min <= limit <= Int32Max
      ensures rows == MostRecent(entries, limit)
    {
      var ordered := RecentFirst(entries);
      rows := [];
      var i := 0;
      while i < |ordered| && (limit < 0 || i < limit)
        invariant 0 <= i <= |ordered|
        invariant limit >= 0 ==> i <= limit
        invariant rows == ordered[..i]
      {
        rows := rows + [ordered[i]];
        i := i + 1;
      }
    }

    /** `search(query:limit:)`: a blank query falls back to `fetchAll`;
        otherwise read the rows of `WHERE text LIKE '%q%' ORDER BY created_at
        DESC LIMIT limit` one by one. */
    method Search(query: string, limit: int := 500) returns (rows: seq<Entry>)
      requires Int32Min <= limit <= Int32Max
      ensures rows == SearchRows(entries, query, limit)
      ensures AllWhitespace(query) ==> rows == MostRecent(entries, limit)
    {
      TrimBlankIff(query);
      var trimmed := Trim(query);
      if trimmed == [] {
        rows := FetchAll(limit);
        return;
      }
      var pattern := SearchPattern(trimmed);
      var ordered := RecentFirst(entries);
      rows := [];
      var i := 0;
      while i < |ordered| && (limit < 0 || |rows| < limit)
        invariant 0 <= i <= |ordered|
        invariant limit >= 0 ==> |rows| <= limit
        invariant rows == Matching(ordered[..i], pattern)
      {
        MatchingStep(ordered, i, pattern);
        if Like(pattern, ordered[i].text) {
          rows := rows + [ordered[i]];
        }
        i := i + 1;
      }
      MatchingScanDone(ordered, i, pattern, limit);
    }
  }
}
