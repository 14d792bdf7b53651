/** The offline cache's table and its least-recently-used quota. */
module OfflineCache {
  import opened MetadataCatalogue
  import opened Results

  datatype Key = Key(torrent: TorrentId, file: int)

  datatype Row = Row(size: nat, progress: real, offlineReady: bool, lastAccess: int, addedAt: int)

  type Table = map<Key, Row>

  ghost function Total(t: Table): nat {
    if t == map[] then 0 else var k :| k in t; t[k].size + Total(t - {k})
  }

  /** Rows in the order SELECT ... ORDER BY last_access ASC may return them: each once, ties in any order. */
  ghost predicate LruOrder(t: Table, rows: seq<Key>) {
    && (forall k :: k in t <==> k in rows)
    && (forall i, j :: 0 <= i < j < |rows| ==> rows[i] != rows[j])
    && (forall i, j :: 0 <= i < j < |rows| && rows[i] in t && rows[j] in t ==>
          t[rows[i]].lastAccess <= t[rows[j]].lastAccess)
  }

  ghost function KeysOf(rows: seq<Key>): set<Key> {
    set k | k in rows
  }

  /** The table without the first n rows of an order. */
  ghost function Without(t: Table, rows: seq<Key>, n: nat): Table
    requires n <= |rows|
  {
    t - KeysOf(rows[..n])
  }

  /** SUM(file_size) over the rows, in the order they are scanned. */
  function SumOfSizes(t: Table, rows: seq<Key>): nat
    requires forall k :: k in rows ==> k in t
  {
    if rows == [] then 0 else SumOfSizes(t, rows[1..]) + t[rows[0]].size
  }

  /** INSERT OR IGNORE of each file in turn. */
  function Inserted(t: Table, id: TorrentId, files: seq<FileInfo>, now: int): Table {
    if files == [] then t
    else
      var f := files[|files| - 1];
      var t' := Inserted(t, id, files[..|files| - 1], now);
      if Key(id, f.index) in t' then t' else t'[Key(id, f.index) := Row(f.size, 0.0, false, now, now)]
  }

  function Touched(t: Table, k: Key, now: int): Table {
    if k in t then t[k := t[k].(lastAccess := now)] else t
  }

  /** What enforcing a quota must leave: the table untouched when there is no quota or it is met; otherwise a prefix of
      the order evicted, just long enough to meet it. */
  ghost predicate Enforced(quota: int, before: Table, rows: seq<Key>, after: Table) {
    if quota <= 0 || Total(before) <= quota then after == before
    else
      && Total(after) <= quota
      && exists n: nat ::
           0 < n <= |rows| && after == Without(before, rows, n) && Total(Without(before, rows, n - 1)) > quota
  }

  // ----- Sums over the table

  lemma {:induction false} TotalRemove(t: Table, k: Key)
    requires k in t
    ensures Total(t) == t[k].size + Total(t - {k})
  {
    var p :| p in t && Total(t) == t[p].size + Total(t - {p});
    if p != k {
      TotalRemove(t - {p}, k);
      TotalRemove(t - {k}, p);
      assert t - {p} - {k} == t - {k} - {p};
    }
  }

  lemma {:induction false} SumIgnoresRemoved(t: Table, k: Key, rows: seq<Key>)
    requires k !in rows && forall j :: j in rows ==> j in t
    ensures SumOfSizes(t, rows) == SumOfSizes(t - {k}, rows)
  {
    if rows != [] {
      SumIgnoresRemoved(t, k, rows[1..]);
    }
  }

  lemma RestIsInOrder(t: Table, rows: seq<Key>)
    requires LruOrder(t, rows) && rows != []
    ensures rows[0] in t && rows[0] !in rows[1..] && LruOrder(t - {rows[0]}, rows[1..])
  {
    assert rows == [rows[0]] + rows[1..];
  }

  lemma {:induction false} TotalIsSum(t: Table, rows: seq<Key>)
    requires LruOrder(t, rows)
    ensures forall k :: k in rows ==> k in t
    ensures SumOfSizes(t, rows) == Total(t)
  {
    if rows != [] {
      RestIsInOrder(t, rows);
      TotalRemove(t, rows[0]);
      TotalIsSum(t - {rows[0]}, rows[1..]);
      SumIgnoresRemoved(t, rows[0], rows[1..]);
    } else {
      assert t == map[];
    }
  }

  lemma WithoutNone(t: Table, rows: seq<Key>)
    ensures Without(t, rows, 0) == t
  {
    assert KeysOf(rows[..0]) == {};
  }

  lemma WithoutNext(t: Table, rows: seq<Key>, n: nat)
    requires n < |rows|
    ensures Without(t, rows, n + 1) == Without(t, rows, n) - {rows[n]}
  {
    assert rows[..n + 1] == rows[..n] + [rows[n]];
    assert KeysOf(rows[..n + 1]) == KeysOf(rows[..n]) + {rows[n]};
  }

  /** Evicting row n after those before it frees exactly its size. */
  ghost predicate Peel(t: Table, rows: seq<Key>, n: nat)
    requires n < |rows|
  {
    rows[n] in t && Total(Without(t, rows, n)) == t[rows[n]].size + Total(Without(t, rows, n + 1))
  }

  ghost predicate PeelsOff(t: Table, rows: seq<Key>) {
    forall n: nat :: n < |rows| ==> Peel(t, rows, n)
  }

  lemma EvictionsPeelOff(t: Table, rows: seq<Key>)
    requires LruOrder(t, rows)
    ensures PeelsOff(t, rows)
  {
    forall n: nat | n < |rows| ensures Peel(t, rows, n) {
      WithoutNext(t, rows, n);
      assert rows[n] in rows && rows[n] !in rows[..n];
      TotalRemove(Without(t, rows, n), rows[n]);
    }
  }

  lemma NothingLeft(t: Table, rows: seq<Key>)
    requires LruOrder(t, rows)
    ensures Total(Without(t, rows, |rows|)) == 0
  {
    assert rows[..|rows|] == rows;
    assert Without(t, rows, |rows|) == map[];
  }

  lemma {:induction false} MostRecent(t: Table) returns (k: Key)
    requires t != map[]
    ensures k in t && forall j :: j in t ==> t[j].lastAccess <= t[k].lastAccess
    decreases |t|
  {
    k :| k in t;
    if t - {k} != map[] {
      var other := MostRecent(t - {k});
      assert forall j :: j in t ==> j == k || j in t - {k};
      if t[other].lastAccess > t[k].lastAccess {
        k := other;
      }
    }
  }

  /** Orders of two tables, the first touched no later than the second, make an order of both. */
  lemma OrdersAppend(a: Table, b: Table, first: seq<Key>, second: seq<Key>)
    requires LruOrder(a, first) && LruOrder(b, second) && a.Keys !! b.Keys
    requires forall i, j :: i in a && j in b ==> a[i].lastAccess <= b[j].lastAccess
    ensures LruOrder(a + b, first + second)
  {
    var t, rows, n := a + b, first + second, |first|;
    forall k ensures k in t <==> k in rows {
      assert k in rows <==> k in first || k in second;
    }
    forall i, j | 0 <= i < j < |rows|
      ensures rows[i] != rows[j] && t[rows[i]].lastAccess <= t[rows[j]].lastAccess
    {
      assert if i < n then rows[i] == first[i] && rows[i] in first else rows[i] == second[i - n] && rows[i] in second;
      assert if j < n then rows[j] == first[j] && rows[j] in first else rows[j] == second[j - n] && rows[j] in second;
    }
  }

  lemma PutBack(t: Table, k: Key)
    requires k in t
    ensures t == (t - {k}) + map[k := t[k]]
  {
  }

  lemma OneRowOrder(k: Key, row: Row)
    ensures LruOrder(map[k := row], [k])
  {
  }

  /** Some order always exists, so the query has an answer. */
  lemma {:induction false} LruOrderExists(t: Table) returns (rows: seq<Key>)
    ensures LruOrder(t, rows)
    decreases |t|
  {
    if t == map[] {
      rows := [];
    } else {
      var last := MostRecent(t);
      var rest := LruOrderExists(t - {last});
      rows := rest + [last];
      OneRowOrder(last, t[last]);
      OrdersAppend(t - {last}, map[last := t[last]], rest, [last]);
      PutBack(t, last);
    }
  }

  // ----- Inserting

  /** Known files keep their row, and inserting the same files again later changes nothing. */
  lemma {:induction false} InsertedKeepsKnown(t: Table, id: TorrentId, files: seq<FileInfo>, now: int)
    ensures forall k :: k in t ==> k in Inserted(t, id, files, now) && Inserted(t, id, files, now)[k] == t[k]
    ensures forall k :: k in Inserted(t, id, files, now) && k !in t ==>
      exists i :: 0 <= i < |files| && k == Key(id, files[i].index)
               && Inserted(t, id, files, now)[k] == Row(files[i].size, 0.0, false, now, now)
    ensures forall i :: 0 <= i < |files| ==> Key(id, files[i].index) in Inserted(t, id, files, now)
  {
    if files != [] {
      InsertedKeepsKnown(t, id, files[..|files| - 1], now);
    }
  }

  lemma {:induction false} InsertingKnownChangesNothing(t: Table, id: TorrentId, files: seq<FileInfo>, now: int)
    requires forall i :: 0 <= i < |files| ==> Key(id, files[i].index) in t
    ensures Inserted(t, id, files, now) == t
  {
    if files != [] {
      InsertingKnownChangesNothing(t, id, files[..|files| - 1], now);
    }
  }

  /** Adding a torrent twice is adding it once, whenever the second time comes. */
  lemma AddingTwiceIsAddingOnce(t: Table, id: TorrentId, files: seq<FileInfo>, now: int, later: int)
    ensures Inserted(Inserted(t, id, files, now), id, files, later) == Inserted(t, id, files, now)
  {
    InsertedKeepsKnown(t, id, files, now);
    InsertingKnownChangesNothing(Inserted(t, id, files, now), id, files, later);
  }

  // ----- What enforcement guarantees

  /** A quota once enforced stays enforced: whatever order a second call gets, it evicts nothing. */
  lemma SecondCallEvictsNothing(quota: int, before: Table, rows: seq<Key>, after: Table, rows': seq<Key>, again: Table)
    requires Enforced(quota, before, rows, after) && Enforced(quota, after, rows', again)
    ensures again == after
    ensures quota > 0 ==> Total(after) <= quota
  {
  }

  /** Entries leave oldest first: whatever is left was touched no earlier than whatever was evicted. */
  lemma SurvivorsAreNewer(quota: int, before: Table, rows: seq<Key>, after: Table, gone: Key, kept: Key)
    requires LruOrder(before, rows) && Enforced(quota, before, rows, after)
    requires gone in before && gone !in after && kept in after
    ensures kept in before && before[kept] == after[kept] && before[gone].lastAccess <= before[kept].lastAccess
  {
    var n: nat :| n <= |rows| && after == Without(before, rows, n);
    var i :| 0 <= i < |rows| && rows[i] == gone;
    var j :| 0 <= j < |rows| && rows[j] == kept;
    assert j < n ==> rows[..n][j] == kept;
    assert i >= n ==> gone !in rows[..n];
  }

  lemma SortedAt(t: Table, rows: seq<Key>, i: nat, j: nat)
    requires LruOrder(t, rows) && i <= j < |rows|
    ensures rows[i] in t && rows[j] in t && t[rows[i]].lastAccess <= t[rows[j]].lastAccess
  {
    assert rows[i] in rows && rows[j] in rows;
  }

  lemma {:induction false} TotalsFall(t: Table, rows: seq<Key>, i: nat, j: nat)
    requires PeelsOff(t, rows) && i <= j <= |rows|
    ensures Total(Without(t, rows, j)) <= Total(Without(t, rows, i))
  {
    if i < j {
      assert Peel(t, rows, j - 1);
      TotalsFall(t, rows, i, j - 1);
    }
  }

  lemma LeftIff(t: Table, rows: seq<Key>, i: nat, n: nat)
    requires LruOrder(t, rows) && i < |rows| && n <= |rows|
    ensures rows[i] in Without(t, rows, n) <==> n <= i
  {
    assert rows[i] in rows;
    assert i < n ==> rows[..n][i] == rows[i];
  }

  lemma LeftAfterCut(quota: int, t: Table, rows: seq<Key>, n: nat, i: nat)
    requires LruOrder(t, rows) && PeelsOff(t, rows) && i < |rows| && 0 < n <= |rows|
    requires Total(Without(t, rows, n - 1)) > quota >= Total(Without(t, rows, n))
    ensures rows[i] in Without(t, rows, n) <==> Total(Without(t, rows, i)) <= quota
  {
    LeftIff(t, rows, i, n);
    if n <= i {
      TotalsFall(t, rows, n, i);
    } else {
      TotalsFall(t, rows, i, n - 1);
    }
  }

  lemma NothingCut(quota: int, t: Table, rows: seq<Key>, i: nat)
    requires LruOrder(t, rows) && PeelsOff(t, rows) && i < |rows| && Total(t) <= quota
    ensures rows[i] in t && Total(Without(t, rows, i)) <= quota
  {
    WithoutNone(t, rows);
    TotalsFall(t, rows, 0, i);
    assert rows[i] in rows;
  }

  /** Each entry's fate: it is kept, as it was, exactly when there is no quota or it and all after it in the order fit.
      */
  lemma KeptIff(quota: int, t: Table, rows: seq<Key>, after: Table, i: nat)
    requires LruOrder(t, rows) && Enforced(quota, t, rows, after) && i < |rows|
    ensures rows[i] in t && (rows[i] in after <==> quota <= 0 || Total(Without(t, rows, i)) <= quota)
    ensures rows[i] in after ==> after[rows[i]] == t[rows[i]]
  {
    EvictionsPeelOff(t, rows);
    SortedAt(t, rows, i, i);
    if quota <= 0 {
    } else if Total(t) <= quota {
      NothingCut(quota, t, rows, i);
    } else {
      var n: nat :| 0 < n <= |rows| && after == Without(t, rows, n) && Total(Without(t, rows, n - 1)) > quota;
      LeftAfterCut(quota, t, rows, n, i);
    }
  }

  // ----- Who survives whatever the order of ties

  /** Entries touched no earlier than k. */
  ghost function NoOlder(t: Table, k: Key): Table
    requires k in t
  {
    map j | j in t && t[k].lastAccess <= t[j].lastAccess :: t[j]
  }

  /** k and the entries touched later. */
  ghost function NewerAnd(t: Table, k: Key): Table
    requires k in t
  {
    map j | j in t && (j == k || t[k].lastAccess < t[j].lastAccess) :: t[j]
  }

  ghost predicate PartOf(part: Table, t: Table) {
    forall j :: j in part ==> j in t && part[j] == t[j]
  }

  lemma {:induction false} PartTotals(part: Table, t: Table)
    requires PartOf(part, t)
    ensures Total(part) <= Total(t)
    decreases |part|
  {
    if part != map[] {
      var k :| k in part;
      TotalRemove(part, k);
      TotalRemove(t, k);
      PartTotals(part - {k}, t - {k});
    }
  }

  lemma RestLiesBetween(t: Table, rows: seq<Key>, i: nat)
    requires LruOrder(t, rows) && i < |rows|
    ensures rows[i] in t
    ensures PartOf(NewerAnd(t, rows[i]), Without(t, rows, i)) && PartOf(Without(t, rows, i), NoOlder(t, rows[i]))
  {
    SortedAt(t, rows, i, i);
    forall j: nat | j < |rows|
      ensures rows[j] in Without(t, rows, i) <==> i <= j
      ensures j <= i ==> t[rows[j]].lastAccess <= t[rows[i]].lastAccess
      ensures i <= j ==> t[rows[i]].lastAccess <= t[rows[j]].lastAccess
    {
      LeftIff(t, rows, j, i);
      if j <= i {
        SortedAt(t, rows, j, i);
      } else {
        SortedAt(t, rows, i, j);
      }
    }
    forall k | k in t ensures exists j: nat :: j < |rows| && rows[j] == k {
      assert k in rows;
    }
  }

  lemma PutTogether(t: Table, k: Key, upper: Table)
    requires k in t && PartOf(upper, t) && k !in upper
    ensures t == (t - upper.Keys - {k}) + map[k := t[k]] + upper
  {
  }

  lemma BelowIsGone(t: Table, k: Key, lower: seq<Key>, upper: Table, order: seq<Key>)
    requires k in t && PartOf(upper, t) && k !in upper
    requires forall j :: j in lower <==> j in t - upper.Keys - {k}
    ensures Without(t, lower + [k] + order, |lower|).Keys == upper.Keys + {k}
  {
    assert (lower + [k] + order)[..|lower|] == lower;
  }

  /** Orders of two parts, one touched no later and one no earlier than k, make an order with k between them. */
  lemma JoinOrders(t: Table, k: Key, lower: seq<Key>, upper: Table, order: seq<Key>)
    requires k in t && PartOf(upper, t) && k !in upper
    requires LruOrder(t - upper.Keys - {k}, lower) && LruOrder(upper, order)
    requires forall j :: j in t && j !in upper ==> t[j].lastAccess <= t[k].lastAccess
    requires forall j :: j in upper ==> t[k].lastAccess <= t[j].lastAccess
    ensures var rows := lower + [k] + order;
      LruOrder(t, rows) && rows[|lower|] == k && Without(t, rows, |lower|).Keys == upper.Keys + {k}
  {
    var below, here := t - upper.Keys - {k}, map[k := t[k]];
    OneRowOrder(k, t[k]);
    OrdersAppend(below, here, lower, [k]);
    OrdersAppend(below + here, upper, lower + [k], order);
    PutTogether(t, k, upper);
    BelowIsGone(t, k, lower, upper, order);
  }

  /** Some order has k before all entries touched as late. */
  lemma FirstOfTies(t: Table, k: Key) returns (rows: seq<Key>, i: nat)
    requires k in t
    ensures LruOrder(t, rows) && i < |rows| && rows[i] == k && Without(t, rows, i) == NoOlder(t, k)
  {
    var upper := NoOlder(t, k) - {k};
    var lower := LruOrderExists(t - upper.Keys - {k});
    var order := LruOrderExists(upper);
    JoinOrders(t, k, lower, upper, order);
    rows, i := lower + [k] + order, |lower|;
    assert Without(t, rows, i).Keys == NoOlder(t, k).Keys;
  }

  /** Some order has k after all entries touched as late. */
  lemma LastOfTies(t: Table, k: Key) returns (rows: seq<Key>, i: nat)
    requires k in t
    ensures LruOrder(t, rows) && i < |rows| && rows[i] == k && Without(t, rows, i) == NewerAnd(t, k)
  {
    var upper := NewerAnd(t, k) - {k};
    var lower := LruOrderExists(t - upper.Keys - {k});
    var order := LruOrderExists(upper);
    JoinOrders(t, k, lower, upper, order);
    rows, i := lower + [k] + order, |lower|;
    assert Without(t, rows, i).Keys == NewerAnd(t, k).Keys;
  }

  lemma {:induction false} Crossing(f: int -> int, quota: int, n: nat, end: nat) returns (m: nat)
    requires n <= end && f(n) > quota >= f(end)
    ensures n < m <= end && f(m - 1) > quota >= f(m)
    decreases end - n
  {
    m := n + 1;
    if f(m) > quota {
      m := Crossing(f, quota, m, end);
    }
  }

  /** Enforcement has a result for every order. */
  lemma EnforcedExists(quota: int, t: Table, rows: seq<Key>) returns (after: Table)
    requires LruOrder(t, rows)
    ensures Enforced(quota, t, rows, after)
  {
    after := t;
    if quota > 0 && Total(t) > quota {
      WithoutNone(t, rows);
      NothingLeft(t, rows);
      var m := Crossing(i => if 0 <= i <= |rows| then Total(Without(t, rows, i)) else 0, quota, 0, |rows|);
      after := Without(t, rows, m);
    }
  }

  ghost predicate KeptIn(quota: int, t: Table, k: Key, rows: seq<Key>, after: Table) {
    LruOrder(t, rows) && Enforced(quota, t, rows, after) && k in after
  }

  ghost predicate EvictedIn(quota: int, t: Table, k: Key, rows: seq<Key>, after: Table) {
    LruOrder(t, rows) && Enforced(quota, t, rows, after) && k !in after
  }

  /** Whatever order the database returns ties in, k survives exactly when all entries touched no earlier fit the quota
      together. */
  lemma SurvivesEveryOrderIff(quota: int, t: Table, k: Key)
    requires k in t && 0 < quota
    ensures (forall rows, after :: !EvictedIn(quota, t, k, rows, after)) <==> Total(NoOlder(t, k)) <= quota
  {
    forall rows, after | EvictedIn(quota, t, k, rows, after) ensures Total(NoOlder(t, k)) > quota {
      var i :| 0 <= i < |rows| && rows[i] == k;
      KeptIff(quota, t, rows, after, i);
      RestLiesBetween(t, rows, i);
      PartTotals(Without(t, rows, i), NoOlder(t, k));
    }
    var rows, i := FirstOfTies(t, k);
    var after := EnforcedExists(quota, t, rows);
    KeptIff(quota, t, rows, after, i);
    assert Total(NoOlder(t, k)) > quota ==> EvictedIn(quota, t, k, rows, after);
  }

  /** And in some order it survives exactly when it and the entries touched later do. */
  lemma SurvivesSomeOrderIff(quota: int, t: Table, k: Key)
    requires k in t && 0 < quota
    ensures (exists rows, after :: KeptIn(quota, t, k, rows, after)) <==> Total(NewerAnd(t, k)) <= quota
  {
    forall rows, after | KeptIn(quota, t, k, rows, after) ensures Total(NewerAnd(t, k)) <= quota {
      var i :| 0 <= i < |rows| && rows[i] == k;
      KeptIff(quota, t, rows, after, i);
      RestLiesBetween(t, rows, i);
      PartTotals(NewerAnd(t, k), Without(t, rows, i));
    }
    var rows, i := LastOfTies(t, k);
    var after := EnforcedExists(quota, t, rows);
    KeptIff(quota, t, rows, after, i);
    assert Total(NewerAnd(t, k)) <= quota ==> KeptIn(quota, t, k, rows, after);
  }

  /** Entry k was touched strictly later than any other. */
  ghost predicate StrictlyNewest(t: Table, k: Key) {
    k in t && forall j :: j in t && j != k ==> t[j].lastAccess < t[k].lastAccess
  }

  lemma NewestAlone(t: Table, k: Key)
    requires StrictlyNewest(t, k)
    ensures Total(NoOlder(t, k)) == t[k].size
  {
    TotalRemove(NoOlder(t, k), k);
    assert NoOlder(t, k) - {k} == map[];
  }

  /** The strictly most recently touched entry survives if it fits the quota by itself. */
  lemma MostRecentSurvives(quota: int, before: Table, rows: seq<Key>, after: Table, k: Key)
    requires LruOrder(before, rows) && Enforced(quota, before, rows, after)
    requires StrictlyNewest(before, k) && before[k].size <= quota
    ensures k in after && after[k] == before[k]
  {
    if 0 < quota {
      NewestAlone(before, k);
      SurvivesEveryOrderIff(quota, before, k);
      assert !EvictedIn(quota, before, k, rows, after);
    }
  }

  /** Entries last touched at a given second. */
  ghost function TouchedAt(t: Table, now: int): Table {
    map j | j in t && t[j].lastAccess == now :: t[j]
  }

  lemma NoOlderThanNow(t: Table, k: Key, now: int)
    requires k in t && forall j :: j in t ==> t[j].lastAccess <= now
    ensures NoOlder(Touched(t, k, now), k) == TouchedAt(Touched(t, k, now), now)
  {
  }

  /** A file accessed now is safe from the next enforcement exactly when the files accessed in the same second fit the
      quota together with it; if there are none, exactly when it fits alone. */
  lemma AccessedFileSurvives(quota: int, t: Table, k: Key, now: int)
    requires k in t && 0 < quota && forall j :: j in t ==> t[j].lastAccess <= now
    ensures var touched := Touched(t, k, now);
      && ((forall rows, after :: !EvictedIn(quota, touched, k, rows, after))
           <==> Total(TouchedAt(touched, now)) <= quota)
      && ((forall j :: j in t && j != k ==> t[j].lastAccess < now) ==> Total(TouchedAt(touched, now)) == t[k].size)
  {
    SurvivesEveryOrderIff(quota, Touched(t, k, now), k);
    NoOlderThanNow(t, k, now);
    if forall j :: j in t && j != k ==> t[j].lastAccess < now {
      NewestAlone(Touched(t, k, now), k);
    }
  }

  // ----- Histories of the table

  /** The operations on the table, with what each is given. */
  datatype CacheOp =
    | TorrentAdded(id: TorrentId, files: seq<FileInfo>, now: int)
    | ProgressUpdated(key: Key, progress: real, now: int)
    | FileCompleted(key: Key, now: int)
    | Accessed(key: Key, now: int)
    | QuotaEnforced(rows: seq<Key>)

  /** What one operation makes of the table. An update of a row that is not there does nothing. */
  ghost predicate CacheStep(quota: int, t: Table, op: CacheOp, t': Table) {
    match op
    case TorrentAdded(id, files, now) => t' == Inserted(t, id, files, now)
    case ProgressUpdated(k, progress, now) =>
      t' == if k in t then t[k := t[k].(progress := progress, lastAccess := now)] else t
    case FileCompleted(k, now) =>
      t' == if k in t then t[k := t[k].(offlineReady := true, progress := 1.0, lastAccess := now)] else t
    case Accessed(k, now) => t' == Touched(t, k, now)
    case QuotaEnforced(rows) => LruOrder(t, rows) && Enforced(quota, t, rows, t')
  }

  /** The tables before, between and after some operations. */
  ghost predicate IsHistory(quota: int, tables: seq<Table>, ops: seq<CacheOp>) {
    && |tables| == |ops| + 1
    && forall i :: 0 <= i < |ops| ==> CacheStep(quota, tables[i], ops[i], tables[i + 1])
  }

  lemma HistoryExtends(quota: int, tables: seq<Table>, ops: seq<CacheOp>, op: CacheOp, t: Table)
    requires IsHistory(quota, tables, ops) && CacheStep(quota, tables[|ops|], op, t)
    ensures IsHistory(quota, tables + [t], ops + [op])
  {
    var more, all := tables + [t], ops + [op];
    forall i | 0 <= i < |all| ensures CacheStep(quota, more[i], all[i], more[i + 1]) {
      assert i < |ops| ==> more[i] == tables[i] && more[i + 1] == tables[i + 1] && all[i] == ops[i];
    }
  }

  /** Row k has been there from table i on. */
  ghost predicate KeptSince(tables: seq<Table>, k: Key, i: int)
    requires 0 <= i
  {
    forall m :: i <= m < |tables| ==> k in tables[m]
  }

  /** Row k was ready when the history began, or its file was completed since, and it has not been gone after that. */
  ghost predicate ReadySince(tables: seq<Table>, ops: seq<CacheOp>, k: Key)
    requires |tables| == |ops| + 1
  {
    || (KeptSince(tables, k, 0) && k in tables[0] && tables[0][k].offlineReady)
    || exists i :: 0 <= i < |ops| && ops[i].FileCompleted? && ops[i].key == k && KeptSince(tables, k, i)
  }

  lemma EvictionKeepsRows(quota: int, t: Table, op: CacheOp, t': Table, k: Key)
    requires CacheStep(quota, t, op, t') && op.QuotaEnforced? && k in t'
    ensures k in t && t'[k] == t[k]
  {
    if t' != t {
      var n: nat :| n <= |op.rows| && t' == Without(t, op.rows, n);
    }
  }

  /** One operation seen by one row: completed, kept as it was, inserted, or evicted. */
  lemma ReadyStep(quota: int, t: Table, op: CacheOp, t': Table, k: Key)
    requires CacheStep(quota, t, op, t')
    ensures k in t' && t'[k].offlineReady
       <==> k in t && k in t' && (t[k].offlineReady || (op.FileCompleted? && op.key == k))
  {
    match op {
      case TorrentAdded(id, files, now) => InsertedKeepsKnown(t, id, files, now);
      case QuotaEnforced(_) =>
        if k in t' {
          EvictionKeepsRows(quota, t, op, t', k);
        }
      case _ =>
    }
  }

  lemma KeptSinceStep(tables: seq<Table>, t: Table, k: Key, i: nat)
    requires i < |tables|
    ensures KeptSince(tables + [t], k, i) <==> KeptSince(tables, k, i) && k in t
  {
    var more := tables + [t];
    assert forall m :: 0 <= m < |tables| ==> more[m] == tables[m];
    assert more[|tables|] == t;
  }

  lemma ReadySinceStep(tables: seq<Table>, ops: seq<CacheOp>, op: CacheOp, t: Table, k: Key)
    requires |tables| == |ops| + 1
    ensures ReadySince(tables + [t], ops + [op], k)
       <==> k in t && (ReadySince(tables, ops, k) || (op.FileCompleted? && op.key == k && k in tables[|ops|]))
  {
    var more, all := tables + [t], ops + [op];
    KeptSinceStep(tables, t, k, 0);
    forall i: nat | i < |ops|
      ensures all[i] == ops[i] && (KeptSince(more, k, i) <==> KeptSince(tables, k, i) && k in t)
    {
      KeptSinceStep(tables, t, k, i);
    }
    KeptSinceStep(tables, t, k, |ops|);
    assert all[|ops|] == op;
    if ReadySince(tables, ops, k) && k in t
       && !(KeptSince(tables, k, 0) && k in tables[0] && tables[0][k].offlineReady) {
      var i :| 0 <= i < |ops| && ops[i].FileCompleted? && ops[i].key == k && KeptSince(tables, k, i);
      assert all[i].FileCompleted? && all[i].key == k && KeptSince(more, k, i);
    }
  }

  /** A file is ready offline exactly when its row was stored as ready or a completion reached it, and the row has not
      been evicted since. Adding its torrent again, progress and accesses neither make it ready nor undo it. */
  lemma {:induction false} ReadyIffCompletedAndKept(quota: int, tables: seq<Table>, ops: seq<CacheOp>, k: Key)
    requires IsHistory(quota, tables, ops)
    ensures k in tables[|ops|] && tables[|ops|][k].offlineReady <==> ReadySince(tables, ops, k)
  {
    if ops != [] {
      var n := |ops| - 1;
      var init, before := ops[..n], tables[..n + 1];
      ReadyIffCompletedAndKept(quota, before, init, k);
      ReadyStep(quota, tables[n], ops[n], tables[n + 1], k);
      ReadySinceStep(before, init, ops[n], tables[n + 1], k);
      assert tables == before + [tables[n + 1]] && ops == init + [ops[n]];
    }
  }

  /** The operations that set a row's last access, all but insertion: a progress update counts as one. */
  predicate Touches(op: CacheOp, k: Key) {
    (op.ProgressUpdated? || op.FileCompleted? || op.Accessed?) && op.key == k
  }

  lemma UntouchedKeepsAccess(quota: int, t: Table, op: CacheOp, t': Table, k: Key)
    requires CacheStep(quota, t, op, t') && !Touches(op, k) && k in t && k in t'
    ensures t'[k].lastAccess == t[k].lastAccess
  {
    match op {
      case TorrentAdded(id, files, now) => InsertedKeepsKnown(t, id, files, now);
      case QuotaEnforced(_) => EvictionKeepsRows(quota, t, op, t', k);
      case _ =>
    }
  }

  /** A row's last access, by which it is evicted, is the time of the last operation that touched it. */
  lemma {:induction false} LastAccessIsLastTouch(quota: int, tables: seq<Table>, ops: seq<CacheOp>, k: Key, i: nat)
    requires IsHistory(quota, tables, ops) && i < |ops| && Touches(ops[i], k) && KeptSince(tables, k, i)
    requires forall m :: i < m < |ops| ==> !Touches(ops[m], k)
    ensures k in tables[|ops|] && tables[|ops|][k].lastAccess == ops[i].now
  {
    var n := |ops| - 1;
    if i < n {
      LastAccessIsLastTouch(quota, tables[..n + 1], ops[..n], k, i);
      UntouchedKeepsAccess(quota, tables[n], ops[n], tables[n + 1], k);
    }
  }

  /** Where a row's last access comes from: row k, there from table i on and not touched since, has the one it was
      stored with, the time of the operation that touched it last, or the time of its insertion. */
  ghost predicate AccessFrom(tables: seq<Table>, ops: seq<CacheOp>, k: Key, i: nat, time: int)
    requires |tables| == |ops| + 1 && i <= |ops|
  {
    && KeptSince(tables, k, i) && (forall m :: i <= m < |ops| ==> !Touches(ops[m], k))
    && k in tables[i] && tables[i][k].lastAccess == time
    && (i > 0 ==>
          || (Touches(ops[i - 1], k) && k in tables[i - 1] && time == ops[i - 1].now)
          || (ops[i - 1].TorrentAdded? && k !in tables[i - 1] && time == ops[i - 1].now))
  }

  /** One operation seen by a row that is there afterwards. */
  lemma AccessStep(quota: int, t: Table, op: CacheOp, t': Table, k: Key)
    requires CacheStep(quota, t, op, t') && k in t'
    ensures if k in t
      then t'[k].lastAccess == if Touches(op, k) then op.now else t[k].lastAccess
      else op.TorrentAdded? && t'[k].lastAccess == op.now
  {
    match op {
      case TorrentAdded(id, files, now) => InsertedKeepsKnown(t, id, files, now);
      case QuotaEnforced(_) => EvictionKeepsRows(quota, t, op, t', k);
      case _ =>
    }
  }

  lemma AccessGoesOn(tables: seq<Table>, ops: seq<CacheOp>, k: Key, i: nat, time: int)
    requires |tables| == |ops| + 1 && i < |ops| && k in tables[|ops|] && !Touches(ops[|ops| - 1], k)
    requires AccessFrom(tables[..|ops|], ops[..|ops| - 1], k, i, time)
    ensures AccessFrom(tables, ops, k, i, time)
  {
    var before, init, n := tables[..|ops|], ops[..|ops| - 1], |ops| - 1;
    assert forall m :: 0 <= m <= n ==> tables[m] == before[m];
    assert forall m :: 0 <= m < n ==> ops[m] == init[m];
    assert KeptSince(tables, k, i) by {
      assert forall m :: i <= m <= n ==> k in before[m];
    }
  }

  /** Over every history, every row there is has its last access from one of these. */
  lemma {:induction false} LastAccessOrigin(quota: int, tables: seq<Table>, ops: seq<CacheOp>, k: Key) returns (i: nat)
    requires IsHistory(quota, tables, ops) && k in tables[|ops|]
    ensures i <= |ops| && AccessFrom(tables, ops, k, i, tables[|ops|][k].lastAccess)
  {
    i := |ops|;
    if ops != [] {
      var n := |ops| - 1;
      AccessStep(quota, tables[n], ops[n], tables[n + 1], k);
      if k in tables[n] && !Touches(ops[n], k) {
        i := LastAccessOrigin(quota, tables[..n + 1], ops[..n], k);
        AccessGoesOn(tables, ops, k, i, tables[n][k].lastAccess);
      }
    }
  }

  // ----- Columns

  /** What an operation reports as the progress of row k. */
  function ReportOf(op: CacheOp, k: Key): Option<real> {
    match op
    case ProgressUpdated(key, progress, _) => if key == k then Some(progress) else None
    case FileCompleted(key, _) => if key == k then Some(1.0) else None
    case _ => None
  }

  /** The operation inserted row k, new, for one of its files. */
  ghost predicate InsertedBy(op: CacheOp, k: Key, row: Row) {
    && op.TorrentAdded?
    && exists i :: 0 <= i < |op.files| && k == Key(op.id, op.files[i].index)
                && row == Row(op.files[i].size, 0.0, false, op.now, op.now)
  }

  /** What one operation makes of each column of a row that is there afterwards. */
  lemma ColumnsStep(quota: int, t: Table, op: CacheOp, t': Table, k: Key)
    requires CacheStep(quota, t, op, t') && k in t'
    ensures if k in t then
        && t'[k].size == t[k].size && t'[k].addedAt == t[k].addedAt
        && t'[k].progress == (if ReportOf(op, k).Some? then ReportOf(op, k).value else t[k].progress)
        && t'[k].offlineReady == (t[k].offlineReady || (op.FileCompleted? && op.key == k))
        && t'[k].lastAccess == (if Touches(op, k) then op.now else t[k].lastAccess)
      else InsertedBy(op, k, t'[k])
  {
    match op {
      case TorrentAdded(id, files, now) => InsertedKeepsKnown(t, id, files, now);
      case QuotaEnforced(_) => EvictionKeepsRows(quota, t, op, t', k);
      case _ =>
    }
  }

  /** Which rows an operation leaves: insertions add those of their files, enforcement only takes away, and the updates
      do neither. */
  lemma RowsStep(quota: int, t: Table, op: CacheOp, t': Table, k: Key)
    requires CacheStep(quota, t, op, t')
    ensures op.TorrentAdded? ==>
      (k in t' <==> k in t || exists i :: 0 <= i < |op.files| && k == Key(op.id, op.files[i].index))
    ensures op.QuotaEnforced? ==> (k in t' ==> k in t)
    ensures !op.TorrentAdded? && !op.QuotaEnforced? ==> (k in t' <==> k in t)
  {
    match op {
      case TorrentAdded(id, files, now) => InsertedKeepsKnown(t, id, files, now);
      case QuotaEnforced(_) =>
        if k in t' {
          EvictionKeepsRows(quota, t, op, t', k);
        }
      case _ =>
    }
  }

  /** Row k, there from table i on, was inserted just before it, or was in the database. */
  ghost predicate CameAt(tables: seq<Table>, ops: seq<CacheOp>, k: Key, i: nat)
    requires |tables| == |ops| + 1 && i <= |ops|
  {
    && KeptSince(tables, k, i)
    && (i > 0 ==> k !in tables[i - 1] && k in tables[i] && InsertedBy(ops[i - 1], k, tables[i][k]))
  }

  lemma KeptOneMore(tables: seq<Table>, k: Key, i: nat, n: nat)
    requires n + 1 == |tables| && i < n && KeptSince(tables[..n], k, i) && k in tables[n]
    ensures KeptSince(tables, k, i)
  {
    assert forall m :: i <= m < n ==> k in tables[..n][m];
  }

  lemma CameBefore(tables: seq<Table>, ops: seq<CacheOp>, k: Key, i: nat)
    requires |tables| == |ops| + 1 && i < |ops| && k in tables[|ops|]
    requires CameAt(tables[..|ops|], ops[..|ops| - 1], k, i)
    ensures CameAt(tables, ops, k, i) && tables[i] == tables[..|ops|][i]
  {
    KeptOneMore(tables, k, i, |ops|);
  }

  lemma CameNow(quota: int, tables: seq<Table>, ops: seq<CacheOp>, k: Key)
    requires |tables| == |ops| + 1 && k in tables[|ops|]
    requires ops != [] ==> CacheStep(quota, tables[|ops| - 1], ops[|ops| - 1], tables[|ops|]) && k !in tables[|ops| - 1]
    ensures CameAt(tables, ops, k, |ops|)
  {
    if ops != [] {
      ColumnsStep(quota, tables[|ops| - 1], ops[|ops| - 1], tables[|ops|], k);
    }
  }

  lemma HistoryBefore(quota: int, tables: seq<Table>, ops: seq<CacheOp>)
    requires IsHistory(quota, tables, ops) && ops != []
    ensures IsHistory(quota, tables[..|ops|], ops[..|ops| - 1])
    ensures CacheStep(quota, tables[|ops| - 1], ops[|ops| - 1], tables[|ops|])
    ensures tables[..|ops|][|ops| - 1] == tables[|ops| - 1]
  {
  }

  /** Over every history a row has the size and the age it was inserted or stored with. */
  lemma {:induction false} SizeIsFromInsertion(quota: int, tables: seq<Table>, ops: seq<CacheOp>, k: Key)
    returns (i: nat)
    requires IsHistory(quota, tables, ops) && k in tables[|ops|]
    ensures i <= |ops| && CameAt(tables, ops, k, i) && k in tables[i]
    ensures tables[|ops|][k].size == tables[i][k].size && tables[|ops|][k].addedAt == tables[i][k].addedAt
    decreases |ops|
  {
    if ops != [] {
      HistoryBefore(quota, tables, ops);
    }
    if ops == [] || k !in tables[|ops| - 1] {
      i := |ops|;
      CameNow(quota, tables, ops, k);
    } else {
      i := SizeIsFromInsertion(quota, tables[..|ops|], ops[..|ops| - 1], k);
      CameBefore(tables, ops, k, i);
      ColumnsStep(quota, tables[|ops| - 1], ops[|ops| - 1], tables[|ops|], k);
    }
  }

  /** Row k, there and unreported from table i on, has the progress just reported before that, none if it was just
      inserted, or the one it was stored with. */
  ghost predicate ProgressFrom(tables: seq<Table>, ops: seq<CacheOp>, k: Key, i: nat, progress: real)
    requires |tables| == |ops| + 1 && i <= |ops|
  {
    && KeptSince(tables, k, i) && (forall m :: i <= m < |ops| ==> ReportOf(ops[m], k) == None)
    && k in tables[i] && tables[i][k].progress == progress
    && (i > 0 ==> if k in tables[i - 1] then ReportOf(ops[i - 1], k) == Some(progress) else progress == 0.0)
  }

  lemma ProgressBefore(tables: seq<Table>, ops: seq<CacheOp>, k: Key, i: nat, progress: real)
    requires |tables| == |ops| + 1 && i < |ops| && k in tables[|ops|] && ReportOf(ops[|ops| - 1], k) == None
    requires ProgressFrom(tables[..|ops|], ops[..|ops| - 1], k, i, progress)
    ensures ProgressFrom(tables, ops, k, i, progress)
  {
    KeptOneMore(tables, k, i, |ops|);
    assert forall m :: 0 <= m < |ops| - 1 ==> ops[m] == ops[..|ops| - 1][m];
  }

  lemma ProgressNow(quota: int, tables: seq<Table>, ops: seq<CacheOp>, k: Key)
    requires |tables| == |ops| + 1 && k in tables[|ops|]
    requires ops != [] ==>
      && CacheStep(quota, tables[|ops| - 1], ops[|ops| - 1], tables[|ops|])
      && (k in tables[|ops| - 1] ==> ReportOf(ops[|ops| - 1], k).Some?)
    ensures ProgressFrom(tables, ops, k, |ops|, tables[|ops|][k].progress)
  {
    if ops != [] {
      ColumnsStep(quota, tables[|ops| - 1], ops[|ops| - 1], tables[|ops|], k);
    }
  }

  /** Over every history a row has the progress last reported for it, 1 from a completion, or what it was inserted or
      stored with if nothing has been reported. */
  lemma {:induction false} ProgressIsLastReport(quota: int, tables: seq<Table>, ops: seq<CacheOp>, k: Key)
    returns (i: nat)
    requires IsHistory(quota, tables, ops) && k in tables[|ops|]
    ensures i <= |ops| && ProgressFrom(tables, ops, k, i, tables[|ops|][k].progress)
    decreases |ops|
  {
    if ops != [] {
      HistoryBefore(quota, tables, ops);
    }
    if ops == [] || k !in tables[|ops| - 1] || ReportOf(ops[|ops| - 1], k).Some? {
      i := |ops|;
      ProgressNow(quota, tables, ops, k);
    } else {
      i := ProgressIsLastReport(quota, tables[..|ops|], ops[..|ops| - 1], k);
      ProgressBefore(tables, ops, k, i, tables[|ops| - 1][k].progress);
      ColumnsStep(quota, tables[|ops| - 1], ops[|ops| - 1], tables[|ops|], k);
    }
  }

  // ----- The manager

  class OfflineCacheManager {
    const maxStorageBytes: int
    var entries: Table
    ghost var tables: seq<Table>  // the table at the start and after each operation
    ghost var ops: seq<CacheOp>

    ghost predicate Valid()
      reads this
    {
      IsHistory(maxStorageBytes, tables, ops) && tables[|ops|] == entries
    }

    /** Opens a database, which may hold rows of earlier sessions. */
    constructor (maxStorageBytes: int, stored: Table)
      ensures Valid() && this.maxStorageBytes == maxStorageBytes
      ensures entries == stored && tables == [stored] && ops == []
    {
      this.maxStorageBytes := maxStorageBytes;
      entries := stored;
      tables, ops := [stored], [];
    }

    /** The operation has taken the table of the history's end to the present one. */
    ghost method Record(op: CacheOp)
      requires IsHistory(maxStorageBytes, tables, ops) && CacheStep(maxStorageBytes, tables[|ops|], op, entries)
      modifies this`tables, this`ops
      ensures Valid() && tables == old(tables) + [entries] && ops == old(ops) + [op]
    {
      HistoryExtends(maxStorageBytes, tables, ops, op, entries);
      tables, ops := tables + [entries], ops + [op];
    }

    /** INSERT OR IGNORE: new files get a row, known ones keep theirs. */
    method OnTorrentAdded(id: TorrentId, files: seq<FileInfo>, now: int)
      requires Valid()
      modifies this
      ensures Valid() && tables == old(tables) + [entries] && ops == old(ops) + [TorrentAdded(id, files, now)]
    {
      var n := 0;
      while n < |files|
        invariant 0 <= n <= |files|
        invariant entries == Inserted(old(entries), id, files[..n], now)
        invariant tables == old(tables) && ops == old(ops)
      {
        var k := Key(id, files[n].index);
        assert files[..n + 1][..n] == files[..n];
        if k !in entries {
          entries := entries[k := Row(files[n].size, 0.0, false, now, now)];
        }
        n := n + 1;
      }
      assert files[..n] == files;
      Record(TorrentAdded(id, files, now));
    }

    method OnProgressUpdate(id: TorrentId, file: int, progress: real, now: int)
      requires Valid()
      modifies this
      ensures Valid() && tables == old(tables) + [entries]
      ensures ops == old(ops) + [ProgressUpdated(Key(id, file), progress, now)]
    {
      var k := Key(id, file);
      if k in entries {
        entries := entries[k := entries[k].(progress := progress, lastAccess := now)];
      }
      Record(ProgressUpdated(k, progress, now));
    }

    method OnFileCompleted(id: TorrentId, file: int, now: int)
      requires Valid()
      modifies this
      ensures Valid() && tables == old(tables) + [entries] && ops == old(ops) + [FileCompleted(Key(id, file), now)]
    {
      var k := Key(id, file);
      if k in entries {
        entries := entries[k := entries[k].(offlineReady := true, progress := 1.0, lastAccess := now)];
      }
      Record(FileCompleted(k, now));
    }

    method OnAccess(id: TorrentId, file: int, now: int)
      requires Valid()
      modifies this
      ensures Valid() && tables == old(tables) + [entries] && ops == old(ops) + [Accessed(Key(id, file), now)]
    {
      var k := Key(id, file);
      if k in entries {
        entries := entries[k := entries[k].(lastAccess := now)];
      }
      Record(Accessed(k, now));
    }

    /** Whether a completion has reached the row, or found it in the database, and it has been kept since. */
    method IsOfflineReady(id: TorrentId, file: int) returns (ready: bool)
      requires Valid()
      ensures ready <==> ReadySince(tables, ops, Key(id, file))
    {
      var k := Key(id, file);
      ReadyIffCompletedAndKept(maxStorageBytes, tables, ops, k);
      ready := k in entries && entries[k].offlineReady;
    }

    /** The shortest prefix of the order whose eviction meets the quota. */
    method Victims(rows: seq<Key>, sum: nat) returns (toDelete: seq<Key>)
      requires PeelsOff(entries, rows) && Total(Without(entries, rows, |rows|)) == 0
      requires sum == Total(entries) && 0 < maxStorageBytes < sum
      ensures 0 < |toDelete| && toDelete <= rows
      ensures Total(Without(entries, rows, |toDelete|)) <= maxStorageBytes
            < Total(Without(entries, rows, |toDelete| - 1))
    {
      var total := sum;
      toDelete := [];
      var next := 0;
      WithoutNone(entries, rows);
      while next < |rows| && total > maxStorageBytes
        invariant 0 <= next <= |rows| && toDelete == rows[..next]
        invariant total == Total(Without(entries, rows, next))
        invariant next > 0 ==> Total(Without(entries, rows, next - 1)) > maxStorageBytes
        invariant next == 0 ==> total > maxStorageBytes
      {
        assert Peel(entries, rows, next);
        toDelete := toDelete + [rows[next]];
        total := total - entries[rows[next]].size;
        next := next + 1;
      }
    }

    method DeleteRows(toDelete: seq<Key>, ghost rows: seq<Key>)
      requires toDelete <= rows
      modifies this`entries
      ensures entries == Without(old(entries), rows, |toDelete|)
    {
      var i := 0;
      WithoutNone(entries, rows);
      while i < |toDelete|
        invariant 0 <= i <= |toDelete|
        invariant entries == Without(old(entries), rows, i)
      {
        WithoutNext(old(entries), rows, i);
        entries := entries - {toDelete[i]};
        i := i + 1;
      }
    }

    /** Evicts from the front of the order the database returns, and no more than needed. */
    method EnforceQuota(rows: seq<Key>)
      requires Valid() && LruOrder(entries, rows)
      modifies this
      ensures Valid() && tables == old(tables) + [entries] && ops == old(ops) + [QuotaEnforced(rows)]
      ensures Enforced(maxStorageBytes, old(entries), rows, entries)
    {
      if maxStorageBytes > 0 {
        TotalIsSum(entries, rows);
        var total := SumOfSizes(entries, rows);
        if total > maxStorageBytes {
          EvictionsPeelOff(entries, rows);
          NothingLeft(entries, rows);
          var toDelete := Victims(rows, total);
          DeleteRows(toDelete, rows);
        }
      }
      Record(QuotaEnforced(rows));
    }
  }
}
