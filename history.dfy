/**
 * The `History` table of backend/getHistory.go and backend/setHistory.go.
 * The table's primary key is `Link` (that is what makes `INSERT OR REPLACE`
 * replace), so it is modelled as a map from link to row whose rows carry their
 * own key.  Connections, transactions and the process-ending error paths are
 * not modelled; every operation is one atomic step.
 */
module History {
  import opened Sorting

  /** One feed item as shown and as stored: the nine columns of `History`. */
  datatype FeedContentsInfo = FeedContentsInfo(
    feedTitle: string,
    feedImage: string,
    title: string,
    link: string,
    timeSince: string,
    time: string,
    image: string,
    content: string,
    readed: bool)

  type Table = map<string, FeedContentsInfo>

  /** The primary-key invariant: each row is stored under its own link. */
  ghost predicate KeyedByLink(t: Table)
  {
    forall l :: l in t ==> t[l].link == l
  }

  /** Go's `a < b` on strings (code-point order is UTF-8 byte order). */
  predicate LexLess(a: string, b: string)
  {
    if a == [] then b != []
    else if b == [] then false
    else if a[0] != b[0] then a[0] < b[0]
    else LexLess(a[1..], b[1..])
  }

  lemma {:induction false} LexLessAsymmetric(a: string, b: string)
    ensures LexLess(a, b) ==> !LexLess(b, a)
  {
    if a != [] && b != [] && a[0] == b[0] {
      LexLessAsymmetric(a[1..], b[1..]);
    }
  }

  lemma {:induction false} LexLessTotal(a: string, b: string)
    ensures LexLess(a, b) || a == b || LexLess(b, a)
  {
    if a != [] && b != [] && a[0] == b[0] {
      LexLessTotal(a[1..], b[1..]);
      if a[1..] == b[1..] {
        assert a == [a[0]] + a[1..] && b == [b[0]] + b[1..];
      }
    }
  }

  lemma {:induction false} LexLessTransitive(a: string, b: string, c: string)
    requires LexLess(a, b) && LexLess(b, c)
    ensures LexLess(a, c)
  {
    if a != [] && a[0] == b[0] && b[0] == c[0] {
      LexLessTransitive(a[1..], b[1..], c[1..]);
    }
  }

  /** The comparator of GetHistory's sort: newer `Time` strings first. */
  predicate TimeAfter(x: FeedContentsInfo, y: FeedContentsInfo)
  {
    LexLess(y.time, x.time)
  }

  lemma TimeAfterIsStrictWeakOrder()
    ensures StrictWeakOrder(TimeAfter)
  {
    forall x, y | TimeAfter(x, y)
      ensures !TimeAfter(y, x)
    {
      LexLessAsymmetric(y.time, x.time);
    }
    forall x, y, z | !TimeAfter(x, y) && !TimeAfter(y, z)
      ensures !TimeAfter(x, z)
    {
      LexLessTotal(y.time, x.time);
      LexLessTotal(z.time, y.time);
      if LexLess(z.time, x.time) {
        if LexLess(x.time, y.time) && LexLess(y.time, z.time) {
          LexLessTransitive(x.time, y.time, z.time);
          LexLessAsymmetric(x.time, z.time);
        }
      }
    }
  }

  /** The links a batch writes. */
  function Links(batch: seq<FeedContentsInfo>): (ls: set<string>)
    ensures forall i :: 0 <= i < |batch| ==> batch[i].link in ls
    ensures forall l :: l in ls ==> exists i :: 0 <= i < |batch| && batch[i].link == l
  {
    set i | 0 <= i < |batch| :: batch[i].link
  }

  /** The rows a batch of upserts leaves, per link: executed in order, each
      `INSERT OR REPLACE` overwrites what an earlier one wrote for its link. */
  function Writes(batch: seq<FeedContentsInfo>): (w: Table)
    decreases |batch|
  {
    if batch == [] then map[]
    else
      var last := batch[|batch| - 1];
      Writes(batch[..|batch| - 1])[last.link := last]
  }

  /** The table after SetHistory(batch). */
  function Upserted(t: Table, batch: seq<FeedContentsInfo>): Table
  {
    t + Writes(batch)
  }

  /** batch[i] is the last record of the batch with link l. */
  ghost predicate LastWith(batch: seq<FeedContentsInfo>, i: int, l: string)
  {
    0 <= i < |batch| && batch[i].link == l && forall j :: i < j < |batch| ==> batch[j].link != l
  }

  /** The links of a batch are those of all but its last record, plus the last one's. */
  lemma LinksOfInitAndLast(batch: seq<FeedContentsInfo>)
    requires batch != []
    ensures Links(batch) == Links(batch[..|batch| - 1]) + {batch[|batch| - 1].link}
  {
    var n := |batch| - 1;
    var init := batch[..n];
    forall l | l in Links(batch) ensures l in Links(init) + {batch[n].link} {
      var i :| 0 <= i < |batch| && batch[i].link == l;
      if i < n { assert init[i] == batch[i]; }
    }
  }

  lemma {:induction false} WritesKeys(batch: seq<FeedContentsInfo>)
    ensures Writes(batch).Keys == Links(batch)
    decreases |batch|
  {
    if batch != [] {
      WritesKeys(batch[..|batch| - 1]);
      LinksOfInitAndLast(batch);
    }
  }

  /** Last write wins: each link the batch writes holds the last batch record
      with that link. */
  lemma {:induction false} WritesLastWins(batch: seq<FeedContentsInfo>, l: string)
    requires l in Writes(batch)
    ensures exists i :: LastWith(batch, i, l) && batch[i] == Writes(batch)[l]
    decreases |batch|
  {
    var n := |batch| - 1;
    if l == batch[n].link {
      assert LastWith(batch, n, l);
    } else {
      var init := batch[..n];
      WritesLastWins(init, l);
      var i :| LastWith(init, i, l) && init[i] == Writes(init)[l];
      assert LastWith(batch, i, l);
    }
  }

  /** Rows whose links are not in the batch are untouched, and every link of
      the batch ends up in the table. */
  lemma UpsertedFrame(t: Table, batch: seq<FeedContentsInfo>)
    ensures Upserted(t, batch).Keys == t.Keys + Links(batch)
    ensures forall l :: l in t && l !in Links(batch) ==> Upserted(t, batch)[l] == t[l]
  {
    WritesKeys(batch);
  }

  /** After SetHistory(batch), each link of the batch holds the last batch
      record with that link. */
  lemma UpsertedLastWins(t: Table, batch: seq<FeedContentsInfo>, i: int)
    requires 0 <= i < |batch|
    requires forall j :: i < j < |batch| ==> batch[j].link != batch[i].link
    ensures batch[i].link in Upserted(t, batch) && Upserted(t, batch)[batch[i].link] == batch[i]
  {
    var l := batch[i].link;
    WritesKeys(batch);
    WritesLastWins(batch, l);
    var k :| LastWith(batch, k, l) && batch[k] == Writes(batch)[l];
  }

  /** Upserts keep one row per link, stored under its own link. */
  lemma {:induction false} UpsertedKeyedByLink(t: Table, batch: seq<FeedContentsInfo>)
    requires KeyedByLink(t)
    ensures KeyedByLink(Upserted(t, batch))
  {
    forall l | l in Writes(batch) ensures Writes(batch)[l].link == l {
      WritesLastWins(batch, l);
    }
  }

  /** Applying the same batch twice leaves what applying it once left. */
  lemma UpsertedIdempotent(t: Table, batch: seq<FeedContentsInfo>)
    ensures Upserted(Upserted(t, batch), batch) == Upserted(t, batch)
  {
  }

  class HistoryStore {
    var rows: Table

    ghost predicate Valid()
      reads this
    {
      KeyedByLink(rows)
    }

    constructor()
      ensures Valid() && rows == map[]
    {
      rows := map[];
    }

    /** SELECT [Link] FROM [History] WHERE [Link] = ?: only the link is consulted. */
    function CheckInHistory(feed: FeedContentsInfo): bool
      reads this
    {
      feed.link in rows
    }

    /** SELECT [Readed] ... WHERE [Link] = ?: false when there is no such row. */
    function GetHistoryReaded(feed: FeedContentsInfo): bool
      reads this
    {
      if feed.link in rows then rows[feed.link].readed else false
    }

    /** The two lookups answer as the queries do: whether some row carries
        the item's link, and whether such a row is marked read. */
    lemma LookupsMatchQueries(feed: FeedContentsInfo)
      requires Valid()
      ensures CheckInHistory(feed) <==> exists row :: row in rows.Values && row.link == feed.link
      ensures GetHistoryReaded(feed) <==> exists row :: row in rows.Values && row.link == feed.link && row.readed
    {
      if feed.link in rows {
        assert rows[feed.link] in rows.Values;
      }
    }

    /** All rows, newest `Time` first (ties in no particular order). */
    method GetHistory() returns (result: seq<FeedContentsInfo>)
      requires Valid()
      ensures |result| == |rows|
      ensures forall row :: row in result ==> row.link in rows && rows[row.link] == row
      ensures forall l :: l in rows ==> multiset(result)[rows[l]] == 1
      ensures forall i, j :: 0 <= i < j < |result| ==> !LexLess(result[i].time, result[j].time)
    {
      var pending := rows.Keys;
      var acc: seq<FeedContentsInfo> := [];
      while pending != {}
        invariant pending <= rows.Keys
        invariant |acc| + |pending| == |rows|
        invariant forall row :: row in acc ==> row.link in rows && rows[row.link] == row
        invariant forall l :: l in rows ==> multiset(acc)[rows[l]] == if l in pending then 0 else 1
        decreases pending
      {
        var l :| l in pending;
        acc := acc + [rows[l]];
        pending := pending - {l};
      }
      var a := new FeedContentsInfo[|acc|](i requires 0 <= i < |acc| => acc[i]);
      assert a[..] == acc;
      TimeAfterIsStrictWeakOrder();
      SortSlice(a, TimeAfter);
      result := a[..];
      forall row | row in result
        ensures row.link in rows && rows[row.link] == row
      {
        assert row in multiset(acc);
      }
      forall i, j | 0 <= i < j < |result|
        ensures !LexLess(result[i].time, result[j].time)
      {
        assert !TimeAfter(result[j], result[i]);
      }
    }

    /** Upserts the batch in order, in one transaction. */
    method SetHistory(history: seq<FeedContentsInfo>)
      requires Valid()
      modifies this
      ensures Valid()
      ensures rows == Upserted(old(rows), history)
    {
      ghost var before := rows;
      for i := 0 to |history|
        invariant rows == Upserted(before, history[..i])
      {
        assert history[..i + 1][..i] == history[..i];
        rows := rows[history[i].link := history[i]];
      }
      assert history[..|history|] == history;
      UpsertedKeyedByLink(before, history);
    }

    /** UPDATE [History] SET [Readed] = ? WHERE [Link] = ?: changes the read
        flag of that row only, and inserts nothing. */
    method SetHistoryReaded(history: FeedContentsInfo)
      requires Valid()
      modifies this
      ensures Valid()
      ensures rows.Keys == old(rows).Keys
      ensures forall l :: l in rows && l != history.link ==> rows[l] == old(rows)[l]
      ensures history.link in rows ==> rows[history.link] == old(rows)[history.link].(readed := history.readed)
      ensures GetHistoryReaded(history) == (history.link in old(rows) && history.readed)
    {
      if history.link in rows {
        rows := rows[history.link := rows[history.link].(readed := history.readed)];
      }
    }

    /** DELETE FROM [History]. */
    method ClearHistory()
      modifies this
      ensures Valid() && rows == map[]
    {
      rows := map[];
    }
  }
}
