/** The month-by-month history and its CSV form: one row per artist per month. The CSV
    reader and writer themselves are outside the model; rows are records of the eight
    column strings. */
module Storage {
  import opened Wrappers
  import opened Order
  import opened Sorting
  import opened Numbers
  import opened DataProcessor

  /** An artist as stored in the history: the dict `asdict(ArtistStat)` builds. */
  datatype ArtistPayload = ArtistPayload(name: string, playcount: int, imageUrl: Option<string>, url: Option<string>, rank: int)

  /** One month's entry of the history. */
  datatype SnapshotPayload = SnapshotPayload(monthKey: string, monthLabel: string, generatedAt: string, artists: seq<ArtistPayload>)

  /** A `month_key -> payload` pair of the history dict; the dict keeps insertion order. */
  datatype Entry = Entry(key: string, payload: SnapshotPayload)

  type History = seq<Entry>

  /** One CSV row, every column as text. */
  datatype Row = Row(monthKey: string, monthLabel: string, generatedAt: string, artistName: string,
                     playcount: string, imageUrl: string, url: string, rank: string)

  /** `int()` rejected the playcount or rank of the row at this position. */
  datatype LoadError = InvalidInteger(row: nat)

  /** What `save_data` returns, and the rows it writes. */
  datatype Saved = Saved(history: History, rows: seq<Row>)

  // ---------------------------------------------------------------- payloads

  function ArtistToPayload(a: ArtistStat): (r: ArtistPayload) {
    ArtistPayload(a.name, a.playcount, a.imageUrl, a.url, a.rank)
  }

  /** `_snapshot_to_payload`: the snapshot as a dict, every field kept. */
  function SnapshotToPayload(s: MonthlySnapshot): (p: SnapshotPayload)
    ensures p.monthKey == s.monthKey && p.monthLabel == s.monthLabel && p.generatedAt == s.generatedAt
    ensures |p.artists| == |s.artists|
    ensures forall i :: 0 <= i < |s.artists| ==>
      var a, b := s.artists[i], p.artists[i];
      b.name == a.name && b.playcount == a.playcount && b.imageUrl == a.imageUrl && b.url == a.url && b.rank == a.rank
  {
    SnapshotPayload(s.monthKey, s.monthLabel, s.generatedAt,
      seq(|s.artists|, i requires 0 <= i < |s.artists| => ArtistToPayload(s.artists[i])))
  }

  // ---------------------------------------------------------------- the history dict

  /** Sort keys: a history item by its key; a payload by `month_key`; an artist by
      `(rank, -playcount)`. */
  function EntryKey(e: Entry): (r: seq<int>) { CodePoints(e.key) }

  function MonthKeyOf(p: SnapshotPayload): (r: seq<int>) { CodePoints(p.monthKey) }

  function RankKey(a: ArtistPayload): (r: seq<int>) { [a.rank, -a.playcount] }

  /** Keys are unique, and each month's payload carries its own key. */
  ghost predicate WellKeyed(h: History) {
    && (forall i, j :: 0 <= i < j < |h| ==> h[i].key != h[j].key)
    && (forall i :: 0 <= i < |h| ==> h[i].payload.monthKey == h[i].key)
  }

  function Keys(h: History): (r: set<string>) {
    set e | e in h :: e.key
  }

  function Values(h: History): (r: seq<SnapshotPayload>)
    ensures |r| == |h| && forall i :: 0 <= i < |h| ==> r[i] == h[i].payload
  {
    seq(|h|, i requires 0 <= i < |h| => h[i].payload)
  }

  /** The position of `key` in the dict. */
  function Find(h: History, key: string): (r: Option<nat>)
    ensures r.Some? ==> r.value < |h| && h[r.value].key == key
    ensures r.None? ==> forall i :: 0 <= i < |h| ==> h[i].key != key
  {
    if h == [] then None
    else if h[0].key == key then Some(0)
    else match Find(h[1..], key)
      case Some(i) => Some(i + 1)
      case None => None
  }

  /** `history.get(key)` */
  function Get(h: History, key: string): (r: Option<SnapshotPayload>) {
    match Find(h, key)
    case Some(i) => Some(h[i].payload)
    case None => None
  }

  /** `history[key] = p`: replaces in place, or appends a new key at the end. */
  function Put(h: History, key: string, p: SnapshotPayload): (r: History) {
    match Find(h, key)
    case Some(i) => h[i := Entry(key, p)]
    case None => h + [Entry(key, p)]
  }

  /** `dict(sorted(history.items(), key=lambda item: item[0]))` */
  function SortedHistory(h: History): (r: History) {
    SortBy(h, EntryKey)
  }

  lemma WellKeyedDistinct(h: History)
    requires WellKeyed(h)
    ensures DistinctBy(h, EntryKey)
  {
    forall i, j | 0 <= i < j < |h| ensures EntryKey(h[i]) != EntryKey(h[j]) {
      if EntryKey(h[i]) == EntryKey(h[j]) {
        CodePointsInjective(h[i].key, h[j].key);
      }
    }
  }

  /** Sorting the dict keeps it well keyed and puts its keys in strictly ascending order. */
  lemma SortedHistoryAscending(h: History)
    requires WellKeyed(h)
    ensures WellKeyed(SortedHistory(h))
    ensures StrictlyAscendingBy(SortedHistory(h), EntryKey)
  {
    var r := SortedHistory(h);
    WellKeyedDistinct(h);
    SortByKeepsDistinct(h, EntryKey);
    SortedDistinctIsAscending(r, EntryKey);
    forall i | 0 <= i < |r| ensures r[i].payload.monthKey == r[i].key {
      assert r[i] in multiset(h);
    }
  }

  /** Sorting the dict does not change what any key maps to. */
  lemma GetAfterSort(h: History, key: string)
    requires WellKeyed(h)
    ensures Get(SortedHistory(h), key) == Get(h, key)
  {
    var r := SortedHistory(h);
    SortedHistoryAscending(h);
    match Find(h, key)
    case Some(i) =>
      assert h[i] in multiset(r);
      var j :| 0 <= j < |r| && r[j] == h[i];
      assert Find(r, key).Some?;
      var j' := Find(r, key).value;
      assert j' == j;
    case None =>
      forall j | 0 <= j < |r| ensures r[j].key != key {
        assert r[j] in multiset(h);
      }
  }

  /** `history[key] = p` with `p` carrying `key`: that key now maps to `p`, every other
      key keeps its payload, and no key is added besides `key`. */
  lemma PutOverwrites(h: History, key: string, p: SnapshotPayload)
    requires WellKeyed(h) && p.monthKey == key
    ensures WellKeyed(Put(h, key, p))
    ensures Get(Put(h, key, p), key) == Some(p)
    ensures forall k :: k != key ==> Get(Put(h, key, p), k) == Get(h, k)
    ensures Keys(Put(h, key, p)) == Keys(h) + {key}
  {
    match Find(h, key)
    case Some(i) =>
      KeysReplace(h, i, Entry(key, p));
      GetReplace(h, i, Entry(key, p));
    case None =>
      KeysAppend(h, Entry(key, p));
      GetAppend(h, Entry(key, p));
  }

  lemma KeysReplace(h: History, i: nat, e: Entry)
    requires i < |h| && h[i].key == e.key
    ensures Keys(h[i := e]) == Keys(h)
  {
    var r := h[i := e];
    forall k ensures k in Keys(r) <==> k in Keys(h) {
      if k in Keys(r) { var x :| x in r && x.key == k; var t :| 0 <= t < |r| && r[t] == x; assert h[t].key == k; }
      if k in Keys(h) { var x :| x in h && x.key == k; var t :| 0 <= t < |h| && h[t] == x; assert r[t].key == k; }
    }
  }

  lemma KeysAppend(h: History, e: Entry)
    ensures Keys(h + [e]) == Keys(h) + {e.key}
  {
    var r := h + [e];
    forall k ensures k in Keys(r) <==> k in Keys(h) + {e.key} {
      if k in Keys(r) { var x :| x in r && x.key == k; var t :| 0 <= t < |r| && r[t] == x; if t < |h| { assert h[t].key == k; } }
      if k in Keys(h) { var x :| x in h && x.key == k; var t :| 0 <= t < |h| && h[t] == x; assert r[t].key == k; }
      if k == e.key { assert r[|h|].key == k; }
    }
  }

  /** Replacing the entry of an existing key. */
  lemma GetReplace(h: History, i: nat, e: Entry)
    requires WellKeyed(h) && i < |h| && h[i].key == e.key && e.payload.monthKey == e.key
    ensures WellKeyed(h[i := e])
    ensures Get(h[i := e], e.key) == Some(e.payload)
    ensures forall k :: k != e.key ==> Get(h[i := e], k) == Get(h, k)
  {
    var r := h[i := e];
    assert r[i].key == e.key;
    forall k | k != e.key ensures Get(r, k) == Get(h, k) {
      match Find(h, k)
      case Some(t) => assert r[t] == h[t];
      case None =>
    }
  }

  /** Appending an entry under a new key. */
  lemma GetAppend(h: History, e: Entry)
    requires WellKeyed(h) && Find(h, e.key).None? && e.payload.monthKey == e.key
    ensures WellKeyed(h + [e])
    ensures Get(h + [e], e.key) == Some(e.payload)
    ensures forall k :: k != e.key ==> Get(h + [e], k) == Get(h, k)
  {
    var r := h + [e];
    assert r[|h|].key == e.key;
    forall k | k != e.key ensures Get(r, k) == Get(h, k) {
      match Find(h, k)
      case Some(t) => assert r[t] == h[t];
      case None =>
    }
  }

  // ---------------------------------------------------------------- reading the CSV

  /** `value or None` for a text column. */
  function OrNone(s: string): (r: Option<string>) {
    if s == "" then None else Some(s)
  }

  /** `value or ""` for an optional field. */
  function OrEmpty(v: Option<string>): (r: string) {
    v.GetOr("")
  }

  /** The artist dict built from a row, or None where `int()` rejects a column. */
  function RowArtist(row: Row): (r: Option<ArtistPayload>) {
    match (ParseInt(row.playcount), ParseInt(row.rank))
    case (Some(playcount), Some(rank)) =>
      Some(ArtistPayload(row.artistName, playcount, OrNone(row.imageUrl), OrNone(row.url), rank))
    case _ => None
  }

  /** One iteration of the reading loop: `setdefault` the row's month bucket (label and
      timestamp from this row when the bucket is new), then append the artist. */
  function AddToBucket(h: History, row: Row, a: ArtistPayload): (r: History) {
    match Find(h, row.monthKey)
    case Some(i) =>
      h[i := h[i].(payload := h[i].payload.(artists := h[i].payload.artists + [a]))]
    case None =>
      h + [Entry(row.monthKey, SnapshotPayload(row.monthKey, row.monthLabel, row.generatedAt, [a]))]
  }

  /** The reading loop continued from `acc` over `rows`, whose first row is row number
      `base` of the file; the first row that fails to parse ends it. */
  function GroupFrom(acc: Result<History, LoadError>, rows: seq<Row>, base: nat): (r: Result<History, LoadError>) {
    FoldRows(GroupStep, acc, rows, base)
  }

  /** A loop over `rows` whose body is `step`, the `k`-th row being row `base + k`. */
  function FoldRows<A>(step: (A, Row, nat) -> A, acc: A, rows: seq<Row>, base: nat): (r: A)
    decreases |rows|
  {
    if rows == [] then acc
    else step(FoldRows(step, acc, rows[..|rows| - 1], base), rows[|rows| - 1], base + |rows| - 1)
  }

  /** One row of the reading loop, row number `index` of the file, after the rows before
      it gave `acc`. */
  function GroupStep(acc: Result<History, LoadError>, row: Row, index: nat): (r: Result<History, LoadError>) {
    match acc
    case Failure(e) => Failure(e)
    case Success(h) =>
      match RowArtist(row)
      case None => Failure(InvalidInteger(index))
      case Some(a) => Success(AddToBucket(h, row, a))
  }

  /** The buckets of `load_history`, in order of first appearance. */
  function Grouped(rows: seq<Row>): (r: Result<History, LoadError>) {
    GroupFrom(Success([]), rows, 0)
  }

  /** What `load_history` returns. */
  function LoadedHistory(rows: seq<Row>): (r: Result<History, LoadError>) {
    match Grouped(rows)
    case Failure(e) => Failure(e)
    case Success(h) => Success(SortedHistory(h))
  }

  /** Running the loop over `a + b` is running it over `a`, then over `b`. */
  lemma {:induction false} FoldRowsAppend<A>(step: (A, Row, nat) -> A, acc: A, a: seq<Row>, b: seq<Row>, base: nat)
    ensures FoldRows(step, acc, a + b, base) == FoldRows(step, FoldRows(step, acc, a, base), b, base + |a|)
    decreases |b|
  {
    if b == [] {
      assert a + b == a;
    } else {
      assert (a + b)[..|a + b| - 1] == a + b[..|b| - 1];
      FoldRowsAppend(step, acc, a, b[..|b| - 1], base);
    }
  }

  /** A loop whose body takes each state of `states` to the next ends in the last one. */
  lemma {:induction false} FoldRowsChain<A>(step: (A, Row, nat) -> A, acc: A, rows: seq<Row>, base: nat, states: seq<A>)
    requires |states| == |rows| + 1 && states[0] == acc
    requires forall k :: 0 <= k < |rows| ==> step(states[k], rows[k], base + k) == states[k + 1]
    ensures FoldRows(step, acc, rows, base) == states[|rows|]
    decreases |rows|
  {
    if rows != [] {
      var n := |rows| - 1;
      var front, firsts := rows[..n], states[..n + 1];
      forall k | 0 <= k < n ensures step(firsts[k], front[k], base + k) == firsts[k + 1] {
        assert firsts[k] == states[k] && firsts[k + 1] == states[k + 1] && front[k] == rows[k];
      }
      FoldRowsChain(step, acc, front, base, firsts);
    }
  }

  lemma GroupFromAppend(acc: Result<History, LoadError>, a: seq<Row>, b: seq<Row>, base: nat)
    ensures GroupFrom(acc, a + b, base) == GroupFrom(GroupFrom(acc, a, base), b, base + |a|)
  {
    FoldRowsAppend(GroupStep, acc, a, b, base);
  }

  lemma {:induction false} GroupFromFailureStays(e: LoadError, rows: seq<Row>, base: nat)
    ensures GroupFrom(Failure(e), rows, base) == Failure(e)
    decreases |rows|
  {
    if rows != [] {
      GroupFromFailureStays(e, rows[..|rows| - 1], base);
    }
  }

  lemma {:induction false} GroupedWellKeyed(rows: seq<Row>)
    requires Grouped(rows).Success?
    ensures WellKeyed(Grouped(rows).value)
    decreases |rows|
  {
    if rows != [] {
      var prefix := rows[..|rows| - 1];
      var row := rows[|rows| - 1];
      GroupedLast(rows);
      GroupedWellKeyed(prefix);
      var h := Grouped(prefix).value;
      var a := RowArtist(row).value;
      var r := AddToBucket(h, row, a);
      match Find(h, row.monthKey)
      case Some(i) =>
        assert forall t :: 0 <= t < |r| ==> r[t].key == h[t].key && r[t].payload.monthKey == h[t].payload.monthKey;
      case None =>
    }
  }

  /** A row that does not parse ends the reading loop with its number. */
  lemma GroupedFailsAt(rows: seq<Row>, i: nat)
    requires i < |rows| && Grouped(rows[..i]).Success? && RowArtist(rows[i]).None?
    ensures Grouped(rows) == Failure(InvalidInteger(i))
  {
    GroupedPrefixFails(rows, i);
    GroupedSplit(rows, i + 1);
    GroupFromFailureStays(InvalidInteger(i), rows[i + 1..], i + 1);
  }

  lemma GroupedPrefixFails(rows: seq<Row>, i: nat)
    requires i < |rows| && Grouped(rows[..i]).Success? && RowArtist(rows[i]).None?
    ensures Grouped(rows[..i + 1]) == Failure(InvalidInteger(i))
  {
    GroupedPrefixStep(rows, i);
    StepFails(Grouped(rows[..i]), rows[i], i);
  }

  /** Reading the file is reading its first `n` rows, then the rest. */
  lemma GroupedSplit(rows: seq<Row>, n: nat)
    requires n <= |rows|
    ensures Grouped(rows) == GroupFrom(Grouped(rows[..n]), rows[n..], n)
  {
    assert rows == rows[..n] + rows[n..];
    GroupFromAppend(Success([]), rows[..n], rows[n..], 0);
  }

  /** A successful read of a non-empty file: every row before the last was read, and
      the last row parsed and went into its bucket. */
  lemma GroupedLast(rows: seq<Row>)
    requires rows != [] && Grouped(rows).Success?
    ensures var prefix, row := rows[..|rows| - 1], rows[|rows| - 1];
      && Grouped(prefix).Success? && RowArtist(row).Some?
      && Grouped(rows) == Success(AddToBucket(Grouped(prefix).value, row, RowArtist(row).value))
  {
  }

  /** Reading one more row of the file. */
  lemma GroupedPrefixStep(rows: seq<Row>, i: nat)
    requires i < |rows|
    ensures Grouped(rows[..i + 1]) == GroupStep(Grouped(rows[..i]), rows[i], i)
  {
    var upto := rows[..i + 1];
    assert upto[..|upto| - 1] == rows[..i] && upto[|upto| - 1] == rows[i];
  }

  lemma StepFails(acc: Result<History, LoadError>, row: Row, index: nat)
    requires acc.Success? && RowArtist(row).None?
    ensures GroupStep(acc, row, index) == Failure(InvalidInteger(index))
  {
  }

  /** `history.setdefault(month, {...})["artists"].append(artist)`, written out as the
      loop does it, is AddToBucket. */
  lemma SetdefaultAppend(h: History, row: Row, a: ArtistPayload)
    ensures var month := row.monthKey;
      var h1 := if Find(h, month).None? then h + [Entry(month, SnapshotPayload(month, row.monthLabel, row.generatedAt, []))] else h;
      var i := if Find(h, month).None? then |h1| - 1 else Find(h, month).value;
      h1[i := h1[i].(payload := h1[i].payload.(artists := h1[i].payload.artists + [a]))] == AddToBucket(h, row, a)
  {
    assert [] + [a] == [a];
  }

  /** `load_history` over the rows of the file. A row whose playcount or rank is not an
      integer makes it fail, as the uncaught ValueError does. */
  method LoadHistory(rows: seq<Row>) returns (r: Result<History, LoadError>)
    ensures r == LoadedHistory(rows)
    ensures r.Success? ==> WellKeyed(r.value) && StrictlyAscendingBy(r.value, EntryKey)
  {
    var history: History := [];
    for i := 0 to |rows|
      invariant Grouped(rows[..i]) == Success(history)
    {
      assert rows[..i + 1][..i] == rows[..i];
      ghost var before := history;
      var row := rows[i];
      var month := row.monthKey;
      var idx := Find(history, month);
      if idx.None? {
        history := history + [Entry(month, SnapshotPayload(month, row.monthLabel, row.generatedAt, []))];
        idx := Some(|history| - 1);
      }
      var playcount := ParseInt(row.playcount);
      var rank := ParseInt(row.rank);
      if playcount.None? || rank.None? {
        GroupedFailsAt(rows, i);
        return Failure(InvalidInteger(i));
      }
      var artist := ArtistPayload(row.artistName, playcount.value, OrNone(row.imageUrl), OrNone(row.url), rank.value);
      var bucket := history[idx.value];
      history := history[idx.value := bucket.(payload := bucket.payload.(artists := bucket.payload.artists + [artist]))];
      SetdefaultAppend(before, row, artist);
    }
    assert rows[..|rows|] == rows;
    GroupedWellKeyed(rows);
    SortedHistoryAscending(history);
    r := Success(SortedHistory(history));
  }

  // ---------------------------------------------------------------- what the reading loop builds

  function RowKeys(rows: seq<Row>): (r: set<string>) {
    set r | r in rows :: r.monthKey
  }

  /** The first row of month `key`: where its bucket's label and timestamp come from. */
  function FirstRowWith(rows: seq<Row>, key: string): (i: nat)
    requires key in RowKeys(rows)
    ensures i < |rows| && rows[i].monthKey == key
    ensures forall t :: 0 <= t < i ==> rows[t].monthKey != key
  {
    if rows[0].monthKey == key then 0
    else
      assert key in RowKeys(rows[1..]) by {
        var r :| r in rows && r.monthKey == key;
        var t :| 0 <= t < |rows| && rows[t] == r;
        assert rows[1..][t - 1] == r;
      }
      1 + FirstRowWith(rows[1..], key)
  }

  ghost predicate AllParse(rows: seq<Row>) {
    forall i :: 0 <= i < |rows| ==> RowArtist(rows[i]).Some?
  }

  /** The artists of the rows of month `key`, in row order. */
  function BucketArtists(rows: seq<Row>, key: string): (r: seq<ArtistPayload>)
    requires AllParse(rows)
  {
    if rows == [] then []
    else
      var last := rows[|rows| - 1];
      BucketArtists(rows[..|rows| - 1], key) + (if last.monthKey == key then [RowArtist(last).value] else [])
  }

  lemma {:induction false} BucketArtistsEmpty(rows: seq<Row>, key: string)
    requires AllParse(rows) && key !in RowKeys(rows)
    ensures BucketArtists(rows, key) == []
    decreases |rows|
  {
    if rows != [] {
      assert RowKeys(rows[..|rows| - 1]) <= RowKeys(rows);
      BucketArtistsEmpty(rows[..|rows| - 1], key);
    }
  }

  /** One step of the reading loop, entry by entry: the row's month bucket grows by
      `a` if it exists, and is otherwise appended after the others. */
  lemma AddToBucketShape(h: History, row: Row, a: ArtistPayload)
    requires WellKeyed(h)
    ensures var r := AddToBucket(h, row, a);
      && Keys(r) == Keys(h) + {row.monthKey}
      && (row.monthKey in Keys(h) ==> |r| == |h|)
      && (row.monthKey !in Keys(h) ==>
            |r| == |h| + 1 && r[|h|] == Entry(row.monthKey, SnapshotPayload(row.monthKey, row.monthLabel, row.generatedAt, [a])))
      && (forall j :: 0 <= j < |h| ==>
            r[j] == if h[j].key == row.monthKey then h[j].(payload := h[j].payload.(artists := h[j].payload.artists + [a])) else h[j])
  {
    var r := AddToBucket(h, row, a);
    match Find(h, row.monthKey)
    case Some(i) =>
      forall j | 0 <= j < |h| && j != i ensures h[j].key != row.monthKey {
        if j < i { assert h[j].key != h[i].key; } else { assert h[i].key != h[j].key; }
      }
      assert row.monthKey in Keys(h) by { assert h[i] in h; }
      forall k ensures k in Keys(r) <==> k in Keys(h) {
        if k in Keys(r) { var e :| e in r && e.key == k; var t :| 0 <= t < |r| && r[t] == e; assert h[t].key == k; }
        if k in Keys(h) { var e :| e in h && e.key == k; var t :| 0 <= t < |h| && h[t] == e; assert r[t].key == k; }
      }
    case None =>
      assert row.monthKey !in Keys(h);
      forall k ensures k in Keys(r) <==> k in Keys(h) + {row.monthKey} {
        if k in Keys(r) { var e :| e in r && e.key == k; var t :| 0 <= t < |r| && r[t] == e; if t < |h| { assert h[t].key == k; } }
        if k in Keys(h) { var e :| e in h && e.key == k; var t :| 0 <= t < |h| && h[t] == e; assert r[t].key == k; }
        if k == row.monthKey { assert r[|h|].key == k; }
      }
  }

  lemma FirstRowWithExtend(rows: seq<Row>, row: Row, k: string)
    requires k in RowKeys(rows)
    ensures k in RowKeys(rows + [row]) && FirstRowWith(rows + [row], k) == FirstRowWith(rows, k)
  {
    var rs := rows + [row];
    var i0 := FirstRowWith(rows, k);
    assert rs[i0] == rows[i0];
    assert k in RowKeys(rs);
    var i1 := FirstRowWith(rs, k);
  }

  /** `e` is the bucket the rows give for its month. */
  ghost predicate IsBucketOf(rows: seq<Row>, e: Entry)
    requires AllParse(rows)
  {
    && e.key in RowKeys(rows)
    && var first := rows[FirstRowWith(rows, e.key)];
       e.payload == SnapshotPayload(e.key, first.monthLabel, first.generatedAt, BucketArtists(rows, e.key))
  }

  ghost predicate BucketsAgree(rows: seq<Row>, h: History) {
    && AllParse(rows)
    && Keys(h) == RowKeys(rows)
    && forall j :: 0 <= j < |h| ==> IsBucketOf(rows, h[j])
  }

  lemma AllParseExtend(rows: seq<Row>, row: Row)
    requires AllParse(rows) && RowArtist(row).Some?
    ensures AllParse(rows + [row])
    ensures BucketArtists(rows + [row], row.monthKey) == BucketArtists(rows, row.monthKey) + [RowArtist(row).value]
    ensures forall k :: k != row.monthKey ==> BucketArtists(rows + [row], k) == BucketArtists(rows, k)
    ensures RowKeys(rows + [row]) == RowKeys(rows) + {row.monthKey}
  {
    var rs := rows + [row];
    forall i | 0 <= i < |rs| ensures RowArtist(rs[i]).Some? {
      if i < |rows| { assert rs[i] == rows[i]; }
    }
    assert rs[..|rs| - 1] == rows;
  }

  /** A bucket that already existed: it grows only if the row is of its month. */
  lemma OldBucketStep(rows: seq<Row>, row: Row, a: ArtistPayload, e: Entry)
    requires AllParse(rows) && RowArtist(row) == Some(a) && IsBucketOf(rows, e)
    ensures AllParse(rows + [row])
    ensures IsBucketOf(rows + [row],
      if e.key == row.monthKey then e.(payload := e.payload.(artists := e.payload.artists + [a])) else e)
  {
    AllParseExtend(rows, row);
    FirstRowWithExtend(rows, row, e.key);
  }

  /** A bucket opened by the row: its first row is the row itself. */
  lemma NewBucketStep(rows: seq<Row>, row: Row, a: ArtistPayload)
    requires AllParse(rows) && RowArtist(row) == Some(a) && row.monthKey !in RowKeys(rows)
    ensures AllParse(rows + [row])
    ensures IsBucketOf(rows + [row], Entry(row.monthKey, SnapshotPayload(row.monthKey, row.monthLabel, row.generatedAt, [a])))
  {
    AllParseExtend(rows, row);
    BucketArtistsEmpty(rows, row.monthKey);
    var rs := rows + [row];
    var t := FirstRowWith(rs, row.monthKey);
    assert [] + [a] == [a];
  }

  lemma BucketsAgreeStep(rows: seq<Row>, h: History, row: Row, a: ArtistPayload)
    requires BucketsAgree(rows, h) && WellKeyed(h) && RowArtist(row) == Some(a)
    ensures BucketsAgree(rows + [row], AddToBucket(h, row, a))
  {
    var rs := rows + [row];
    var r := AddToBucket(h, row, a);
    AddToBucketShape(h, row, a);
    AllParseExtend(rows, row);
    forall j | 0 <= j < |r| ensures IsBucketOf(rs, r[j]) {
      if j < |h| {
        OldBucketStep(rows, row, a, h[j]);
      } else {
        NewBucketStep(rows, row, a);
      }
    }
  }

  lemma BucketsAgreeLast(rows: seq<Row>, h: History, a: ArtistPayload)
    requires rows != [] && BucketsAgree(rows[..|rows| - 1], h) && WellKeyed(h) && RowArtist(rows[|rows| - 1]) == Some(a)
    ensures BucketsAgree(rows, AddToBucket(h, rows[|rows| - 1], a))
  {
    var prefix, row := rows[..|rows| - 1], rows[|rows| - 1];
    BucketsAgreeStep(prefix, h, row, a);
    assert rows == prefix + [row];
  }

  /** `load_history` grouping: one bucket per month that occurs in the rows, holding
      that month's artists in row order, with label and timestamp from its first row. */
  lemma {:induction false} GroupedBuckets(rows: seq<Row>)
    requires Grouped(rows).Success?
    ensures AllParse(rows)
    ensures Keys(Grouped(rows).value) == RowKeys(rows)
    ensures forall j :: 0 <= j < |Grouped(rows).value| ==>
      var e := Grouped(rows).value[j];
      var first := rows[FirstRowWith(rows, e.key)];
      e.payload == SnapshotPayload(e.key, first.monthLabel, first.generatedAt, BucketArtists(rows, e.key))
    decreases |rows|
  {
    GroupedAgree(rows);
    var h := Grouped(rows).value;
    forall j | 0 <= j < |h|
      ensures var first := rows[FirstRowWith(rows, h[j].key)];
        h[j].payload == SnapshotPayload(h[j].key, first.monthLabel, first.generatedAt, BucketArtists(rows, h[j].key))
    {
      assert IsBucketOf(rows, h[j]);
    }
  }

  lemma {:induction false} GroupedAgree(rows: seq<Row>)
    requires Grouped(rows).Success?
    ensures BucketsAgree(rows, Grouped(rows).value)
    decreases |rows|
  {
    if rows != [] {
      var prefix := rows[..|rows| - 1];
      var row := rows[|rows| - 1];
      GroupedLast(rows);
      GroupedAgree(prefix);
      GroupedWellKeyed(prefix);
      BucketsAgreeLast(rows, Grouped(prefix).value, RowArtist(row).value);
    }
  }

  // ---------------------------------------------------------------- writing the CSV

  /** The row `_write_history` writes for one artist of a month: integers in decimal,
      missing links as empty text. */
  function RowOf(p: SnapshotPayload, a: ArtistPayload): (r: Row) {
    Row(p.monthKey, p.monthLabel, p.generatedAt, a.name, Decimal(a.playcount), OrEmpty(a.imageUrl), OrEmpty(a.url), Decimal(a.rank))
  }

  /** A month's rows: its artists ordered by `(rank, -playcount)`. */
  function MonthRows(p: SnapshotPayload): (r: seq<Row>)
    ensures |r| == |p.artists|
  {
    var artists := SortBy(p.artists, RankKey);
    seq(|artists|, k requires 0 <= k < |artists| => RowOf(p, artists[k]))
  }

  /** The rows of the months in the order given. */
  function RowsOf(snaps: seq<SnapshotPayload>): (r: seq<Row>) {
    if snaps == [] then [] else RowsOf(snaps[..|snaps| - 1]) + MonthRows(snaps[|snaps| - 1])
  }

  /** Every row `_write_history` writes after the header: months ordered by `month_key`. */
  function WrittenRows(snaps: seq<SnapshotPayload>): (r: seq<Row>) {
    RowsOf(SortBy(snaps, MonthKeyOf))
  }

  lemma RowsOfSnoc(snaps: seq<SnapshotPayload>, i: nat)
    requires i < |snaps|
    ensures RowsOf(snaps[..i + 1]) == RowsOf(snaps[..i]) + MonthRows(snaps[i])
  {
    assert snaps[..i + 1][..i] == snaps[..i];
  }

  /** The inner loop of `_write_history`: one month's rows. */
  method WriteMonth(snapshot: SnapshotPayload) returns (rows: seq<Row>)
    ensures rows == MonthRows(snapshot)
    ensures |rows| == |snapshot.artists|
    ensures forall k :: 0 <= k < |rows| ==> rows[k].monthKey == snapshot.monthKey && RowArtist(rows[k]).Some?
    ensures forall k, l :: 0 <= k < l < |rows| ==>
      !LexLess(RankKey(RowArtist(rows[l]).value), RankKey(RowArtist(rows[k]).value))
  {
    var artists := SortBy(snapshot.artists, RankKey);
    ghost var month := MonthRows(snapshot);
    rows := [];
    for j := 0 to |artists|
      invariant rows == month[..j]
    {
      assert month[..j + 1] == month[..j] + [RowOf(snapshot, artists[j])];
      rows := rows + [RowOf(snapshot, artists[j])];
    }
    assert month[..|artists|] == month;
    MonthRowsRanked(snapshot);
  }

  /** `_write_history`: the rows it writes, month by month and artist by artist. */
  method WriteHistory(snapshots: seq<SnapshotPayload>) returns (rows: seq<Row>)
    ensures rows == WrittenRows(snapshots)
    ensures forall i, j :: 0 <= i < j < |rows| ==> !LexLess(CodePoints(rows[j].monthKey), CodePoints(rows[i].monthKey))
  {
    var ordered := SortBy(snapshots, MonthKeyOf);
    rows := [];
    for i := 0 to |ordered|
      invariant rows == RowsOf(ordered[..i])
    {
      var monthRows := WriteMonth(ordered[i]);
      RowsOfSnoc(ordered, i);
      rows := rows + monthRows;
    }
    assert ordered[..|ordered|] == ordered;
    RowsOfOrdered(ordered);
  }

  /** A month's rows all parse and come in `(rank, -playcount)` order. */
  lemma MonthRowsRanked(p: SnapshotPayload)
    ensures forall k :: 0 <= k < |p.artists| ==> MonthRows(p)[k].monthKey == p.monthKey && RowArtist(MonthRows(p)[k]).Some?
    ensures forall k, l :: 0 <= k < l < |p.artists| ==>
      !LexLess(RankKey(RowArtist(MonthRows(p)[l]).value), RankKey(RowArtist(MonthRows(p)[k]).value))
  {
    forall k | 0 <= k < |p.artists|
      ensures MonthRows(p)[k].monthKey == p.monthKey && RowArtist(MonthRows(p)[k]) == Some(ReloadedArtists(p)[k])
    {
      MonthRowArtist(p, k);
    }
    ReloadedArtistsRanked(p);
  }

  /** Read back, a month's artists come in `(rank, -playcount)` order. */
  lemma ReloadedArtistsRanked(p: SnapshotPayload)
    ensures forall k, l :: 0 <= k < l < |p.artists| ==> !LexLess(RankKey(ReloadedArtists(p)[l]), RankKey(ReloadedArtists(p)[k]))
  {
    var artists, back := SortBy(p.artists, RankKey), ReloadedArtists(p);
    assert SortedBy(artists, RankKey);
    forall k | 0 <= k < |p.artists| ensures RankKey(back[k]) == RankKey(artists[k]) {
      assert back[k] == ReloadedArtist(artists[k]);
    }
  }

  /** The rows of months given in month-key order are in month-key order. */
  lemma {:induction false} RowsOfOrdered(snaps: seq<SnapshotPayload>)
    requires SortedBy(snaps, MonthKeyOf)
    ensures forall i, j :: 0 <= i < j < |RowsOf(snaps)| ==>
      !LexLess(CodePoints(RowsOf(snaps)[j].monthKey), CodePoints(RowsOf(snaps)[i].monthKey))
    decreases |snaps|
  {
    if snaps != [] {
      var prefix, last := snaps[..|snaps| - 1], snaps[|snaps| - 1];
      SortedPrefix(snaps);
      RowsOfOrdered(prefix);
      FrontBeforeLast(snaps);
      MonthRowsRanked(last);
      assert RowsOf(snaps) == RowsOf(prefix) + MonthRows(last);
      ConcatOrdered(RowsOf(prefix), MonthRows(last), last.monthKey);
    }
  }

  /** Rows in month-key order followed by rows of one month not before any of them. */
  lemma ConcatOrdered(front: seq<Row>, month: seq<Row>, key: string)
    requires forall i, j :: 0 <= i < j < |front| ==> !LexLess(CodePoints(front[j].monthKey), CodePoints(front[i].monthKey))
    requires forall i :: 0 <= i < |month| ==> month[i].monthKey == key
    requires forall i :: 0 <= i < |front| ==> !LexLess(CodePoints(key), CodePoints(front[i].monthKey))
    ensures var rows := front + month;
      forall i, j :: 0 <= i < j < |rows| ==> !LexLess(CodePoints(rows[j].monthKey), CodePoints(rows[i].monthKey))
  {
    var rows := front + month;
    LexLessIrreflexive(CodePoints(key));
    forall i, j | 0 <= i < j < |rows| ensures !LexLess(CodePoints(rows[j].monthKey), CodePoints(rows[i].monthKey)) {
      if j < |front| {
        assert rows[i] == front[i] && rows[j] == front[j];
      } else if i >= |front| {
        assert rows[i] == month[i - |front|] && rows[j] == month[j - |front|];
      } else {
        assert rows[i] == front[i] && rows[j] == month[j - |front|];
      }
    }
  }

  lemma SortedPrefix(snaps: seq<SnapshotPayload>)
    requires SortedBy(snaps, MonthKeyOf) && snaps != []
    ensures SortedBy(snaps[..|snaps| - 1], MonthKeyOf)
  {
    var prefix := snaps[..|snaps| - 1];
    forall i, j | 0 <= i < j < |prefix| ensures !LexLess(MonthKeyOf(prefix[j]), MonthKeyOf(prefix[i])) {
      assert prefix[i] == snaps[i] && prefix[j] == snaps[j];
    }
  }

  /** Every row of the months before the last is of a month not after the last. */
  lemma FrontBeforeLast(snaps: seq<SnapshotPayload>)
    requires SortedBy(snaps, MonthKeyOf) && snaps != []
    ensures var front, last := RowsOf(snaps[..|snaps| - 1]), snaps[|snaps| - 1];
      forall i :: 0 <= i < |front| ==> !LexLess(CodePoints(last.monthKey), CodePoints(front[i].monthKey))
  {
    var prefix, last := snaps[..|snaps| - 1], snaps[|snaps| - 1];
    RowsOfMonths(prefix);
    var front := RowsOf(prefix);
    forall i | 0 <= i < |front| ensures !LexLess(CodePoints(last.monthKey), CodePoints(front[i].monthKey)) {
      var t :| 0 <= t < |prefix| && prefix[t].monthKey == front[i].monthKey;
      assert snaps[t] == prefix[t];
      assert !LexLess(MonthKeyOf(snaps[|snaps| - 1]), MonthKeyOf(snaps[t]));
    }
  }

  /** Each row written is of one of the months. */
  lemma {:induction false} RowsOfMonths(snaps: seq<SnapshotPayload>)
    ensures forall i :: 0 <= i < |RowsOf(snaps)| ==> RowsOf(snaps)[i].monthKey in MonthKeys(snaps)
    decreases |snaps|
  {
    if snaps != [] {
      var prefix, last := snaps[..|snaps| - 1], snaps[|snaps| - 1];
      RowsOfMonths(prefix);
      MonthRowsRanked(last);
      var front, month, rows := RowsOf(prefix), MonthRows(last), RowsOf(snaps);
      assert rows == front + month;
      forall i | 0 <= i < |rows| ensures rows[i].monthKey in MonthKeys(snaps) {
        if i < |front| {
          assert rows[i] == front[i];
          var t :| 0 <= t < |prefix| && prefix[t].monthKey == front[i].monthKey;
          assert snaps[t] == prefix[t];
        } else {
          assert rows[i] == month[i - |front|];
          assert snaps[|snaps| - 1].monthKey == last.monthKey;
        }
      }
    }
  }

  // ---------------------------------------------------------------- saving

  /** `save_data` on a file holding `rows`: the history it returns and the rows it
      writes back. */
  function SaveResult(snapshot: MonthlySnapshot, rows: seq<Row>): (r: Result<Saved, LoadError>) {
    match LoadedHistory(rows)
    case Failure(e) => Failure(e)
    case Success(h) =>
      var ordered := SortedHistory(Put(h, snapshot.monthKey, SnapshotToPayload(snapshot)));
      Success(Saved(ordered, WrittenRows(Values(ordered))))
  }

  /** `save_data`. The new month replaces any month with the same key; the other months
      of the file stay as they were; the result is ordered by month key. */
  method SaveData(snapshot: MonthlySnapshot, rows: seq<Row>) returns (r: Result<Saved, LoadError>)
    ensures r == SaveResult(snapshot, rows)
    ensures r.Failure? <==> LoadedHistory(rows).Failure?
    ensures r.Success? ==>
      && WellKeyed(r.value.history)
      && StrictlyAscendingBy(r.value.history, EntryKey)
      && Get(r.value.history, snapshot.monthKey) == Some(SnapshotToPayload(snapshot))
      && Keys(r.value.history) == Keys(LoadedHistory(rows).value) + {snapshot.monthKey}
      && (forall k :: k != snapshot.monthKey ==> Get(r.value.history, k) == Get(LoadedHistory(rows).value, k))
  {
    var loaded := LoadHistory(rows);
    match loaded
    case Failure(e) =>
      r := Failure(e);
    case Success(history) =>
      var payload := SnapshotToPayload(snapshot);
      var updated := Put(history, snapshot.monthKey, payload);
      PutOverwrites(history, snapshot.monthKey, payload);
      var ordered := SortedHistory(updated);
      SortedHistoryAscending(updated);
      forall k ensures Get(ordered, k) == Get(updated, k) {
        GetAfterSort(updated, k);
      }
      SortedKeys(updated);
      var written := WriteHistory(Values(ordered));
      r := Success(Saved(ordered, written));
  }

  lemma SortedKeys(h: History)
    ensures Keys(SortedHistory(h)) == Keys(h)
  {
    var r := SortedHistory(h);
    forall k ensures k in Keys(r) <==> k in Keys(h) {
      if k in Keys(r) { var e :| e in r && e.key == k; assert e in multiset(h); }
      if k in Keys(h) { var e :| e in h && e.key == k; assert e in multiset(r); }
    }
  }

  // ---------------------------------------------------------------- reading back what was written

  /** An artist after a trip through the CSV: an empty link reads back as missing. */
  function ReloadedArtist(a: ArtistPayload): (r: ArtistPayload) {
    a.(imageUrl := OrNone(OrEmpty(a.imageUrl)), url := OrNone(OrEmpty(a.url)))
  }

  function ReloadedArtists(p: SnapshotPayload): (r: seq<ArtistPayload>)
    ensures |r| == |p.artists|
  {
    var artists := SortBy(p.artists, RankKey);
    seq(|artists|, k requires 0 <= k < |artists| => ReloadedArtist(artists[k]))
  }

  /** A month after a trip through the CSV: artists in written order. */
  function ReloadedPayload(p: SnapshotPayload): (r: SnapshotPayload) {
    p.(artists := ReloadedArtists(p))
  }

  /** The history read back from the rows of `snaps`: a month with no artists wrote no
      rows and is gone. */
  function Reloaded(snaps: seq<SnapshotPayload>): (r: History) {
    if snaps == [] then []
    else
      var last := snaps[|snaps| - 1];
      Reloaded(snaps[..|snaps| - 1]) + (if last.artists == [] then [] else [Entry(last.monthKey, ReloadedPayload(last))])
  }

  /** Each written row reads back as the artist it was written from. */
  lemma RowRoundTrip(p: SnapshotPayload, a: ArtistPayload)
    ensures RowArtist(RowOf(p, a)) == Some(ReloadedArtist(a))
  {
    DecimalRoundTrip(a.playcount);
    DecimalRoundTrip(a.rank);
  }

  /** One more row read after `rows`. */
  lemma GroupFromSnoc(acc: Result<History, LoadError>, rows: seq<Row>, row: Row, base: nat)
    requires GroupFrom(acc, rows, base).Success? && RowArtist(row).Some?
    ensures GroupFrom(acc, rows + [row], base) == Success(AddToBucket(GroupFrom(acc, rows, base).value, row, RowArtist(row).value))
  {
    assert (rows + [row])[..|rows + [row]| - 1] == rows;
  }

  /** The `k`-th row of a month reads back as its `k`-th reloaded artist. */
  lemma MonthRowArtist(p: SnapshotPayload, k: nat)
    requires k < |p.artists|
    ensures MonthRows(p)[k].monthKey == p.monthKey
    ensures MonthRows(p)[k].monthLabel == p.monthLabel && MonthRows(p)[k].generatedAt == p.generatedAt
    ensures RowArtist(MonthRows(p)[k]) == Some(ReloadedArtists(p)[k])
  {
    var artists := SortBy(p.artists, RankKey);
    RowRoundTrip(p, artists[k]);
  }

  /** Appending to the bucket of the last entry, whose key is nowhere else. */
  lemma AddToLastBucket(h: History, e: Entry, row: Row, a: ArtistPayload)
    requires e.key !in Keys(h) && row.monthKey == e.key
    ensures AddToBucket(h + [e], row, a) == h + [e.(payload := e.payload.(artists := e.payload.artists + [a]))]
  {
    var h' := h + [e];
    assert h'[|h|].key == e.key;
    var t := Find(h', e.key).value;
    assert t == |h|;
  }

  /** Rows of one month whose artists parse to `artists`, in order. */
  ghost predicate BucketRows(rows: seq<Row>, p: SnapshotPayload, artists: seq<ArtistPayload>) {
    && |rows| == |artists|
    && forall k :: 0 <= k < |rows| ==>
         && rows[k].monthKey == p.monthKey && rows[k].monthLabel == p.monthLabel && rows[k].generatedAt == p.generatedAt
         && RowArtist(rows[k]) == Some(artists[k])
  }

  /** What reading the first `j` rows of such a month after `h` gives. */
  function BucketPrefix(h: History, p: SnapshotPayload, artists: seq<ArtistPayload>, j: nat): (r: History)
    requires j <= |artists|
  {
    if j == 0 then h else h + [Entry(p.monthKey, p.(artists := artists[..j]))]
  }

  /** Reading one month's rows after a history without that month: the month is
      appended, its artists growing row by row. */
  lemma BucketRowsLoad(h: History, p: SnapshotPayload, rows: seq<Row>, artists: seq<ArtistPayload>, base: nat)
    requires p.monthKey !in Keys(h) && BucketRows(rows, p, artists)
    ensures GroupFrom(Success(h), rows, base) == Success(BucketPrefix(h, p, artists, |rows|))
  {
    var states := seq(|rows| + 1, j requires 0 <= j <= |rows| => Success(BucketPrefix(h, p, artists, j)));
    forall k | 0 <= k < |rows| ensures GroupStep(states[k], rows[k], base + k) == states[k + 1] {
      BucketRowStep(h, p, rows, artists, base, k);
    }
    FoldRowsChain(GroupStep, Success(h), rows, base, states);
  }

  lemma BucketRowStep(h: History, p: SnapshotPayload, rows: seq<Row>, artists: seq<ArtistPayload>, base: nat, k: nat)
    requires p.monthKey !in Keys(h) && BucketRows(rows, p, artists) && k < |rows|
    ensures GroupStep(Success(BucketPrefix(h, p, artists, k)), rows[k], base + k) == Success(BucketPrefix(h, p, artists, k + 1))
  {
    BucketRowAdded(h, p, artists, k + 1, rows[k]);
  }

  /** Row `j - 1` of the month goes into the month's bucket. */
  lemma BucketRowAdded(h: History, p: SnapshotPayload, artists: seq<ArtistPayload>, j: nat, row: Row)
    requires p.monthKey !in Keys(h) && 0 < j <= |artists|
    requires row.monthKey == p.monthKey && row.monthLabel == p.monthLabel && row.generatedAt == p.generatedAt
    ensures AddToBucket(BucketPrefix(h, p, artists, j - 1), row, artists[j - 1]) == BucketPrefix(h, p, artists, j)
  {
    var a := artists[j - 1];
    assert artists[..j] == artists[..j - 1] + [a];
    if j == 1 {
      assert Find(h, p.monthKey).None?;
      assert [] + [a] == [a];
    } else {
      AddToLastBucket(h, Entry(p.monthKey, p.(artists := artists[..j - 1])), row, a);
    }
  }

  /** Reading all of a month's rows after a history without that month. */
  lemma MonthLoad(h: History, p: SnapshotPayload, base: nat)
    requires p.monthKey !in Keys(h)
    ensures GroupFrom(Success(h), MonthRows(p), base) ==
      Success(h + (if p.artists == [] then [] else [Entry(p.monthKey, ReloadedPayload(p))]))
  {
    var n := |p.artists|;
    var rows, artists := MonthRows(p), ReloadedArtists(p);
    forall k | 0 <= k < n
      ensures rows[k].monthKey == p.monthKey && rows[k].monthLabel == p.monthLabel && rows[k].generatedAt == p.generatedAt
      ensures RowArtist(rows[k]) == Some(artists[k])
    {
      MonthRowArtist(p, k);
    }
    BucketRowsLoad(h, p, rows, artists, base);
    assert artists[..n] == artists;
    if n == 0 {
      assert h + [] == h;
    }
  }

  /** The months' keys as a set. */
  function MonthKeys(snaps: seq<SnapshotPayload>): (r: set<string>) {
    set t | 0 <= t < |snaps| :: snaps[t].monthKey
  }

  lemma {:induction false} ReloadedShape(snaps: seq<SnapshotPayload>)
    requires DistinctBy(snaps, MonthKeyOf)
    ensures WellKeyed(Reloaded(snaps))
    ensures Keys(Reloaded(snaps)) <= MonthKeys(snaps)
    decreases |snaps|
  {
    if snaps != [] {
      var prefix := snaps[..|snaps| - 1];
      var last := snaps[|snaps| - 1];
      var h := Reloaded(prefix);
      assert DistinctBy(prefix, MonthKeyOf) by {
        forall i, j | 0 <= i < j < |prefix| ensures MonthKeyOf(prefix[i]) != MonthKeyOf(prefix[j]) {
          assert prefix[i] == snaps[i] && prefix[j] == snaps[j];
        }
      }
      ReloadedShape(prefix);
      assert MonthKeys(prefix) <= MonthKeys(snaps) by {
        forall k | k in MonthKeys(prefix) ensures k in MonthKeys(snaps) {
          var t :| 0 <= t < |prefix| && prefix[t].monthKey == k;
          assert snaps[t] == prefix[t];
        }
      }
      assert last.monthKey !in Keys(h) by {
        forall t | 0 <= t < |prefix| ensures prefix[t].monthKey != last.monthKey {
          assert prefix[t] == snaps[t];
          assert MonthKeyOf(snaps[t]) != MonthKeyOf(snaps[|snaps| - 1]);
        }
      }
      if last.artists != [] {
        var e := Entry(last.monthKey, ReloadedPayload(last));
        assert Reloaded(snaps) == h + [e];
        KeysAppend(h, e);
        AppendNewKey(h, e);
        assert last.monthKey in MonthKeys(snaps) by { assert snaps[|snaps| - 1] == last; }
      } else {
        assert Reloaded(snaps) == h + [];
        assert h + [] == h;
      }
    }
  }

  /** Appending an entry under a key the history does not have keeps it well keyed. */
  lemma AppendNewKey(h: History, e: Entry)
    requires WellKeyed(h) && e.key !in Keys(h) && e.payload.monthKey == e.key
    ensures WellKeyed(h + [e])
  {
    forall i | 0 <= i < |h| ensures h[i].key != e.key {
      assert h[i] in h;
    }
  }

  lemma {:induction false} GroupedConcat(front: seq<Row>, back: seq<Row>, h: History)
    requires Grouped(front) == Success(h)
    ensures Grouped(front + back) == GroupFrom(Success(h), back, |front|)
  {
    GroupFromAppend(Success([]), front, back, 0);
  }

  /** With distinct month keys, the last month is not among those read before it. */
  lemma LastMonthIsNew(snaps: seq<SnapshotPayload>)
    requires DistinctBy(snaps, MonthKeyOf) && snaps != []
    ensures DistinctBy(snaps[..|snaps| - 1], MonthKeyOf)
    ensures snaps[|snaps| - 1].monthKey !in Keys(Reloaded(snaps[..|snaps| - 1]))
  {
    var prefix := snaps[..|snaps| - 1];
    ReloadedShape(prefix);
    assert snaps[|snaps| - 1].monthKey !in MonthKeys(prefix) by {
      forall t | 0 <= t < |prefix| ensures prefix[t].monthKey != snaps[|snaps| - 1].monthKey {
        assert prefix[t] == snaps[t];
        assert MonthKeyOf(snaps[t]) != MonthKeyOf(snaps[|snaps| - 1]);
      }
    }
  }

  lemma {:induction false} RowsOfLoad(snaps: seq<SnapshotPayload>)
    requires DistinctBy(snaps, MonthKeyOf)
    ensures Grouped(RowsOf(snaps)) == Success(Reloaded(snaps))
    decreases |snaps|
  {
    if snaps != [] {
      var prefix := snaps[..|snaps| - 1];
      var last := snaps[|snaps| - 1];
      LastMonthIsNew(snaps);
      RowsOfLoad(prefix);
      var h := Reloaded(prefix);
      var front, month := RowsOf(prefix), MonthRows(last);
      assert RowsOf(snaps) == front + month;
      GroupedConcat(front, month, h);
      MonthLoad(h, last, |front|);
      var added := if last.artists == [] then [] else [Entry(last.monthKey, ReloadedPayload(last))];
      assert Reloaded(snaps) == h + added;
    }
  }

  lemma {:induction false} ReloadedSorted(snaps: seq<SnapshotPayload>)
    requires StrictlyAscendingBy(snaps, MonthKeyOf)
    ensures SortedBy(Reloaded(snaps), EntryKey)
    decreases |snaps|
  {
    if snaps != [] {
      var prefix := snaps[..|snaps| - 1];
      var last := snaps[|snaps| - 1];
      ReloadedSorted(prefix);
      assert DistinctBy(prefix, MonthKeyOf) by {
        forall i, j | 0 <= i < j < |prefix| ensures MonthKeyOf(prefix[i]) != MonthKeyOf(prefix[j]) {
          LexLessIrreflexive(MonthKeyOf(prefix[i]));
        }
      }
      ReloadedShape(prefix);
      var h := Reloaded(prefix);
      if last.artists != [] {
        var r := h + [Entry(last.monthKey, ReloadedPayload(last))];
        forall i, j | 0 <= i < j < |r| ensures !LexLess(EntryKey(r[j]), EntryKey(r[i])) {
          if j == |h| {
            assert h[i] in h;
            assert h[i].key in MonthKeys(prefix);
            var t :| 0 <= t < |prefix| && prefix[t].monthKey == h[i].key;
            assert snaps[t] == prefix[t];
            assert LexLess(MonthKeyOf(snaps[t]), MonthKeyOf(snaps[|snaps| - 1]));
            LexLessAsymmetric(EntryKey(r[i]), EntryKey(r[j]));
          } else {
            assert r[i] == h[i] && r[j] == h[j];
          }
        }
      }
    }
  }

  /** Written and read back, distinct months come back ordered by key, each with its
      artists in rank order and empty links as missing; months without artists are lost. */
  lemma RoundTrip(snaps: seq<SnapshotPayload>)
    requires DistinctBy(snaps, MonthKeyOf)
    ensures LoadedHistory(WrittenRows(snaps)) == Success(Reloaded(SortBy(snaps, MonthKeyOf)))
  {
    var ordered := SortBy(snaps, MonthKeyOf);
    SortByKeepsDistinct(snaps, MonthKeyOf);
    SortedDistinctIsAscending(ordered, MonthKeyOf);
    RowsOfLoad(ordered);
    ReloadedSorted(ordered);
    SortByOfSorted(Reloaded(ordered), EntryKey);
  }

  /** A month already in rank order and without empty links comes back as it was. */
  lemma ReloadedUnchanged(p: SnapshotPayload)
    requires SortedBy(p.artists, RankKey)
    requires forall i :: 0 <= i < |p.artists| ==> p.artists[i].imageUrl != Some("") && p.artists[i].url != Some("")
    ensures ReloadedPayload(p) == p
  {
    SortByOfSorted(p.artists, RankKey);
    assert ReloadedArtists(p) == p.artists;
  }

  /** What `save_data` writes reads back as the history it returned, up to empty links
      and rank order within months; months without artists are lost. */
  lemma SaveThenLoad(snapshot: MonthlySnapshot, rows: seq<Row>)
    requires SaveResult(snapshot, rows).Success?
    ensures var saved := SaveResult(snapshot, rows).value;
      LoadedHistory(saved.rows) == Success(Reloaded(Values(saved.history)))
  {
    var h := LoadedHistory(rows).value;
    GroupedWellKeyed(rows);
    SortedHistoryAscending(Grouped(rows).value);
    var payload := SnapshotToPayload(snapshot);
    PutOverwrites(h, snapshot.monthKey, payload);
    var ordered := SortedHistory(Put(h, snapshot.monthKey, payload));
    SortedHistoryAscending(Put(h, snapshot.monthKey, payload));
    var vs := Values(ordered);
    assert StrictlyAscendingBy(vs, MonthKeyOf) by {
      forall i, j | 0 <= i < j < |vs| ensures LexLess(MonthKeyOf(vs[i]), MonthKeyOf(vs[j])) {
        assert MonthKeyOf(vs[i]) == EntryKey(ordered[i]) && MonthKeyOf(vs[j]) == EntryKey(ordered[j]);
      }
    }
    assert DistinctBy(vs, MonthKeyOf) by {
      forall i, j | 0 <= i < j < |vs| ensures MonthKeyOf(vs[i]) != MonthKeyOf(vs[j]) {
        LexLessIrreflexive(MonthKeyOf(vs[i]));
      }
    }
    assert SortedBy(vs, MonthKeyOf) by {
      forall i, j | 0 <= i < j < |vs| ensures !LexLess(MonthKeyOf(vs[j]), MonthKeyOf(vs[i])) {
        LexLessAsymmetric(MonthKeyOf(vs[i]), MonthKeyOf(vs[j]));
      }
    }
    SortByOfSorted(vs, MonthKeyOf);
    RoundTrip(vs);
  }

  /** Saving into an empty file gives a one-month history. */
  lemma SaveIntoEmpty(snapshot: MonthlySnapshot)
    ensures SaveResult(snapshot, []).Success?
    ensures SaveResult(snapshot, []).value.history == [Entry(snapshot.monthKey, SnapshotToPayload(snapshot))]
  {
    var key, p := snapshot.monthKey, SnapshotToPayload(snapshot);
    assert LoadedHistory([]) == Success([]);
    assert Put([], key, p) == [Entry(key, p)];
    assert SortedHistory([Entry(key, p)]) == [Entry(key, p)];
  }

  /** Saving over a file that holds at most the same month gives a one-month history. */
  lemma SaveOverSameMonth(snapshot: MonthlySnapshot, rows: seq<Row>, earlier: History)
    requires LoadedHistory(rows) == Success(earlier)
    requires earlier == [] || (|earlier| == 1 && earlier[0].key == snapshot.monthKey)
    ensures SaveResult(snapshot, rows).Success?
    ensures SaveResult(snapshot, rows).value.history == [Entry(snapshot.monthKey, SnapshotToPayload(snapshot))]
  {
    var key, p := snapshot.monthKey, SnapshotToPayload(snapshot);
    assert Put(earlier, key, p) == [Entry(key, p)];
    assert SortedHistory([Entry(key, p)]) == [Entry(key, p)];
  }

  /** Saving the same month twice, starting from an empty file, leaves one month: the
      one saved last. */
  lemma SaveTwiceKeepsLatest(first: MonthlySnapshot, second: MonthlySnapshot)
    requires first.monthKey == second.monthKey
    ensures var r1 := SaveResult(first, []);
      && r1.Success?
      && var r2 := SaveResult(second, r1.value.rows);
      && r2.Success?
      && r2.value.history == [Entry(second.monthKey, SnapshotToPayload(second))]
  {
    var back := FirstSaveReloads(first);
    SaveOverSameMonth(second, SaveResult(first, []).value.rows, back);
  }

  /** What the first save into an empty file writes reads back as at most that month. */
  lemma FirstSaveReloads(first: MonthlySnapshot) returns (back: History)
    ensures SaveResult(first, []).Success?
    ensures LoadedHistory(SaveResult(first, []).value.rows) == Success(back)
    ensures back == [] || (|back| == 1 && back[0].key == first.monthKey)
  {
    var p1 := SnapshotToPayload(first);
    SaveIntoEmpty(first);
    var r1 := SaveResult(first, []);
    assert Values(r1.value.history) == [p1];
    back := Reloaded([p1]);
    assert LoadedHistory(r1.value.rows) == Success(back) by {
      SaveThenLoad(first, []);
    }
    assert back == [] || (|back| == 1 && back[0].key == first.monthKey) by {
      assert [p1][..0] == [];
      assert back == Reloaded([]) + (if p1.artists == [] then [] else [Entry(p1.monthKey, ReloadedPayload(p1))]);
    }
  }
}
