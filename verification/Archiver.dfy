/** archiver/orm_archiver.go: three ways of asking for a window of block headers. */
module Archiver {
  import opened Base

  /** A row of the block table; the timestamp and the L1 head are signed in the table. */
  datatype Row = Row(blockID: string, timestamp: int, height: uint64, l1Head: int)

  datatype BlockInfo = BlockInfo(blockID: string, timestamp: int, l1Head: uint64, height: uint64)
  datatype Headers = Headers(blocks: seq<BlockInfo>, prev: BlockInfo, next: BlockInfo)

  const NO_BLOCK := BlockInfo("", 0, 0, 0)

  function InfoOf(r: Row): BlockInfo {
    BlockInfo(r.blockID, r.timestamp, r.l1Head % TWO_TO_64, r.height)
  }

  /** The block info has the id, time and height of the row, and its L1 head as a 64-bit word. */
  predicate Describes(b: BlockInfo, r: Row) {
    && b.blockID == r.blockID && b.timestamp == r.timestamp && b.height == r.height
    && (b.l1Head - r.l1Head) % TWO_TO_64 == 0
  }

  /** That determines it. */
  lemma DescribedOnce(b: BlockInfo, r: Row)
    ensures Describes(b, r) <==> b == InfoOf(r)
  {
    var q := r.l1Head / TWO_TO_64;
    assert r.l1Head == q * TWO_TO_64 + r.l1Head % TWO_TO_64;
    if Describes(b, r) {
      var p := (b.l1Head - r.l1Head) / TWO_TO_64;
      assert b.l1Head - r.l1Head == p * TWO_TO_64;
      assert (p + q) * TWO_TO_64 == b.l1Head - r.l1Head % TWO_TO_64;
    }
  }

  /** A row that was not found is left zero. */
  function InfoOrZero(r: Option<Row>): BlockInfo {
    if r.Some? then InfoOf(r.value) else NO_BLOCK
  }

  // ---------- the table and its queries ----------

  /** The unique indexes on height and block id. */
  ghost predicate Unique(rows: seq<Row>) {
    forall i, j :: 0 <= i < j < |rows| ==> rows[i].height != rows[j].height && rows[i].blockID != rows[j].blockID
  }

  /** The rows, in order of insertion, that satisfy the condition. */
  function Where(rows: seq<Row>, cond: Row -> bool): (found: seq<Row>)
    ensures forall r :: r in found <==> r in rows && cond(r)
  {
    if rows == [] then []
    else
      var last := rows[|rows| - 1];
      assert rows == rows[..|rows| - 1] + [last];
      Where(rows[..|rows| - 1], cond) + if cond(last) then [last] else []
  }

  predicate Sorted(rows: seq<Row>) {
    forall i, j :: 0 <= i < j < |rows| ==> rows[i].height <= rows[j].height
  }

  function InsertByHeight(sorted: seq<Row>, r: Row): seq<Row> {
    if sorted == [] || r.height <= sorted[0].height then [r] + sorted
    else [sorted[0]] + InsertByHeight(sorted[1..], r)
  }

  /** `ORDER BY height`. */
  function OrderByHeight(rows: seq<Row>): seq<Row> {
    if rows == [] then [] else InsertByHeight(OrderByHeight(rows[..|rows| - 1]), rows[|rows| - 1])
  }

  lemma {:induction false} InsertAdds(sorted: seq<Row>, r: Row)
    ensures multiset(InsertByHeight(sorted, r)) == multiset(sorted) + multiset{r}
  {
    if sorted != [] {
      InsertAdds(sorted[1..], r);
      assert sorted == [sorted[0]] + sorted[1..];
    }
  }

  lemma {:induction false} InsertKeepsSorted(sorted: seq<Row>, r: Row)
    requires Sorted(sorted)
    ensures Sorted(InsertByHeight(sorted, r))
    ensures InsertByHeight(sorted, r)[0] == r || (sorted != [] && InsertByHeight(sorted, r)[0] == sorted[0])
  {
    if sorted != [] && r.height > sorted[0].height {
      InsertKeepsSorted(sorted[1..], r);
    }
  }

  /** Ordering sorts by height and keeps the rows. */
  lemma {:induction false} OrderSorts(rows: seq<Row>)
    ensures Sorted(OrderByHeight(rows)) && multiset(OrderByHeight(rows)) == multiset(rows)
  {
    if rows != [] {
      var rest, last := rows[..|rows| - 1], rows[|rows| - 1];
      OrderSorts(rest);
      InsertAdds(OrderByHeight(rest), last);
      InsertKeepsSorted(OrderByHeight(rest), last);
      assert rows == rest + [last];
    }
  }

  function First(rows: seq<Row>): Option<Row> {
    if rows == [] then None else Some(rows[0])
  }

  /** `ORDER BY timestamp LIMIT 1`: the earliest row, of equals the one inserted first. */
  function Earliest(rows: seq<Row>): (e: Option<Row>)
    ensures e.None? <==> rows == []
    ensures e.Some? ==> e.value in rows && forall r :: r in rows ==> e.value.timestamp <= r.timestamp
  {
    if rows == [] then None
    else
      var last, rest := rows[|rows| - 1], rows[..|rows| - 1];
      assert rows == rest + [last];
      var e := Earliest(rest);
      if e.Some? && e.value.timestamp <= last.timestamp then e else Some(last)
  }

  // the conditions of the queries

  function InWindow(height: uint64, end: int): Row -> bool {
    (r: Row) => height <= r.height && r.timestamp < end
  }

  function HeightIs(height: uint64): Row -> bool {
    (r: Row) => r.height == height
  }

  function IDIs(id: string): Row -> bool {
    (r: Row) => r.blockID == id
  }

  function From(time: int): Row -> bool {
    (r: Row) => time <= r.timestamp
  }

  /** The rows of the window, by height. */
  function Window(rows: seq<Row>, height: uint64, end: int): seq<Row> {
    OrderByHeight(Where(rows, InWindow(height, end)))
  }

  function AtHeight(rows: seq<Row>, height: uint64): Option<Row> {
    First(Where(rows, HeightIs(height)))
  }

  function WithID(rows: seq<Row>, id: string): Option<Row> {
    First(Where(rows, IDIs(id)))
  }

  function FirstFrom(rows: seq<Row>, end: int): Option<Row> {
    First(OrderByHeight(Where(rows, From(end))))
  }

  predicate Consecutive(rows: seq<Row>) {
    forall i :: 0 < i < |rows| ==> rows[i].height == rows[i - 1].height + 1
  }

  function Infos(rows: seq<Row>): (infos: seq<BlockInfo>)
    ensures |infos| == |rows|
    ensures forall i :: 0 <= i < |rows| ==> infos[i] == InfoOf(rows[i])
  {
    seq(|rows|, i requires 0 <= i < |rows| => InfoOf(rows[i]))
  }

  /** The answer for the window that begins at a height, or None for the error that it has a gap. */
  function HeadersFrom(rows: seq<Row>, height: uint64, end: int): Option<Headers> {
    var window := Window(rows, height, end);
    if !Consecutive(window) then None
    else Some(Headers(Infos(window),
                      if height > 1 then InfoOrZero(AtHeight(rows, height - 1)) else NO_BLOCK,
                      InfoOrZero(FirstFrom(rows, end))))
  }

  function HeadersByID(rows: seq<Row>, id: string, end: int): Option<Headers> {
    if id == "" then None else HeadersFrom(rows, InfoOrZero(WithID(rows, id)).height, end)
  }

  function HeadersAfterTimestamp(rows: seq<Row>, start: int, end: int): Option<Headers> {
    match Earliest(Where(rows, From(start)))
    case None => None
    case Some(first) => HeadersFrom(rows, first.height, end)
  }

  ghost predicate StrictlyIncreasing(s: seq<Row>) {
    forall i, j :: 0 <= i < j < |s| ==> s[i].height < s[j].height
  }

  /** The loop over the queried rows; the height before the current one is computed in 64 bits. */
  method CollectConsecutive(rows: seq<Row>) returns (ret: Option<seq<BlockInfo>>)
    requires StrictlyIncreasing(rows)
    ensures ret == if Consecutive(rows) then Some(Infos(rows)) else None
    ensures ret.Some? ==> |ret.value| == |rows| && forall i :: 0 <= i < |rows| ==> Describes(ret.value[i], rows[i])
  {
    var blocks: seq<BlockInfo> := [];
    for i := 0 to |rows|
      invariant |blocks| == i
      invariant forall j :: 0 <= j < i ==> blocks[j] == InfoOf(rows[j])
      invariant forall j :: 0 < j < i ==> rows[j].height == rows[j - 1].height + 1
    {
      var info := InfoOf(rows[i]);
      if |blocks| > 0 && (info.height - 1) % TWO_TO_64 != blocks[|blocks| - 1].height {
        return None;
      }
      blocks := blocks + [info];
    }
    assert blocks == Infos(rows);
    forall i | 0 <= i < |rows|
      ensures Describes(blocks[i], rows[i])
    {
      DescribedOnce(blocks[i], rows[i]);
    }
    return Some(blocks);
  }

  class ORMArchiver {
    var table: seq<Row>

    constructor ()
      ensures table == []
    {
      table := [];
    }

    /** `InsertBlock`: the unique indexes refuse a second row of the same height or id. */
    method InsertBlock(r: Row) returns (ok: bool)
      requires Unique(table)
      modifies this
      ensures Unique(table)
      ensures ok <==> forall i :: 0 <= i < |old(table)| ==>
        old(table)[i].height != r.height && old(table)[i].blockID != r.blockID
      ensures table == if ok then old(table) + [r] else old(table)
    {
      for i := 0 to |table|
        invariant table == old(table)
        invariant forall j :: 0 <= j < i ==> table[j].height != r.height && table[j].blockID != r.blockID
      {
        if table[i].height == r.height || table[i].blockID == r.blockID {
          return false;
        }
      }
      table := table + [r];
      return true;
    }

    /** The part the three queries share: neighbours, window, and the check that the window has no gap. */
    method HeadersFromHeight(height: uint64, end: int) returns (ret: Option<Headers>)
      requires Unique(table)
      ensures ret == HeadersFrom(table, height, end)
    {
      var prev := NO_BLOCK;
      if height > 1 {
        prev := InfoOrZero(AtHeight(table, height - 1));
      }
      var rows := Window(table, height, end);
      StrictlySorted(table, rows, InWindow(height, end));
      var blocks := CollectConsecutive(rows);
      if blocks.None? {
        return None;
      }
      return Some(Headers(blocks.value, prev, InfoOrZero(FirstFrom(table, end))));
    }

    method GetBlockHeadersByHeight(height: uint64, end: int) returns (ret: Option<Headers>)
      requires Unique(table)
      ensures ret == HeadersFrom(table, height, end)
    {
      ret := HeadersFromHeight(height, end);
    }

    method GetBlockHeadersByID(id: string, end: int) returns (ret: Option<Headers>)
      requires Unique(table)
      ensures ret == HeadersByID(table, id, end)
    {
      if id == "" {
        return None;
      }
      var first := InfoOrZero(WithID(table, id));
      ret := HeadersFromHeight(first.height, end);
    }

    method GetBlockHeadersAfterTimestamp(start: int, end: int) returns (ret: Option<Headers>)
      requires Unique(table)
      ensures ret == HeadersAfterTimestamp(table, start, end)
    {
      var first := Earliest(Where(table, From(start)));
      if first.None? {
        return None;
      }
      ret := HeadersFromHeight(first.value.height, end);
    }
  }

  // ---------- windows as sets of rows ----------

  ghost predicate DistinctHeights(rows: seq<Row>) {
    forall i, j :: 0 <= i < j < |rows| ==> rows[i].height != rows[j].height
  }

  lemma {:induction false} WhereKeepsDistinct(rows: seq<Row>, cond: Row -> bool)
    requires DistinctHeights(rows)
    ensures DistinctHeights(Where(rows, cond))
  {
    if rows != [] {
      WhereKeepsDistinct(rows[..|rows| - 1], cond);
      var found := Where(rows[..|rows| - 1], cond);
      forall i | 0 <= i < |found|
        ensures found[i].height != rows[|rows| - 1].height
      {
        assert found[i] in rows[..|rows| - 1];
      }
    }
  }

  lemma SortedDistinct(rows: seq<Row>, s: seq<Row>)
    requires DistinctHeights(rows) && Sorted(s) && multiset(s) == multiset(rows)
    ensures StrictlyIncreasing(s)
  {
    forall i, j | 0 <= i < j < |s|
      ensures s[i].height < s[j].height
    {
      if s[i].height == s[j].height {
        assert s[i] in multiset(rows) && s[j] in multiset(rows);
        var p :| 0 <= p < |rows| && rows[p] == s[i];
        var q :| 0 <= q < |rows| && rows[q] == s[j];
        assert p == q;
        TwiceIsTwo(s, i, j);
        OnceIsOne(rows, p);
        assert false;
      }
    }
  }

  lemma TwiceIsTwo(s: seq<Row>, i: nat, j: nat)
    requires i < j < |s| && s[i] == s[j]
    ensures multiset(s)[s[i]] >= 2
  {
    assert s == s[..i] + [s[i]] + s[i + 1..j] + [s[j]] + s[j + 1..];
  }

  lemma OnceIsOne(rows: seq<Row>, p: nat)
    requires DistinctHeights(rows) && p < |rows|
    ensures multiset(rows)[rows[p]] == 1
  {
    assert rows == rows[..p] + [rows[p]] + rows[p + 1..];
    assert rows[p] !in rows[..p] && rows[p] !in rows[p + 1..];
  }

  /** The rows a condition selects, by height: strictly increasing, and exactly the rows that satisfy it. */
  lemma StrictlySorted(rows: seq<Row>, s: seq<Row>, cond: Row -> bool)
    requires Unique(rows) && s == OrderByHeight(Where(rows, cond))
    ensures StrictlyIncreasing(s)
    ensures forall r :: r in s <==> r in rows && cond(r)
  {
    WhereKeepsDistinct(rows, cond);
    OrderSorts(Where(rows, cond));
    SortedDistinct(Where(rows, cond), s);
    forall r
      ensures r in s <==> r in Where(rows, cond)
    {
      assert r in s <==> r in multiset(s);
    }
  }

  /** The window holds exactly the rows asked for, by strictly increasing height. */
  lemma WindowRows(rows: seq<Row>, height: uint64, end: int)
    requires Unique(rows)
    ensures StrictlyIncreasing(Window(rows, height, end))
    ensures forall r :: r in Window(rows, height, end) <==> r in rows && height <= r.height && r.timestamp < end
  {
    StrictlySorted(rows, Window(rows, height, end), InWindow(height, end));
  }

  // ---------- an arbitrary archive ----------

  ghost predicate HasHeight(rows: seq<Row>, m: int) {
    exists c :: c in rows && c.height == m
  }

  /** Every height between two of the rows is the height of a row. */
  ghost predicate GapFree(rows: seq<Row>) {
    forall a, b, m {:trigger a in rows, b in rows, HasHeight(rows, m)} ::
      a in rows && b in rows && a.height < m < b.height ==> HasHeight(rows, m)
  }

  lemma {:induction false} ConsecutiveHeights(s: seq<Row>, i: nat)
    requires Consecutive(s) && i < |s|
    ensures s[i].height == s[0].height + i
    decreases i
  {
    if i > 0 {
      ConsecutiveHeights(s, i - 1);
    }
  }

  lemma ConsecutiveIsGapFree(s: seq<Row>)
    requires Consecutive(s)
    ensures GapFree(s)
  {
    forall a, b, m {:trigger a in s, b in s, HasHeight(s, m)} | a in s && b in s && a.height < m < b.height
      ensures HasHeight(s, m)
    {
      var p :| 0 <= p < |s| && s[p] == a;
      var q :| 0 <= q < |s| && s[q] == b;
      ConsecutiveHeights(s, p);
      ConsecutiveHeights(s, q);
      var i := p + (m - a.height);
      ConsecutiveHeights(s, i);
      assert s[i] in s;
    }
  }

  lemma NothingBetween(s: seq<Row>, i: nat, m: int)
    requires StrictlyIncreasing(s) && 0 < i < |s| && s[i - 1].height < m < s[i].height
    ensures !HasHeight(s, m)
  {
    forall c | c in s
      ensures c.height != m
    {
      var k :| 0 <= k < |s| && s[k] == c;
      assert k <= i - 1 || i <= k;
    }
  }

  lemma GapFreeIsConsecutive(s: seq<Row>)
    requires StrictlyIncreasing(s) && GapFree(s)
    ensures Consecutive(s)
  {
    forall i | 0 < i < |s|
      ensures s[i].height == s[i - 1].height + 1
    {
      assert s[i - 1] in s && s[i] in s;
      if s[i - 1].height + 1 < s[i].height {
        NothingBetween(s, i, s[i - 1].height + 1);
      }
    }
  }

  /** A query fails exactly when a block is missing between two of those asked for. */
  lemma FailsIffGap(rows: seq<Row>, height: uint64, end: int)
    requires Unique(rows)
    ensures HeadersFrom(rows, height, end).Some? <==> GapFree(Window(rows, height, end))
  {
    WindowRows(rows, height, end);
    if Consecutive(Window(rows, height, end)) {
      ConsecutiveIsGapFree(Window(rows, height, end));
    }
    if GapFree(Window(rows, height, end)) {
      GapFreeIsConsecutive(Window(rows, height, end));
    }
  }

  /** One of the blocks describes the row. */
  ghost predicate Holds(blocks: seq<BlockInfo>, r: Row) {
    exists b :: b in blocks && Describes(b, r)
  }

  /**
    Whatever the archive, a successful answer is consecutive and holds exactly the blocks asked for,
    each with its id, time, height and L1 head.
   */
  lemma AnswerComplete(rows: seq<Row>, height: uint64, end: int)
    requires Unique(rows) && HeadersFrom(rows, height, end).Some?
    ensures var blocks := HeadersFrom(rows, height, end).value.blocks;
      && (forall i :: 0 < i < |blocks| ==> blocks[i].height == blocks[i - 1].height + 1)
      && (forall b :: b in blocks ==> exists r :: r in rows && height <= r.height && r.timestamp < end && Describes(b, r))
      && (forall r :: r in rows && height <= r.height && r.timestamp < end ==> Holds(blocks, r))
  {
    var s, blocks := Window(rows, height, end), HeadersFrom(rows, height, end).value.blocks;
    WindowRows(rows, height, end);
    forall b | b in blocks
      ensures exists r :: r in rows && height <= r.height && r.timestamp < end && Describes(b, r)
    {
      var i :| 0 <= i < |blocks| && blocks[i] == b;
      DescribedOnce(b, s[i]);
      assert s[i] in s;
    }
    forall r | r in rows && height <= r.height && r.timestamp < end
      ensures Holds(blocks, r)
    {
      assert r in s;
      var i :| 0 <= i < |s| && s[i] == r;
      DescribedOnce(blocks[i], r);
    }
  }

  /** The row of the next block: the lowest of those from the end time on. */
  ghost predicate IsNext(rows: seq<Row>, end: int, r: Row) {
    r in rows && end <= r.timestamp && forall q :: q in rows && end <= q.timestamp ==> r.height <= q.height
  }

  lemma FirstFromIsNext(rows: seq<Row>, end: int)
    requires Unique(rows)
    ensures forall r :: FirstFrom(rows, end) == Some(r) <==> IsNext(rows, end, r)
    ensures FirstFrom(rows, end) == None <==> forall r :: r in rows ==> r.timestamp < end
  {
    var s := OrderByHeight(Where(rows, From(end)));
    StrictlySorted(rows, s, From(end));
    assert forall r :: r in s <==> r in rows && end <= r.timestamp;
    NonEmptyHasRow(s);
    forall r
      ensures First(s) == Some(r) <==> IsNext(rows, end, r)
    {
      if First(s) == Some(r) {
        assert s[0] in s;
        assert forall q :: q in s ==> s[0].height <= q.height;
      }
      if IsNext(rows, end, r) {
        assert r in s && s[0] in s;
        OneRowAt(rows, r, s[0]);
      }
    }
  }

  /**
    Whatever the archive, Prev is the block just below the height asked for and Next the lowest block
    from the end time on, each with its id, time, height and L1 head, or else all zero. A first block of
    height 1 or 0 has no Prev.
   */
  lemma AnswerNeighbours(rows: seq<Row>, height: uint64, end: int)
    requires Unique(rows) && HeadersFrom(rows, height, end).Some?
    ensures var prev := HeadersFrom(rows, height, end).value.prev;
      && (forall r :: height > 1 && r in rows && r.height == height - 1 ==> Describes(prev, r))
      && ((height <= 1 || forall r :: r in rows ==> r.height != height - 1) ==> prev == BlockInfo("", 0, 0, 0))
    ensures var next := HeadersFrom(rows, height, end).value.next;
      && (forall r :: IsNext(rows, end, r) ==> Describes(next, r))
      && ((forall r :: r in rows ==> r.timestamp < end) ==> next == BlockInfo("", 0, 0, 0))
  {
    var answer := HeadersFrom(rows, height, end).value;
    if height > 1 {
      AtHeightFinds(rows, height - 1);
      forall r | r in rows && r.height == height - 1
        ensures Describes(answer.prev, r)
      {
        DescribedOnce(answer.prev, r);
      }
      var found := AtHeight(rows, height - 1);
      assert found.Some? ==> found.value in rows && found.value.height == height - 1;
    }
    FirstFromIsNext(rows, end);
    forall r | IsNext(rows, end, r)
      ensures Describes(answer.next, r)
    {
      DescribedOnce(answer.next, r);
    }
  }

  // ---------- order of insertion ----------

  lemma NonEmptyHasRow(t: seq<Row>)
    ensures t != [] ==> exists r :: r in t
  {
    if t != [] {
      assert t[0] in t;
    }
  }

  lemma {:induction false} SameRowsSameOrder(s: seq<Row>, t: seq<Row>)
    requires StrictlyIncreasing(s) && StrictlyIncreasing(t)
    requires forall r :: r in s <==> r in t
    ensures s == t
    decreases |s|
  {
    if s == [] {
      NonEmptyHasRow(t);
    } else {
      assert s[0] in s && s[0] in t;
      var q :| 0 <= q < |t| && t[q] == s[0];
      assert t[0] in t && t[0] in s;
      var p :| 0 <= p < |s| && s[p] == t[0];
      assert p == 0 && q == 0;
      forall r
        ensures r in s[1..] <==> r in t[1..]
      {
        assert r in s[1..] ==> r in s && r != s[0];
        assert r in t[1..] ==> r in t && r != t[0];
        assert r in s && r != s[0] ==> r in s[1..];
        assert r in t && r != t[0] ==> r in t[1..];
      }
      SameRowsSameOrder(s[1..], t[1..]);
    }
  }

  lemma AtHeightFinds(rows: seq<Row>, height: uint64)
    requires Unique(rows)
    ensures forall r :: AtHeight(rows, height) == Some(r) <==> r in rows && r.height == height
  {
    var found := Where(rows, HeightIs(height));
    forall r
      ensures First(found) == Some(r) <==> r in rows && r.height == height
    {
      if r in rows && r.height == height {
        assert r in found && found[0] in found;
        OneRowAt(rows, r, found[0]);
      } else {
        assert found != [] ==> found[0] in found;
      }
    }
  }

  lemma OneRowAt(rows: seq<Row>, a: Row, b: Row)
    requires Unique(rows) && a in rows && b in rows && (a.height == b.height || a.blockID == b.blockID)
    ensures a == b
  {
    var i :| 0 <= i < |rows| && rows[i] == a;
    var j :| 0 <= j < |rows| && rows[j] == b;
  }

  lemma SameAtHeight(rows: seq<Row>, rows': seq<Row>, height: uint64)
    requires Unique(rows) && Unique(rows') && forall r :: r in rows <==> r in rows'
    ensures AtHeight(rows, height) == AtHeight(rows', height)
  {
    AtHeightFinds(rows, height);
    AtHeightFinds(rows', height);
    var a, a' := AtHeight(rows, height), AtHeight(rows', height);
    assert a.Some? ==> a == a';
    assert a'.Some? ==> a == a';
  }

  lemma SameFirstFrom(rows: seq<Row>, rows': seq<Row>, end: int)
    requires Unique(rows) && Unique(rows') && forall r :: r in rows <==> r in rows'
    ensures FirstFrom(rows, end) == FirstFrom(rows', end)
  {
    var s, s' := OrderByHeight(Where(rows, From(end))), OrderByHeight(Where(rows', From(end)));
    StrictlySorted(rows, s, From(end));
    StrictlySorted(rows', s', From(end));
    SameRowsSameOrder(s, s');
  }

  lemma SameWindow(rows: seq<Row>, rows': seq<Row>, height: uint64, end: int)
    requires Unique(rows) && Unique(rows') && forall r :: r in rows <==> r in rows'
    ensures Window(rows, height, end) == Window(rows', height, end)
  {
    WindowRows(rows, height, end);
    WindowRows(rows', height, end);
    SameRowsSameOrder(Window(rows, height, end), Window(rows', height, end));
  }

  /** By height, the answer depends only on which blocks are archived, not on the order they came in. */
  lemma OrderIndependent(rows: seq<Row>, rows': seq<Row>, height: uint64, end: int)
    requires Unique(rows) && Unique(rows') && forall r :: r in rows <==> r in rows'
    ensures HeadersFrom(rows, height, end) == HeadersFrom(rows', height, end)
  {
    SameWindow(rows, rows', height, end);
    SameFirstFrom(rows, rows', end);
    if height > 1 {
      SameAtHeight(rows, rows', height - 1);
    }
  }

  // ---------- an archive without gaps ----------

  ghost predicate Monotone(rows: seq<Row>) {
    forall a, b :: a in rows && b in rows && a.height <= b.height ==> a.timestamp <= b.timestamp
  }

  lemma WindowGapFree(rows: seq<Row>, height: uint64, end: int)
    requires Unique(rows) && GapFree(rows) && Monotone(rows)
    ensures GapFree(Window(rows, height, end))
  {
    var s := Window(rows, height, end);
    WindowRows(rows, height, end);
    forall a, b, m {:trigger a in s, b in s, HasHeight(s, m)} | a in s && b in s && a.height < m < b.height
      ensures HasHeight(s, m)
    {
      assert HasHeight(rows, m);
      var c :| c in rows && c.height == m;
      assert c in s;
    }
  }

  /**
    On an archive without gaps whose timestamps do not decrease with height, asking from an archived
    height never fails and returns the blocks from that height, one after the other, up to the end.
   */
  lemma WindowFromArchivedHeight(rows: seq<Row>, first: Row, end: int)
    requires Unique(rows) && GapFree(rows) && Monotone(rows) && first in rows
    ensures HeadersFrom(rows, first.height, end).Some?
    ensures var blocks := HeadersFrom(rows, first.height, end).value.blocks;
      && (blocks != [] <==> first.timestamp < end)
      && (forall i :: 0 <= i < |blocks| ==> blocks[i].height == first.height + i)
      && (forall r :: r in rows ==>
           (first.height <= r.height < first.height + |blocks| <==> first.height <= r.height && r.timestamp < end))
  {
    WindowGapFree(rows, first.height, end);
    FailsIffGap(rows, first.height, end);
    var s := Window(rows, first.height, end);
    WindowRows(rows, first.height, end);
    assert s == [] || s[0] in s;
    if first.timestamp < end {
      assert first in s;
      var p :| 0 <= p < |s| && s[p] == first;
      assert p == 0;
    }
    forall i | 0 <= i < |s|
      ensures s[i].height == first.height + i
    {
      ConsecutiveHeights(s, i);
    }
    forall r | r in rows
      ensures first.height <= r.height < first.height + |s| <==> first.height <= r.height && r.timestamp < end
    {
      if first.height <= r.height < first.height + |s| {
        var t := s[r.height - first.height];
        assert t in s;
        OneRowAt(rows, r, t);
      }
      if first.height <= r.height && r.timestamp < end {
        assert r in s;
        var i :| 0 <= i < |s| && s[i] == r;
      }
    }
  }

  /** The first block from the end time on is the one just after the window, if that is archived. */
  lemma NextIsAdjacent(rows: seq<Row>, first: Row, end: int, n: uint64)
    requires Unique(rows) && GapFree(rows) && Monotone(rows) && first in rows && first.height < n
    requires forall r :: r in rows ==> (first.height <= r.height < n <==> first.height <= r.height && r.timestamp < end)
    ensures FirstFrom(rows, end) == AtHeight(rows, n)
  {
    var s := OrderByHeight(Where(rows, From(end)));
    StrictlySorted(rows, s, From(end));
    assert forall r :: r in s <==> r in rows && end <= r.timestamp;
    AtHeightFinds(rows, n);
    assert HasHeight(rows, n) ==> s != [] && s[0].height <= n by {
      if c :| c in rows && c.height == n {
        assert c in s;
        var i :| 0 <= i < |s| && s[i] == c;
      }
    }
    assert s == [] || s[0] in s;
    assert s != [] ==> n <= s[0].height && (n < s[0].height ==> HasHeight(rows, n));
    assert HasHeight(rows, n) <==> AtHeight(rows, n).Some?;
  }

  /**
    When that answer is not empty, its neighbours are the blocks just before and just after it, where
    archived; a first block of height 1 is given no neighbour before it.
   */
  lemma Neighbours(rows: seq<Row>, first: Row, end: int, n: uint64)
    requires Unique(rows) && GapFree(rows) && Monotone(rows) && first in rows && first.timestamp < end
    requires HeadersFrom(rows, first.height, end).Some?
    requires n == first.height + |HeadersFrom(rows, first.height, end).value.blocks|
    ensures var answer := HeadersFrom(rows, first.height, end).value;
      && (forall r :: first.height > 1 && r in rows && r.height == first.height - 1 ==> Describes(answer.prev, r))
      && (forall r :: r in rows && r.height == n ==> Describes(answer.next, r))
      && ((forall r :: r in rows ==> r.height != n) ==> answer.next == BlockInfo("", 0, 0, 0))
  {
    WindowFromArchivedHeight(rows, first, end);
    AnswerNeighbours(rows, first.height, end);
    NextIsAdjacent(rows, first, end, n);
    FirstFromIsNext(rows, end);
    AtHeightFinds(rows, n);
  }

  // ---------- the three queries agree ----------

  /** For an archived block, asking by its id is asking by its height. */
  lemma ByIDIsByHeight(rows: seq<Row>, r: Row, end: int)
    requires Unique(rows) && r in rows && r.blockID != ""
    ensures HeadersByID(rows, r.blockID, end) == HeadersFrom(rows, r.height, end)
  {
    var found := Where(rows, IDIs(r.blockID));
    assert r in found && found[0] in found;
    OneRowAt(rows, r, found[0]);
  }

  /** Without an id the query fails, and an id that is not archived asks from height 0. */
  lemma ByUnknownID(rows: seq<Row>, id: string, end: int)
    requires forall r :: r in rows ==> r.blockID != id
    ensures HeadersByID(rows, id, end) == if id == "" then None else HeadersFrom(rows, 0, end)
  {
    NonEmptyHasRow(Where(rows, IDIs(id)));
  }

  /** Row i is the earliest of those from the start time on, and of several such the one archived first. */
  ghost predicate IsStart(rows: seq<Row>, start: int, i: int) {
    && 0 <= i < |rows| && start <= rows[i].timestamp
    && forall j :: 0 <= j < |rows| && start <= rows[j].timestamp ==>
         rows[i].timestamp < rows[j].timestamp || (rows[i].timestamp == rows[j].timestamp && i <= j)
  }

  lemma EarliestOfMore(late: seq<Row>, last: Row)
    ensures Earliest(late + [last])
         == if late != [] && Earliest(late).value.timestamp <= last.timestamp then Earliest(late) else Some(last)
  {
    assert (late + [last])[..|late|] == late && (late + [last])[|late|] == last;
  }

  /** One more row, not earlier than what was found before it. */
  lemma StartStays(rest: seq<Row>, last: Row, start: int, first: Row)
    requires Earliest(Where(rest, From(start))) == Some(first)
    requires start <= last.timestamp ==> first.timestamp <= last.timestamp
    ensures Earliest(Where(rest + [last], From(start))) == Some(first)
  {
    var late := Where(rest, From(start));
    assert (rest + [last])[..|rest|] == rest;
    EarliestOfMore(late, last);
    assert late + [] == late;
  }

  /** One more row, earlier than all before it. */
  lemma StartMoves(rest: seq<Row>, last: Row, start: int)
    requires start <= last.timestamp
    requires forall r :: r in rest && start <= r.timestamp ==> last.timestamp < r.timestamp
    ensures Earliest(Where(rest + [last], From(start))) == Some(last)
  {
    var late := Where(rest, From(start));
    assert (rest + [last])[..|rest|] == rest;
    EarliestOfMore(late, last);
    assert late != [] ==> Earliest(late).value in late;
  }

  lemma {:induction false} EarliestIsStart(rows: seq<Row>, start: int, i: nat)
    requires IsStart(rows, start, i)
    ensures Earliest(Where(rows, From(start))) == Some(rows[i])
  {
    var rest, last := rows[..|rows| - 1], rows[|rows| - 1];
    assert rows == rest + [last];
    if i < |rest| {
      EarliestIsStart(rest, start, i);
      StartStays(rest, last, start, rows[i]);
    } else {
      StartMoves(rest, last, start);
    }
  }

  /** Whatever the archive, asking by start time is asking from the height of that row. */
  lemma AfterTimestampStart(rows: seq<Row>, start: int, end: int, i: nat)
    requires IsStart(rows, start, i)
    ensures HeadersAfterTimestamp(rows, start, end) == HeadersFrom(rows, rows[i].height, end)
  {
    EarliestIsStart(rows, start, i);
  }

  /** The start block of the query by time has the lowest height among the blocks of its timestamp. */
  ghost predicate StartsAtLowest(rows: seq<Row>, start: int) {
    match Earliest(Where(rows, From(start)))
    case None => true
    case Some(first) => forall r :: r in rows && r.timestamp == first.timestamp ==> first.height <= r.height
  }

  /** The query by start time fails exactly when nothing is that late; all it returns lies between the two times. */
  lemma AfterTimestampAnswer(rows: seq<Row>, start: int, end: int)
    requires Unique(rows) && GapFree(rows) && Monotone(rows)
    ensures var answer := HeadersAfterTimestamp(rows, start, end);
      && (answer.None? <==> forall r :: r in rows ==> r.timestamp < start)
      && (answer.Some? ==> forall b :: b in answer.value.blocks ==> start <= b.timestamp < end)
  {
    var late := Where(rows, From(start));
    assert forall r :: r in late <==> r in rows && start <= r.timestamp;
    match Earliest(late) {
      case None => NonEmptyHasRow(late);
      case Some(first) =>
        WindowGapFree(rows, first.height, end);
        FailsIffGap(rows, first.height, end);
        AnswerComplete(rows, first.height, end);
        var blocks := HeadersFrom(rows, first.height, end).value.blocks;
        forall b | b in blocks
          ensures start <= b.timestamp < end
        {
          var r :| r in rows && first.height <= r.height && r.timestamp < end && Describes(b, r);
          assert r.timestamp == b.timestamp;
        }
    }
  }

  /** Asked from the row `first`, the answer holds the rows between the two times that are not below it. */
  lemma AnswerFrom(rows: seq<Row>, first: Row, start: int, end: int, r: Row)
    requires Unique(rows) && HeadersFrom(rows, first.height, end).Some?
    requires r in rows && start <= r.timestamp < end
    ensures Holds(HeadersFrom(rows, first.height, end).value.blocks, r) <==> first.height <= r.height
  {
    AnswerComplete(rows, first.height, end);
    var blocks := HeadersFrom(rows, first.height, end).value.blocks;
    if b :| b in blocks && Describes(b, r) {
      var q :| q in rows && first.height <= q.height && q.timestamp < end && Describes(b, q);
    }
  }

  /**
    On an archive without gaps whose timestamps do not decrease, the query by start time misses no
    block between the two times if and only if it starts at the lowest block of its timestamp.
   */
  lemma AfterTimestampComplete(rows: seq<Row>, start: int, end: int, i: nat)
    requires Unique(rows) && GapFree(rows) && Monotone(rows)
    requires IsStart(rows, start, i) && rows[i].timestamp < end
    ensures HeadersAfterTimestamp(rows, start, end).Some?
    ensures StartsAtLowest(rows, start) <==>
      forall r :: r in rows && start <= r.timestamp < end ==>
        Holds(HeadersAfterTimestamp(rows, start, end).value.blocks, r)
  {
    var late, first := Where(rows, From(start)), rows[i];
    EarliestIsStart(rows, start, i);
    assert first in late;
    WindowGapFree(rows, first.height, end);
    FailsIffGap(rows, first.height, end);
    if StartsAtLowest(rows, start) {
      forall r | r in rows && start <= r.timestamp < end
        ensures Holds(HeadersFrom(rows, first.height, end).value.blocks, r)
      {
        assert r in late;
        AnswerFrom(rows, first, start, end, r);
      }
    } else {
      var r :| r in rows && r.timestamp == first.timestamp && r.height < first.height;
      AnswerFrom(rows, first, start, end, r);
    }
  }

  ghost predicate StrictlyMonotone(rows: seq<Row>) {
    forall a, b :: a in rows && b in rows && a.height < b.height ==> a.timestamp < b.timestamp
  }

  /** With timestamps that increase strictly, it always starts at the lowest block. */
  lemma StrictTimesStartLowest(rows: seq<Row>, start: int)
    requires Unique(rows) && StrictlyMonotone(rows)
    ensures StartsAtLowest(rows, start)
  {
    var first := Earliest(Where(rows, From(start)));
    if first.Some? {
      assert first.value in Where(rows, From(start));
    }
  }

  lemma TwoRows(upper: Row, lower: Row)
    requires upper.height == lower.height + 1 && upper.timestamp == lower.timestamp && upper.blockID != lower.blockID
    ensures Unique([upper, lower]) && GapFree([upper, lower]) && Monotone([upper, lower])
  {
  }

  /** Two blocks of the same time, archived in reverse order: the query by start time leaves out the lower one. */
  lemma TiedTimesMissABlock() returns (rows: seq<Row>, lower: Row)
    ensures Unique(rows) && GapFree(rows) && Monotone(rows) && lower in rows
    ensures var answer := HeadersAfterTimestamp(rows, lower.timestamp, lower.timestamp + 1);
      answer.Some? && !Holds(answer.value.blocks, lower)
  {
    var upper := Row("b", 10, 2, 0);
    lower := Row("a", 10, 1, 0);
    rows := [upper, lower];
    TwoRows(upper, lower);
    EarliestIsStart(rows, 10, 0);
    AfterTimestampComplete(rows, 10, 11, 0);
    AnswerComplete(rows, 2, 11);
  }
}
