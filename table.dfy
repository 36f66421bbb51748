/** Queries over a store table held as a map from primary key to row: the exact-match scan in
    primary-key order, GORM's Offset/Limit window, and the purge of soft-deleted rows. */
module Table {

  /** Ids in [0, hi) of the rows that satisfy `keep`, ascending: the order the store returns rows in. */
  function ScanIds<R>(rows: map<int, R>, keep: R -> bool, hi: int): (ids: seq<int>)
    decreases hi
    ensures forall i, j :: 0 <= i < j < |ids| ==> ids[i] < ids[j]
    ensures forall i :: 0 <= i < |ids| ==> 0 <= ids[i] < hi && ids[i] in rows && keep(rows[ids[i]])
    ensures forall id :: 0 <= id < hi && id in rows && keep(rows[id]) ==> id in ids
  {
    if hi <= 0 then []
    else
      var front := ScanIds(rows, keep, hi - 1);
      if hi - 1 in rows && keep(rows[hi - 1]) then front + [hi - 1] else front
  }

  /** The set of ids in [0, hi) whose rows satisfy `keep`. */
  ghost function MatchingIds<R>(rows: map<int, R>, keep: R -> bool, hi: int): set<int>
  {
    set id | id in rows && 0 <= id < hi && keep(rows[id])
  }

  /** The scan returns each matching row once: its length is the number of matching rows. */
  lemma {:induction false} ScanIdsCount<R>(rows: map<int, R>, keep: R -> bool, hi: int)
    ensures |ScanIds(rows, keep, hi)| == |MatchingIds(rows, keep, hi)|
    decreases hi
  {
    if hi <= 0 {
      assert MatchingIds(rows, keep, hi) == {};
    } else {
      ScanIdsCount(rows, keep, hi - 1);
      var front := MatchingIds(rows, keep, hi - 1);
      if hi - 1 in rows && keep(rows[hi - 1]) {
        assert |ScanIds(rows, keep, hi)| == |ScanIds(rows, keep, hi - 1)| + 1;
        assert hi - 1 !in front;
        assert MatchingIds(rows, keep, hi) == front + {hi - 1};
      } else {
        assert ScanIds(rows, keep, hi) == ScanIds(rows, keep, hi - 1);
        assert MatchingIds(rows, keep, hi) == front;
      }
    }
  }

  /** The rows with the given ids, in the order of the ids. */
  function Select<R>(rows: map<int, R>, ids: seq<int>): (s: seq<R>)
    requires forall i :: 0 <= i < |ids| ==> ids[i] in rows
    ensures |s| == |ids|
    ensures forall i :: 0 <= i < |s| ==> s[i] == rows[ids[i]]
  {
    seq(|ids|, i requires 0 <= i < |ids| => rows[ids[i]])
  }

  /** Every matching row in [0, hi) is among the rows the scan selects. */
  lemma ScanFinds<R>(rows: map<int, R>, keep: R -> bool, hi: int, id: int)
    requires 0 <= id < hi && id in rows && keep(rows[id])
    ensures rows[id] in Select(rows, ScanIds(rows, keep, hi))
  {
    var ids := ScanIds(rows, keep, hi);
    var i :| 0 <= i < |ids| && ids[i] == id;
    assert Select(rows, ids)[i] == rows[id];
  }

  function Min(a: int, b: int): int
  {
    if a <= b then a else b
  }

  /** Where a window with this offset starts in a list of n rows: GORM emits OFFSET only when it is positive. */
  function Start(n: nat, offset: int): (k: nat)
    ensures k <= n
    ensures offset <= 0 ==> k == 0
    ensures 0 < offset ==> k == Min(offset, n)
  {
    if offset <= 0 then 0 else if offset < n then offset else n
  }

  /** `.Offset(offset).Limit(limit)`: skip `offset` rows, then keep at most `limit` rows; a negative
      limit keeps every remaining row. */
  function Window<T>(s: seq<T>, offset: int, limit: int): (w: seq<T>)
    ensures Start(|s|, offset) + |w| <= |s|
    ensures forall i :: 0 <= i < |w| ==> w[i] == s[Start(|s|, offset) + i]
    ensures 0 <= limit ==> |w| == Min(limit, |s| - Start(|s|, offset))
    ensures limit < 0 ==> |w| == |s| - Start(|s|, offset)
  {
    var start := Start(|s|, offset);
    s[start..if 0 <= limit < |s| - start then start + limit else |s|]
  }

  /** A window holds only rows of the list it is taken from. */
  lemma WindowElements<T>(s: seq<T>, offset: int, limit: int)
    ensures forall x :: x in Window(s, offset, limit) ==> x in s
  {
    var w := Window(s, offset, limit);
    forall x | x in w ensures x in s {
      var i :| 0 <= i < |w| && w[i] == x;
      assert s[Start(|s|, offset) + i] == x;
    }
  }

  /** Two consecutive windows cover exactly the window as long as both together. */
  lemma WindowsTile<T>(s: seq<T>, offset: int, n1: nat, n2: nat)
    requires 0 <= offset
    ensures Window(s, offset, n1) + Window(s, offset + n1, n2) == Window(s, offset, n1 + n2)
  {
    var w1, w2, w := Window(s, offset, n1), Window(s, offset + n1, n2), Window(s, offset, n1 + n2);
    var a, b := Start(|s|, offset), Start(|s|, offset + n1);
    assert b == a + |w1|;
    assert |w1| + |w2| == |w|;
    forall i | 0 <= i < |w| ensures (w1 + w2)[i] == w[i] {
      if |w1| <= i {
        assert w2[i - |w1|] == s[b + (i - |w1|)];
      }
    }
    assert w1 + w2 == w;
  }

  /** The rows `Unscoped().Where("deleted_on != ?", 0).Delete` leaves: those whose marker is zero. */
  function Purge<R>(rows: map<int, R>, deletedOn: R -> int): (kept: map<int, R>)
    ensures forall id :: id in kept <==> id in rows && deletedOn(rows[id]) == 0
    ensures forall id :: id in kept ==> kept[id] == rows[id]
  {
    map id | id in rows && deletedOn(rows[id]) == 0 :: rows[id]
  }

  /** Purging twice removes nothing more. */
  lemma PurgeIdempotent<R>(rows: map<int, R>, deletedOn: R -> int)
    ensures Purge(Purge(rows, deletedOn), deletedOn) == Purge(rows, deletedOn)
  {
    var once := Purge(rows, deletedOn);
    assert forall id :: id in Purge(once, deletedOn) <==> id in once;
  }

  /** When no row carries a deletion marker, purging removes nothing. */
  lemma PurgeKeepsLiveRows<R>(rows: map<int, R>, deletedOn: R -> int)
    requires forall id :: id in rows ==> deletedOn(rows[id]) == 0
    ensures Purge(rows, deletedOn) == rows
  {
    assert forall id :: id in Purge(rows, deletedOn) <==> id in rows;
  }
}
