/** The usage log's size cap (internal/usage/usage.go). */
module Usage {

  const PRUNE_BATCH := 500
  const DEFAULT_MAX_BYTES := 0x4000_0000

  /** Rows by id, each with its stored timestamp text. */
  type Rows = map<nat, string>

  // ---------------------------------------------------------------------
  // Text order
  // ---------------------------------------------------------------------

  /** SQLite's order on text. */
  predicate TextLe(a: string, b: string) {
    a == "" || (b != "" && (a[0] < b[0] || (a[0] == b[0] && TextLe(a[1..], b[1..]))))
  }

  lemma {:induction false} TextTotal(a: string, b: string)
    ensures TextLe(a, b) || TextLe(b, a)
  {
    if a != "" && b != "" && a[0] == b[0] { TextTotal(a[1..], b[1..]); }
  }

  lemma {:induction false} TextTransitive(a: string, b: string, c: string)
    requires TextLe(a, b) && TextLe(b, c)
    ensures TextLe(a, c)
  {
    if a != "" && b != "" && c != "" && a[0] == b[0] == c[0] { TextTransitive(a[1..], b[1..], c[1..]); }
  }

  lemma {:induction false} SomeOldest(rows: Rows, among: set<nat>) returns (id: nat)
    requires among != {} && among <= rows.Keys
    ensures id in among && forall k :: k in among ==> TextLe(rows[id], rows[k])
    decreases |among|
  {
    hide TextLe;
    var x :| x in among;
    TextTotal(rows[x], rows[x]);
    if among == {x} {
      id := x;
    } else {
      var y := SomeOldest(rows, among - {x});
      TextTotal(rows[x], rows[y]);
      id := if TextLe(rows[x], rows[y]) then x else y;
      forall k | k in among ensures TextLe(rows[id], rows[k]) {
        if k != x && id == x { TextTransitive(rows[x], rows[y], rows[k]); }
      }
    }
  }

  /** after is before without some rows that are, in text order, no later than any
      row it keeps: a prefix of the rows in timestamp order, ties falling anywhere. */
  ghost predicate KeepsNewest(before: Rows, after: Rows) {
    && (forall k :: k in after ==> k in before && before[k] == after[k])
    && (forall d, k :: d in before && d !in after && k in after ==> TextLe(before[d], before[k]))
  }

  lemma KeepsNewestTwice(a: Rows, b: Rows, c: Rows)
    requires KeepsNewest(a, b) && KeepsNewest(b, c)
    ensures KeepsNewest(a, c)
  {
  }

  // ---------------------------------------------------------------------
  // How many rows a pass deletes
  // ---------------------------------------------------------------------

  function ToDelete(size: nat, maxBytes: nat, count: nat): (d: nat)
    requires size > maxBytes && count > 0
    ensures 1 <= d <= count && d <= PRUNE_BATCH
  {
    var overage := size - maxBytes;
    var avg := if size / count <= 0 then 1 else size / count;
    var d := overage / avg + 1;
    var d := if d > PRUNE_BATCH then PRUNE_BATCH else d;
    if d > count then count else d
  }

  lemma Quotient(x: nat, d: nat)
    requires d > 0
    ensures x / d * d <= x < (x / d + 1) * d
  {
  }

  lemma Shorter(a: nat, b: nat, d: nat)
    requires a <= b
    ensures a * d <= b * d
  {
  }

  /** What the file size turns out to be at each pass. */
  type Readings = nat -> nat

  /** How many rows a run without errors deletes, from a pass on. */
  function Deleted(sizes: Readings, maxBytes: nat, count: nat, pass: nat): (d: nat)
    ensures d <= count
    decreases count
  {
    if sizes(pass) <= maxBytes || count == 0 then 0
    else
      var d := ToDelete(sizes(pass), maxBytes, count);
      d + Deleted(sizes, maxBytes, count - d, pass + 1)
  }

  lemma DeletedStep(sizes: Readings, maxBytes: nat, count: nat, pass: nat)
    ensures if sizes(pass) <= maxBytes || count == 0 then Deleted(sizes, maxBytes, count, pass) == 0
            else var d := ToDelete(sizes(pass), maxBytes, count);
                 Deleted(sizes, maxBytes, count, pass) == d + Deleted(sizes, maxBytes, count - d, pass + 1)
  {
  }

  function EffectiveCap(maxBytes: int): nat {
    if maxBytes <= 0 then DEFAULT_MAX_BYTES else maxBytes
  }

  class Store {
    var entries: Rows

    constructor (rows: Rows)
      ensures entries == rows
    {
      entries := rows;
    }

    /** Delete the n rows with the least timestamp text, ties in any order. */
    method DeleteOldest(n: nat) returns (deleted: nat)
      requires n <= |entries|
      modifies this
      ensures deleted == n && |entries| == |old(entries)| - n
      ensures KeepsNewest(old(entries), entries)
    {
      hide TextLe;
      deleted := 0;
      while deleted < n
        invariant deleted <= n && |entries| == |old(entries)| - deleted
        invariant KeepsNewest(old(entries), entries)
      {
        var _ := SomeOldest(entries, entries.Keys);
        var id: nat :| id in entries && forall k :: k in entries ==> TextLe(entries[id], entries[k]);
        ghost var before := entries;
        entries := entries - {id};
        assert before.Keys == entries.Keys + {id};
        assert KeepsNewest(before, entries);
        KeepsNewestTwice(old(entries), before, entries);
        deleted := deleted + 1;
      }
    }

    /** How many rows this pass deletes, from the average row size so far: the least
        number whose average size exceeds the overage, or fewer when that is more than
        500 or more than there are. */
    method Estimate(size: nat, maxBytes: nat, count: nat) returns (toDelete: nat)
      requires size > maxBytes && count > 0
      ensures toDelete == ToDelete(size, maxBytes, count)
      ensures 1 <= toDelete <= 500 && toDelete <= count
      ensures var avg := if size / count < 1 then 1 else size / count;
              && (toDelete - 1) * avg <= size - maxBytes
              && (toDelete < 500 && toDelete < count ==> size - maxBytes < toDelete * avg)
    {
      var overage := size - maxBytes;
      var avg := size / count;
      if avg <= 0 { avg := 1; }
      toDelete := overage / avg + 1;
      ghost var enough := overage / avg;
      Quotient(overage, avg);
      if toDelete > PRUNE_BATCH { toDelete := PRUNE_BATCH; }
      if toDelete > count { toDelete := count; }
      Shorter(toDelete - 1, enough, avg);
    }

    /** Prune: sizes says what the file size is at each pass; a pass in failsBefore
        fails reading or deleting, one in failsAfter fails reclaiming. */
    method Prune(maxBytes: int, sizes: Readings, failsBefore: set<nat>, failsAfter: set<nat>)
      returns (total: nat, ok: bool, passes: nat)
      modifies this
      ensures KeepsNewest(old(entries), entries) && total == |old(entries)| - |entries|
      ensures ok ==> sizes(passes) <= EffectiveCap(maxBytes) || |entries| == 0
      ensures ok && |entries| > 0 ==> sizes(passes) <= if maxBytes <= 0 then 1073741824 else maxBytes
      ensures ok ==> total == Deleted(sizes, if maxBytes <= 0 then 1073741824 else maxBytes, |old(entries)|, 0)
      ensures !ok ==> passes in failsBefore || passes in failsAfter
    {
      hide ToDelete, KeepsNewest, Deleted;
      var cap := maxBytes;
      if cap <= 0 { cap := DEFAULT_MAX_BYTES; }
      total, passes := 0, 0;
      KeepsAll(entries);
      while true
        invariant KeepsNewest(old(entries), entries) && total == |old(entries)| - |entries|
        invariant total + Deleted(sizes, cap, |entries|, passes) == Deleted(sizes, cap, |old(entries)|, 0)
        decreases |entries|
      {
        DeletedStep(sizes, cap, |entries|, passes);
        if passes in failsBefore { return total, false, passes; }
        var size := sizes(passes);
        if size <= cap { return total, true, passes; }
        var count := |entries|;
        if count == 0 { return total, true, passes; }
        var toDelete := Estimate(size, cap, count);
        ghost var before := entries;
        var deleted := DeleteOldest(toDelete);
        KeepsNewestTwice(old(entries), before, entries);
        total := total + deleted;
        if passes in failsAfter { return total, false, passes; }
        passes := passes + 1;
      }
    }
  }

  lemma KeepsAll(rows: Rows)
    ensures KeepsNewest(rows, rows)
  {
  }

  // ---------------------------------------------------------------------
  // Overshoot
  // ---------------------------------------------------------------------

  /** Every reading of a run is base bytes plus r for each row still there. */
  ghost predicate Linear(sizes: Readings, maxBytes: nat, base: nat, r: nat, count: nat, pass: nat)
    decreases count
  {
    && sizes(pass) == base + r * count
    && (sizes(pass) > maxBytes && count > 0 ==>
          Linear(sizes, maxBytes, base, r, count - ToDelete(sizes(pass), maxBytes, count), pass + 1))
  }

  /** The least number of rows whose deletion brings the file under the cap. */
  ghost predicate Least(base: nat, r: nat, count: nat, maxBytes: nat, m: nat) {
    && m <= count && base + r * (count - m) <= maxBytes
    && (m > 0 ==> base + r * (count - m + 1) > maxBytes)
  }

  lemma Cancel(a: nat, b: int, c: int)
    requires a > 0 && a * b < a * c
    ensures b < c
  {
    assert a * (c - b) > 0;
  }

  lemma DivideBound(x: nat, avg: nat, r: nat, m: nat)
    requires 0 < r <= avg && x <= r * m
    ensures x / avg <= m
  {
    var q := x / avg;
    assert avg * q <= x;
    assert r * m <= avg * m;
    assert avg * q < avg * (m + 1);
    Cancel(avg, q, m + 1);
  }

  lemma AverageBound(base: nat, r: nat, count: nat)
    requires count > 0
    ensures (base + r * count) / count >= r
  {
    var n := base + r * count;
    var q := n / count;
    assert n < count * (q + 1);
    assert count * r < count * (q + 1);
    Cancel(count, r, q + 1);
  }

  /** One pass takes at most one row more than are needed. */
  lemma PassBound(base: nat, r: nat, count: nat, maxBytes: nat, m: nat)
    requires Least(base, r, count, maxBytes, m) && base + r * count > maxBytes && count > 0
    ensures ToDelete(base + r * count, maxBytes, count) <= m + 1 && m > 0 && r > 0
  {
    var size := base + r * count;
    var overage := size - maxBytes;
    assert r * (count - m) == r * count - r * m;
    assert overage <= r * m;
    assert r > 0;
    AverageBound(base, r, count);
    DivideBound(overage, size / count, r, m);
  }

  lemma Scale(r: nat, a: int, b: int)
    requires a <= b
    ensures r * a <= r * b
  {
  }

  lemma EnoughAlready(base: nat, r: nat, count: nat, maxBytes: nat, m: nat)
    requires Least(base, r, count, maxBytes, m) && base + r * count <= maxBytes
    ensures m == 0
  {
    if m > 0 { Scale(r, count - m + 1, count); }
  }

  /** When even an empty log is over the cap, a run deletes every row. */
  lemma {:induction false} HopelessCapDeletesAll(sizes: Readings, maxBytes: nat, base: nat, r: nat, count: nat, pass: nat)
    requires Linear(sizes, maxBytes, base, r, count, pass) && base > maxBytes
    ensures Deleted(sizes, maxBytes, count, pass) == count
    decreases count
  {
    hide ToDelete;
    assert r * count >= 0;
    if count > 0 {
      HopelessCapDeletesAll(sizes, maxBytes, base, r, count - ToDelete(sizes(pass), maxBytes, count), pass + 1);
    }
  }

  // ---------------------------------------------------------------------
  // When the extra row goes
  // ---------------------------------------------------------------------

  /** Deleting m of count rows brings the file to the cap exactly, m is not all of them
      and not a whole number of batches, and when the last pass comes to them the log
      still holds more rows than the fixed part of the file holds bytes. */
  predicate Extra(base: nat, r: nat, count: nat, maxBytes: nat, m: nat) {
    && m < count && base + r * (count - m) == maxBytes
    && m % PRUNE_BATCH != 0 && base < count - m + m % PRUNE_BATCH
  }

  /** The estimate is not rounded down anywhere. */
  predicate Exact(base: nat, r: nat, count: nat, maxBytes: nat, m: nat)
    requires m <= count
  {
    base + r * (count - m) == maxBytes && base < count
  }

  lemma DivideBelow(x: nat, avg: nat, m: nat)
    requires avg > 0 && x < avg * m
    ensures x / avg < m
  {
    assert avg * (x / avg) <= x;
    Cancel(avg, x / avg, m);
  }

  lemma DivideWhole(x: nat, avg: nat, m: nat)
    requires avg > 0 && avg * m <= x < avg * (m + 1)
    ensures x / avg == m
  {
    var q := x / avg;
    assert avg * q <= x < avg * (q + 1);
    Cancel(avg, q, m + 1);
    Cancel(avg, m, q + 1);
  }

  lemma AverageIs(base: nat, r: nat, count: nat)
    requires count > 0
    ensures base < count ==> (base + r * count) / count == r
    ensures base >= count ==> (base + r * count) / count >= r + 1
  {
    var n := base + r * count;
    assert count * r == r * count && count * (r + 1) == r * count + count;
    if base < count {
      DivideWhole(n, count, r);
    } else {
      var q := n / count;
      assert n < count * (q + 1);
      Cancel(count, r + 1, q + 1);
    }
  }

  lemma ExactEstimate(r: nat, m: nat, overage: nat)
    requires r > 0 && overage == r * m
    ensures overage / r == m
  {
    assert r * (m + 1) == r * m + r;
    DivideWhole(overage, r, m);
  }

  lemma LooseEstimate(r: nat, m: nat, overage: nat, avg: nat)
    requires m > 0 && overage <= r * m && avg >= r && (overage == r * m ==> avg > r) && avg > 0
    ensures overage / avg < m
  {
    var more := avg - r;
    assert avg * m == r * m + more * m;
    assert more > 0 ==> more * m > 0;
    DivideBelow(overage, avg, m);
  }

  /** An exact estimate asks for one row more than are needed; any other for no more
      than are needed. */
  lemma PassIs(base: nat, r: nat, count: nat, maxBytes: nat, m: nat)
    requires Least(base, r, count, maxBytes, m) && base + r * count > maxBytes && count > 0
    ensures m > 0
    ensures var d := ToDelete(base + r * count, maxBytes, count);
            if Exact(base, r, count, maxBytes, m)
            then d == if m >= PRUNE_BATCH then PRUNE_BATCH else if m < count then m + 1 else m
            else d <= m
  {
    hide ToDelete;
    PassBound(base, r, count, maxBytes, m);
    AverageIs(base, r, count);
    AverageBound(base, r, count);
    assert r * (count - m) == r * count - r * m;
    Estimated(base + r * count, maxBytes, count, r, m, Exact(base, r, count, maxBytes, m));
  }

  lemma Estimated(size: nat, maxBytes: nat, count: nat, r: nat, m: nat, exact: bool)
    requires size > maxBytes && count > 0 && 0 < m <= count && r > 0
    requires size - maxBytes <= r * m && size / count >= r
    requires exact <==> size - maxBytes == r * m && size / count == r
    ensures var d := ToDelete(size, maxBytes, count);
            if exact then d == if m >= PRUNE_BATCH then PRUNE_BATCH else if m < count then m + 1 else m
            else d <= m
  {
    if exact { ExactEstimate(r, m, size - maxBytes); } else { LooseEstimate(r, m, size - maxBytes, size / count); }
  }

  /** After a pass of d rows the rest of the run meets the same condition. */
  lemma ExtraCarries(base: nat, r: nat, count: nat, maxBytes: nat, m: nat, d: nat)
    requires d <= m <= count
    requires Exact(base, r, count, maxBytes, m) ==> d == PRUNE_BATCH
    ensures Extra(base, r, count, maxBytes, m) <==> Extra(base, r, count - d, maxBytes, m - d)
  {
    assert count - d - (m - d) == count - m;
  }

  /** When every row costs the same, exactly how many rows a run deletes: the least
      number that suffices, and one more if and only if Extra holds of the log it finds. */
  lemma {:induction false} OvershootIff(sizes: Readings, maxBytes: nat, base: nat, r: nat, count: nat, pass: nat, m: nat)
    requires Linear(sizes, maxBytes, base, r, count, pass) && Least(base, r, count, maxBytes, m)
    ensures Deleted(sizes, maxBytes, count, pass) == m + if Extra(base, r, count, maxBytes, m) then 1 else 0
    decreases count
  {
    hide ToDelete;
    if sizes(pass) <= maxBytes {
      EnoughAlready(base, r, count, maxBytes, m);
    } else if count > 0 {
      PassIs(base, r, count, maxBytes, m);
      var d := ToDelete(sizes(pass), maxBytes, count);
      if d <= m {
        assert count - d - (m - d) == count - m;
        OvershootIff(sizes, maxBytes, base, r, count - d, pass + 1, m - d);
        if !Exact(base, r, count, maxBytes, m) || d == PRUNE_BATCH {
          ExtraCarries(base, r, count, maxBytes, m, d);
        }
      } else {
        Scale(r, count - d, count - m);
      }
    }
  }

  /** When every row costs the same, a run deletes the least number of rows that
      suffices, or one row more. */
  lemma OvershootAtMostOne(sizes: Readings, maxBytes: nat, base: nat, r: nat, count: nat, pass: nat, m: nat)
    requires Linear(sizes, maxBytes, base, r, count, pass) && Least(base, r, count, maxBytes, m)
    ensures m <= Deleted(sizes, maxBytes, count, pass) <= m + 1
  {
    OvershootIff(sizes, maxBytes, base, r, count, pass, m);
  }

  /** The one row too many does occur: ten rows of ten bytes under a cap of ninety
      lose two rows where one would do. */
  lemma OneRowTooMany()
    ensures Least(0, 10, 10, 90, 1)
    ensures Deleted((pass: nat) => if pass == 0 then 100 else 80, 90, 10, 0) == 2
  {
  }
}
