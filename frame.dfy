/**
 * The table iptrap-analyze.py builds from the parsed log (the pandas
 * DataFrame of lines 89-91) and the two table operations it applies:
 * drop_duplicates on the (date, ip) key, keeping the first row of each key,
 * and groupby("date").size(), the number of rows per date with the dates in
 * ascending string order.
 */
module Frame {

  /** One parsed log line: the date, the peer address, the family tag and the port, all as text. */
  datatype Row = Row(date: string, ip: string, protocol: string, port: string)

  /** The (date, ip) pair drop_duplicates compares. */
  function Key(r: Row): (string, string) {
    (r.date, r.ip)
  }

  /** The keys of the rows. */
  function KeySet(rows: seq<Row>): set<(string, string)> {
    if rows == [] then {} else KeySet(rows[..|rows| - 1]) + {Key(rows[|rows| - 1])}
  }

  lemma {:induction false} KeySetMembers(rows: seq<Row>, k: (string, string))
    ensures k in KeySet(rows) <==> exists i :: 0 <= i < |rows| && Key(rows[i]) == k
    decreases |rows|
  {
    if rows != [] {
      var init := rows[..|rows| - 1];
      KeySetMembers(init, k);
      if exists i :: 0 <= i < |rows| && Key(rows[i]) == k {
        var i :| 0 <= i < |rows| && Key(rows[i]) == k;
        if i < |init| {
          assert Key(init[i]) == k;
        }
      }
      if exists i :: 0 <= i < |init| && Key(init[i]) == k {
        var i :| 0 <= i < |init| && Key(init[i]) == k;
        assert Key(rows[i]) == k;
      }
    }
  }

  // ----- drop_duplicates(subset=["date", "ip"]) ------------------------------

  /** The rows without those whose (date, ip) key an earlier row already has. */
  function Dedup(rows: seq<Row>): (kept: seq<Row>)
    ensures |kept| <= |rows|
  {
    if rows == [] then []
    else
      var kept := Dedup(rows[..|rows| - 1]);
      var last := rows[|rows| - 1];
      if Key(last) in KeySet(rows[..|rows| - 1]) then kept else kept + [last]
  }

  /** Row `i` is the first with its key. */
  predicate IsFirst(rows: seq<Row>, i: int)
    requires 0 <= i < |rows|
  {
    forall j :: 0 <= j < i ==> Key(rows[j]) != Key(rows[i])
  }

  /** Every key of the input is kept, and no other. */
  lemma {:induction false} DedupKeys(rows: seq<Row>)
    ensures KeySet(Dedup(rows)) == KeySet(rows)
    decreases |rows|
  {
    if rows != [] {
      var init := rows[..|rows| - 1];
      DedupKeys(init);
      var kept := Dedup(init);
      var last := rows[|rows| - 1];
      if Key(last) !in KeySet(init) {
        assert (kept + [last])[..|kept + [last]| - 1] == kept;
      }
    }
  }

  /** No two kept rows share a key. */
  lemma {:induction false} DedupDistinct(rows: seq<Row>)
    ensures var kept := Dedup(rows);
      forall i, j :: 0 <= i < j < |kept| ==> Key(kept[i]) != Key(kept[j])
    decreases |rows|
  {
    if rows != [] {
      var init := rows[..|rows| - 1];
      DedupDistinct(init);
      DedupKeys(init);
      var kept := Dedup(init);
      var last := rows[|rows| - 1];
      if Key(last) !in KeySet(init) {
        forall i | 0 <= i < |kept| ensures Key(kept[i]) != Key(last) {
          KeySetMembers(kept, Key(kept[i]));
        }
      }
    }
  }

  /** The input positions of the kept rows, in input order. */
  ghost function KeptIndices(rows: seq<Row>): (idx: seq<nat>)
    ensures |idx| <= |rows|
    decreases |rows|
  {
    if rows == [] then []
    else
      var prev := KeptIndices(rows[..|rows| - 1]);
      if Key(rows[|rows| - 1]) in KeySet(rows[..|rows| - 1]) then prev else prev + [|rows| - 1]
  }

  /** The kept positions are positions of the input, in ascending order. */
  lemma {:induction false} KeptIndicesAscending(rows: seq<Row>)
    ensures forall k :: 0 <= k < |KeptIndices(rows)| ==> KeptIndices(rows)[k] < |rows|
    ensures forall k, l :: 0 <= k < l < |KeptIndices(rows)| ==> KeptIndices(rows)[k] < KeptIndices(rows)[l]
    decreases |rows|
  {
    if rows != [] {
      var init := rows[..|rows| - 1];
      KeptIndicesAscending(init);
      if Key(rows[|rows| - 1]) in KeySet(init) {
        assert KeptIndices(rows) == KeptIndices(init);
      } else {
        assert KeptIndices(rows) == KeptIndices(init) + [|rows| - 1];
      }
    }
  }

  /** The kept rows are the rows at the kept positions, and those positions ascend. */
  lemma {:induction false} DedupAtIndices(rows: seq<Row>)
    ensures |KeptIndices(rows)| == |Dedup(rows)|
    ensures forall k :: 0 <= k < |KeptIndices(rows)| ==>
      KeptIndices(rows)[k] < |rows| && Dedup(rows)[k] == rows[KeptIndices(rows)[k]]
    ensures forall k, l :: 0 <= k < l < |KeptIndices(rows)| ==> KeptIndices(rows)[k] < KeptIndices(rows)[l]
    decreases |rows|
  {
    KeptIndicesAscending(rows);
    if rows != [] {
      var init := rows[..|rows| - 1];
      DedupAtIndices(init);
      var prev := KeptIndices(init);
      var kept := Dedup(init);
      var last := rows[|rows| - 1];
      if Key(last) in KeySet(init) {
        assert Dedup(rows) == kept && KeptIndices(rows) == prev;
        forall k | 0 <= k < |prev| ensures kept[k] == rows[prev[k]] {
          assert kept[k] == init[prev[k]];
        }
      } else {
        assert Dedup(rows) == kept + [last] && KeptIndices(rows) == prev + [|rows| - 1];
        forall k | 0 <= k < |prev| ensures (kept + [last])[k] == rows[prev[k]] {
          assert kept[k] == init[prev[k]];
        }
      }
    }
  }

  /** Every kept position holds the first row with its key. */
  lemma {:induction false} KeptAreFirst(rows: seq<Row>)
    ensures forall k :: 0 <= k < |KeptIndices(rows)| ==> KeptIndices(rows)[k] < |rows| && IsFirst(rows, KeptIndices(rows)[k])
    decreases |rows|
  {
    KeptIndicesAscending(rows);
    if rows != [] {
      var init := rows[..|rows| - 1];
      var n := |rows| - 1;
      var prev := KeptIndices(init);
      KeptAreFirst(init);
      forall k | 0 <= k < |prev| ensures IsFirst(rows, prev[k]) {
        assert IsFirst(init, prev[k]);
      }
      if Key(rows[n]) in KeySet(init) {
        assert KeptIndices(rows) == prev;
      } else {
        KeySetMembers(init, Key(rows[n]));
        assert KeptIndices(rows) == prev + [n];
        assert IsFirst(rows, n);
      }
    }
  }

  /** Every position holding the first row with its key is kept. */
  lemma {:induction false} FirstAreKept(rows: seq<Row>)
    ensures forall i :: 0 <= i < |rows| && IsFirst(rows, i) ==> i in KeptIndices(rows)
    decreases |rows|
  {
    if rows != [] {
      var init := rows[..|rows| - 1];
      var n := |rows| - 1;
      var prev := KeptIndices(init);
      FirstAreKept(init);
      forall i | 0 <= i < n && IsFirst(rows, i) ensures i in prev {
        assert IsFirst(init, i);
      }
      if Key(rows[n]) in KeySet(init) {
        KeySetMembers(init, Key(rows[n]));
        assert KeptIndices(rows) == prev;
        assert !IsFirst(rows, n);
      } else {
        assert KeptIndices(rows) == prev + [n];
      }
    }
  }

  /**
   * drop_duplicates keeps exactly the first row of each key: every kept
   * position holds the first row with its key, and every such first row is
   * kept.
   */
  lemma DedupFirstOccurrences(rows: seq<Row>)
    ensures forall k :: 0 <= k < |KeptIndices(rows)| ==> KeptIndices(rows)[k] < |rows| && IsFirst(rows, KeptIndices(rows)[k])
    ensures forall i :: 0 <= i < |rows| && IsFirst(rows, i) ==> i in KeptIndices(rows)
  {
    KeptAreFirst(rows);
    FirstAreKept(rows);
  }

  // ----- groupby("date").size() ---------------------------------------------

  /** Python's `<` on str: code point by code point, a proper prefix first. */
  predicate LexLess(a: string, b: string) {
    if a == [] then b != []
    else if b == [] then false
    else if a[0] != b[0] then a[0] < b[0]
    else LexLess(a[1..], b[1..])
  }

  lemma {:induction false} LexLessIrreflexive(a: string)
    ensures !LexLess(a, a)
  {
    if a != [] {
      LexLessIrreflexive(a[1..]);
    }
  }

  lemma {:induction false} LexLessTotal(a: string, b: string)
    ensures a == b || LexLess(a, b) || LexLess(b, a)
  {
    if a != [] && b != [] && a[0] == b[0] {
      LexLessTotal(a[1..], b[1..]);
      if a[1..] == b[1..] {
        assert a == [a[0]] + a[1..] && b == [b[0]] + b[1..];
      }
    }
  }

  lemma {:induction false} LexLessTransitive(a: string, b: string, c: string)
    requires LexLess(a, b) && LexLess(b, c)
    ensures LexLess(a, c)
  {
    if a != [] && a[0] == b[0] && b[0] == c[0] {
      LexLessTransitive(a[1..], b[1..], c[1..]);
    }
  }

  /** One entry of the per-date series: a date and its number of rows. */
  datatype DayCount = DayCount(date: string, count: nat)

  /** The number of rows dated `d`. */
  function CountOn(rows: seq<Row>, d: string): nat {
    if rows == [] then 0
    else CountOn(rows[..|rows| - 1], d) + (if rows[|rows| - 1].date == d then 1 else 0)
  }

  /** The counts the series lists for date `d`. */
  function Lookup(c: seq<DayCount>, d: string): nat {
    if c == [] then 0 else (if c[0].date == d then c[0].count else 0) + Lookup(c[1..], d)
  }

  /** The total of the series. */
  function Total(c: seq<DayCount>): nat {
    if c == [] then 0 else c[0].count + Total(c[1..])
  }

  /** Each date of the series is below the next, and every count is positive. */
  predicate Ascending(c: seq<DayCount>) {
    (forall k :: 0 <= k < |c| ==> c[k].count > 0)
    && (|c| < 2 || (LexLess(c[0].date, c[1].date) && Ascending(c[1..])))
  }

  /** The series with one more row dated `d`: its count raised, or a new entry in date order. */
  function Tally(c: seq<DayCount>, d: string): (t: seq<DayCount>)
    ensures |t| > 0
    ensures t[0].date == d || (c != [] && t[0] == c[0])
  {
    if c == [] then [DayCount(d, 1)]
    else if c[0].date == d then [DayCount(d, c[0].count + 1)] + c[1..]
    else if LexLess(d, c[0].date) then [DayCount(d, 1)] + c
    else [c[0]] + Tally(c[1..], d)
  }

  /** groupby("date").size() over the rows. */
  function GroupSizes(rows: seq<Row>): seq<DayCount> {
    if rows == [] then [] else Tally(GroupSizes(rows[..|rows| - 1]), rows[|rows| - 1].date)
  }

  lemma {:induction false} TallyLookup(c: seq<DayCount>, d: string, e: string)
    ensures Lookup(Tally(c, d), e) == Lookup(c, e) + (if e == d then 1 else 0)
  {
    if c != [] && c[0].date != d && !LexLess(d, c[0].date) {
      TallyLookup(c[1..], d, e);
      assert Tally(c, d)[1..] == Tally(c[1..], d);
    } else if c != [] && c[0].date == d {
      assert Tally(c, d)[1..] == c[1..];
    } else if c != [] {
      assert Tally(c, d)[1..] == c;
    }
  }

  lemma {:induction false} TallyTotal(c: seq<DayCount>, d: string)
    ensures Total(Tally(c, d)) == Total(c) + 1
  {
    if c != [] && c[0].date != d && !LexLess(d, c[0].date) {
      TallyTotal(c[1..], d);
      assert Tally(c, d)[1..] == Tally(c[1..], d);
    } else if c != [] && c[0].date == d {
      assert Tally(c, d)[1..] == c[1..];
    } else if c != [] {
      assert Tally(c, d)[1..] == c;
    }
  }

  lemma {:induction false} TallyAscending(c: seq<DayCount>, d: string)
    requires Ascending(c)
    ensures Ascending(Tally(c, d))
  {
    var t := Tally(c, d);
    if c == [] {
    } else if c[0].date == d {
      assert t[1..] == c[1..];
    } else if LexLess(d, c[0].date) {
      assert t[1..] == c;
    } else {
      LexLessTotal(d, c[0].date);
      TallyAscending(c[1..], d);
      assert t[1..] == Tally(c[1..], d);
      assert forall k :: 1 <= k < |t| ==> t[k] == Tally(c[1..], d)[k - 1];
    }
  }

  /** In an ascending series a date below the first is not listed. */
  lemma {:induction false} AscendingBelow(c: seq<DayCount>, d: string)
    requires Ascending(c) && c != [] && LexLess(d, c[0].date)
    ensures Lookup(c, d) == 0
  {
    LexLessIrreflexive(d);
    if |c| > 1 {
      LexLessTransitive(d, c[0].date, c[1].date);
      AscendingBelow(c[1..], d);
    }
  }

  /** In an ascending series every entry holds the whole count of its date. */
  lemma {:induction false} AscendingLookup(c: seq<DayCount>, k: int)
    requires Ascending(c) && 0 <= k < |c|
    ensures Lookup(c, c[k].date) == c[k].count
  {
    if k == 0 {
      if |c| > 1 {
        AscendingBelow(c[1..], c[0].date);
      }
    } else {
      AscendingLookup(c[1..], k - 1);
      LexLessIrreflexive(c[k].date);
      AscendingAbove(c, 0, k);
    }
  }

  /** In an ascending series every date is below every later one. */
  lemma {:induction false} AscendingAbove(c: seq<DayCount>, i: int, j: int)
    requires Ascending(c) && 0 <= i < j < |c|
    ensures LexLess(c[i].date, c[j].date)
  {
    if i > 0 {
      AscendingAbove(c[1..], i - 1, j - 1);
    } else if j > 1 {
      AscendingAbove(c[1..], 0, j - 1);
      LexLessTransitive(c[0].date, c[1].date, c[j].date);
    }
  }

  /** A date the series counts is listed in it. */
  lemma {:induction false} LookupListed(c: seq<DayCount>, d: string)
    requires Lookup(c, d) > 0
    ensures exists k :: 0 <= k < |c| && c[k].date == d
  {
    if c[0].date != d {
      LookupListed(c[1..], d);
      var k :| 0 <= k < |c[1..]| && c[1..][k].date == d;
      assert c[k + 1].date == d;
    }
  }

  /** The series lists its dates in strictly ascending order, each once, with a positive count. */
  lemma {:induction false} GroupSizesAscending(rows: seq<Row>)
    ensures Ascending(GroupSizes(rows))
    ensures var c := GroupSizes(rows);
      forall k, l :: 0 <= k < l < |c| ==> LexLess(c[k].date, c[l].date) && c[k].date != c[l].date
    decreases |rows|
  {
    var c := GroupSizes(rows);
    if rows != [] {
      GroupSizesAscending(rows[..|rows| - 1]);
      TallyAscending(GroupSizes(rows[..|rows| - 1]), rows[|rows| - 1].date);
    }
    forall k, l | 0 <= k < l < |c| ensures LexLess(c[k].date, c[l].date) && c[k].date != c[l].date {
      AscendingAbove(c, k, l);
      LexLessIrreflexive(c[k].date);
    }
  }

  /** The series gives each date the number of rows with that date. */
  lemma {:induction false} GroupSizesCounts(rows: seq<Row>, d: string)
    ensures Lookup(GroupSizes(rows), d) == CountOn(rows, d)
    decreases |rows|
  {
    if rows != [] {
      GroupSizesCounts(rows[..|rows| - 1], d);
      TallyLookup(GroupSizes(rows[..|rows| - 1]), rows[|rows| - 1].date, d);
    }
  }

  /** Each entry is the number of rows of its date, and every date of the rows has an entry. */
  lemma GroupSizesEntries(rows: seq<Row>, d: string)
    ensures var c := GroupSizes(rows);
      forall k :: 0 <= k < |c| ==> c[k].count == CountOn(rows, c[k].date)
    ensures CountOn(rows, d) > 0 <==> exists k :: 0 <= k < |GroupSizes(rows)| && GroupSizes(rows)[k].date == d
  {
    var c := GroupSizes(rows);
    GroupSizesAscending(rows);
    forall k | 0 <= k < |c| ensures c[k].count == CountOn(rows, c[k].date) {
      AscendingLookup(c, k);
      GroupSizesCounts(rows, c[k].date);
    }
    GroupSizesCounts(rows, d);
    if CountOn(rows, d) > 0 {
      LookupListed(c, d);
    }
  }

  /** The counts add up to the number of rows. */
  lemma {:induction false} GroupSizesTotal(rows: seq<Row>)
    ensures Total(GroupSizes(rows)) == |rows|
    decreases |rows|
  {
    if rows != [] {
      GroupSizesTotal(rows[..|rows| - 1]);
      TallyTotal(GroupSizes(rows[..|rows| - 1]), rows[|rows| - 1].date);
    }
  }

  // ----- Counts after deduplication ----------------------------------------

  /** The distinct addresses seen on date `d`. */
  function IpsOn(rows: seq<Row>, d: string): set<string> {
    if rows == [] then {}
    else IpsOn(rows[..|rows| - 1], d) + (if rows[|rows| - 1].date == d then {rows[|rows| - 1].ip} else {})
  }

  lemma {:induction false} KeySetIps(rows: seq<Row>, d: string, ip: string)
    ensures (d, ip) in KeySet(rows) <==> ip in IpsOn(rows, d)
    decreases |rows|
  {
    if rows != [] {
      KeySetIps(rows[..|rows| - 1], d, ip);
    }
  }

  /** After drop_duplicates the count of a date is the number of distinct addresses seen that day. */
  lemma {:induction false} DedupCountsIps(rows: seq<Row>, d: string)
    ensures CountOn(Dedup(rows), d) == |IpsOn(rows, d)|
    decreases |rows|
  {
    if rows != [] {
      var init := rows[..|rows| - 1];
      var last := rows[|rows| - 1];
      var kept := Dedup(init);
      DedupCountsIps(init, d);
      KeySetIps(init, d, last.ip);
      if Key(last) in KeySet(init) {
        assert Dedup(rows) == kept;
        assert last.date == d ==> last.ip in IpsOn(init, d);
        assert IpsOn(rows, d) == IpsOn(init, d);
      } else {
        var next := kept + [last];
        assert Dedup(rows) == next;
        assert next[..|next| - 1] == kept;
        assert CountOn(next, d) == CountOn(kept, d) + (if last.date == d then 1 else 0);
        assert last.date == d ==> last.ip !in IpsOn(init, d);
      }
    }
  }

  /** After drop_duplicates the per-date series counts distinct addresses and adds up to the rows kept. */
  lemma DedupSeries(rows: seq<Row>, d: string)
    ensures Lookup(GroupSizes(Dedup(rows)), d) == |IpsOn(rows, d)|
    ensures Total(GroupSizes(Dedup(rows))) == |Dedup(rows)|
  {
    GroupSizesCounts(Dedup(rows), d);
    DedupCountsIps(rows, d);
    GroupSizesTotal(Dedup(rows));
  }
}
