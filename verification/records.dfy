/** The daily record both halves of the collector pass around (the dict built at
    cloudflare_analytics.py:139-156), and the ordering of such records by their date
    string: `sort(key=lambda x: x['날짜'])` at line 232 and the same with
    `reverse=True` at line 161. Python's sort is stable in both directions, so
    records with equal dates keep their relative order. */
module Records {
  import opened Text

  /** The cache ratio as the exact percentage `num / den`. */
  datatype Ratio = Ratio(num: int, den: int)

  /** One day of analytics: the date string as the API sent it, the counters, and
      the derived cache ratio. */
  datatype DayRecord = DayRecord(
    date: string,
    uniqueVisitors: int,
    pageViews: int,
    requests: int,
    cachedRequests: int,
    bytes: int,
    cachedBytes: int,
    threats: int,
    cacheRatio: Ratio)

  /** `a` must come strictly before `b` in the sorted order. */
  predicate Ahead(a: DayRecord, b: DayRecord, descending: bool)
  {
    if descending then Less(b.date, a.date) else Less(a.date, b.date)
  }

  predicate SortedByDate(s: seq<DayRecord>, descending: bool)
  {
    forall i, j | 0 <= i < j < |s| :: !Ahead(s[j], s[i], descending)
  }

  /** The records of `s` whose date is `d`, in their order in `s`. */
  function WithDate(s: seq<DayRecord>, d: string): (r: seq<DayRecord>)
    ensures |r| <= |s|
  {
    if |s| == 0 then []
    else (if s[0].date == d then [s[0]] else []) + WithDate(s[1..], d)
  }

  lemma AheadAsymmetric(a: DayRecord, b: DayRecord, descending: bool)
    requires Ahead(a, b, descending)
    ensures !Ahead(b, a, descending) && a.date != b.date
  {
    if descending {
      LessAsymmetric(b.date, a.date);
      LessIrreflexive(a.date);
    } else {
      LessAsymmetric(a.date, b.date);
      LessIrreflexive(a.date);
    }
  }

  /** "Not ahead" chains: if `y` may follow `x` and `z` may follow `y`, then `z`
      may follow `x`. */
  lemma NotAheadTransitive(x: DayRecord, y: DayRecord, z: DayRecord, descending: bool)
    requires !Ahead(y, x, descending) && !Ahead(z, y, descending)
    ensures !Ahead(z, x, descending)
  {
    LessTotal(x.date, y.date);
    LessTotal(y.date, z.date);
    if Ahead(z, x, descending) {
      if descending {
        assert Less(y.date, x.date) || x.date == y.date;
        assert Less(z.date, y.date) || y.date == z.date;
        if x.date != y.date && y.date != z.date {
          LessTransitive(z.date, y.date, x.date);
        }
        LessAsymmetric(x.date, z.date);
      } else {
        assert Less(x.date, y.date) || x.date == y.date;
        assert Less(y.date, z.date) || y.date == z.date;
        if x.date != y.date && y.date != z.date {
          LessTransitive(x.date, y.date, z.date);
        }
        LessAsymmetric(z.date, x.date);
      }
    }
  }

  lemma SortedTail(s: seq<DayRecord>, descending: bool)
    requires |s| > 0 && SortedByDate(s, descending)
    ensures SortedByDate(s[1..], descending)
  {
    forall i, j | 0 <= i < j < |s| - 1 ensures !Ahead(s[1..][j], s[1..][i], descending) {
      assert s[1..][j] == s[j + 1] && s[1..][i] == s[i + 1];
    }
  }

  /** A record that nothing in a sorted list must precede can head it. */
  lemma SortedCons(x: DayRecord, t: seq<DayRecord>, descending: bool)
    requires SortedByDate(t, descending)
    requires forall j | 0 <= j < |t| :: !Ahead(t[j], x, descending)
    ensures SortedByDate([x] + t, descending)
  {
    var f := [x] + t;
    forall i, j | 0 <= i < j < |f| ensures !Ahead(f[j], f[i], descending) {
      assert f[j] == t[j - 1];
      if i > 0 {
        assert f[i] == t[i - 1];
      }
    }
  }

  /** One step of a stable insertion sort: `x` goes before the first record it is
      not behind, so it stays ahead of the records with its own date. */
  function Insert(x: DayRecord, s: seq<DayRecord>, descending: bool): (r: seq<DayRecord>)
    ensures |r| == |s| + 1
    ensures multiset(r) == multiset(s) + multiset{x}
  {
    if |s| == 0 then [x]
    else if Ahead(s[0], x, descending) then
      var r := [s[0]] + Insert(x, s[1..], descending);
      assert s == [s[0]] + s[1..];
      r
    else [x] + s
  }

  lemma {:induction false} InsertSorted(x: DayRecord, s: seq<DayRecord>, descending: bool)
    requires SortedByDate(s, descending)
    ensures SortedByDate(Insert(x, s, descending), descending)
  {
    if |s| > 0 {
      if Ahead(s[0], x, descending) {
        var t := Insert(x, s[1..], descending);
        SortedTail(s, descending);
        InsertSorted(x, s[1..], descending);
        AheadAsymmetric(s[0], x, descending);
        assert forall j | 0 <= j < |s[1..]| :: !Ahead(s[1..][j], s[0], descending) by {
          forall j | 0 <= j < |s[1..]| ensures !Ahead(s[1..][j], s[0], descending) {
            assert s[1..][j] == s[j + 1];
          }
        }
        InsertKeepsBound(s[0], x, s[1..], descending);
        SortedCons(s[0], t, descending);
      } else {
        forall j | 0 <= j < |s|
          ensures !Ahead(s[j], x, descending)
        {
          if j > 0 {
            NotAheadTransitive(x, s[0], s[j], descending);
          }
        }
        SortedCons(x, s, descending);
      }
    }
  }

  /** Inserting a record that need not precede `y` keeps every record free to
      follow `y`. */
  lemma InsertKeepsBound(y: DayRecord, x: DayRecord, s: seq<DayRecord>, descending: bool)
    requires !Ahead(x, y, descending)
    requires forall j | 0 <= j < |s| :: !Ahead(s[j], y, descending)
    ensures forall j | 0 <= j < |Insert(x, s, descending)| :: !Ahead(Insert(x, s, descending)[j], y, descending)
  {
    var t := Insert(x, s, descending);
    forall j | 0 <= j < |t| ensures !Ahead(t[j], y, descending) {
      assert t[j] in multiset(t);
      if t[j] != x {
        assert t[j] in multiset(s);
        var k :| 0 <= k < |s| && s[k] == t[j];
      }
    }
  }

  lemma {:induction false} InsertWithDate(x: DayRecord, s: seq<DayRecord>, descending: bool, d: string)
    ensures WithDate(Insert(x, s, descending), d) == (if x.date == d then [x] else []) + WithDate(s, d)
  {
    var hx: seq<DayRecord> := if x.date == d then [x] else [];
    if |s| == 0 {
      assert WithDate([x], d) == hx + WithDate([x][1..], d);
    } else if Ahead(s[0], x, descending) {
      var hs: seq<DayRecord> := if s[0].date == d then [s[0]] else [];
      var t := Insert(x, s[1..], descending);
      InsertWithDate(x, s[1..], descending, d);
      AheadAsymmetric(s[0], x, descending);
      var r := [s[0]] + t;
      assert r[0] == s[0] && r[1..] == t;
      assert WithDate(r, d) == hs + WithDate(t, d);
      assert WithDate(s, d) == hs + WithDate(s[1..], d);
      assert hs == [] || hx == [];
    } else {
      var r := [x] + s;
      assert r[0] == x && r[1..] == s;
      assert WithDate(r, d) == hx + WithDate(s, d);
    }
  }

  /** Python's stable `sort` on the date string, ascending or (`reverse=True`)
      descending: a permutation, ordered, and keeping the input order among
      records that share a date. */
  function SortByDate(s: seq<DayRecord>, descending: bool): (r: seq<DayRecord>)
    ensures |r| == |s|
    ensures multiset(r) == multiset(s)
    ensures SortedByDate(r, descending)
    ensures forall d :: WithDate(r, d) == WithDate(s, d)
  {
    if |s| == 0 then []
    else
      var t := SortByDate(s[1..], descending);
      InsertSorted(s[0], t, descending);
      InsertWithDateAll(s[0], t, descending);
      assert s == [s[0]] + s[1..];
      Insert(s[0], t, descending)
  }

  lemma InsertWithDateAll(x: DayRecord, s: seq<DayRecord>, descending: bool)
    ensures forall d :: WithDate(Insert(x, s, descending), d) == (if x.date == d then [x] else []) + WithDate(s, d)
  {
    forall d {
      InsertWithDate(x, s, descending, d);
    }
  }
}
