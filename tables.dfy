/** Row-set operations that the scripts perform with pandas on whole frames:
    boolean-mask year filters, `sort_values`, `groupby(...).last()`,
    `sort_values(...).iloc[-1]`, and `merge(..., how="outer" | "left")`.
    A frame is a sequence of records; column accessors are passed as functions. */
module Tables {
  import opened Wrappers

  // ---------------------------------------------------------------------------
  // Year-range filter: df[(df[col] >= lo) & (df[col] <= hi)]
  // ---------------------------------------------------------------------------

  /** Keeps, in order, the rows whose year lies in the inclusive range [lo, hi]. */
  function FilterYears<T(!new)>(rows: seq<T>, year: T -> int, lo: int, hi: int): (r: seq<T>)
    ensures forall x :: x in r <==> x in rows && lo <= year(x) <= hi
    ensures |r| <= |rows|
  {
    if rows == [] then []
    else
      (if lo <= year(rows[0]) <= hi then [rows[0]] else [])
      + FilterYears(rows[1..], year, lo, hi)
  }

  /** The filter works row by row: it distributes over concatenation, so the
      surviving rows keep their relative order. */
  lemma {:induction false} FilterConcat<T(!new)>(a: seq<T>, b: seq<T>, year: T -> int, lo: int, hi: int)
    ensures FilterYears(a + b, year, lo, hi)
            == FilterYears(a, year, lo, hi) + FilterYears(b, year, lo, hi)
  {
    if a == [] {
      assert a + b == b;
    } else {
      assert (a + b)[0] == a[0];
      assert (a + b)[1..] == a[1..] + b;
      FilterConcat(a[1..], b, year, lo, hi);
    }
  }

  /** A frame whose rows all lie in the range is returned unchanged. */
  lemma {:induction false} FilterKeepsAll<T(!new)>(rows: seq<T>, year: T -> int, lo: int, hi: int)
    requires forall k :: 0 <= k < |rows| ==> lo <= year(rows[k]) <= hi
    ensures FilterYears(rows, year, lo, hi) == rows
  {
    if rows != [] {
      FilterKeepsAll(rows[1..], year, lo, hi);
      assert [rows[0]] + rows[1..] == rows;
    }
  }

  /** Filtering twice is filtering once by the intersection of the two ranges. */
  lemma {:induction false} FilterTwice<T(!new)>(rows: seq<T>, year: T -> int, lo: int, hi: int, lo2: int, hi2: int)
    ensures FilterYears(FilterYears(rows, year, lo, hi), year, lo2, hi2)
            == FilterYears(rows, year, if lo < lo2 then lo2 else lo, if hi < hi2 then hi else hi2)
  {
    if rows != [] {
      var head := if lo <= year(rows[0]) <= hi then [rows[0]] else [];
      FilterConcat(head, FilterYears(rows[1..], year, lo, hi), year, lo2, hi2);
      FilterTwice(rows[1..], year, lo, hi, lo2, hi2);
      if lo <= year(rows[0]) <= hi {
        assert head[1..] == [];
        assert FilterYears(head, year, lo2, hi2)
               == (if lo2 <= year(rows[0]) <= hi2 then [rows[0]] else []) + FilterYears([], year, lo2, hi2);
      }
    }
  }

  /** Filtering an already filtered frame by a wider range changes nothing. */
  lemma FilterWiderIsNoOp<T(!new)>(rows: seq<T>, year: T -> int, lo: int, hi: int, lo2: int, hi2: int)
    requires lo2 <= lo && hi <= hi2
    ensures FilterYears(FilterYears(rows, year, lo, hi), year, lo2, hi2)
            == FilterYears(rows, year, lo, hi)
  {
    FilterTwice(rows, year, lo, hi, lo2, hi2);
  }

  /** Exact-year selection df[df[col] == y]. */
  function RowsOfYear<T(!new)>(rows: seq<T>, year: T -> int, y: int): (r: seq<T>)
    ensures forall x :: x in r <==> x in rows && year(x) == y
  {
    FilterYears(rows, year, y, y)
  }

  // ---------------------------------------------------------------------------
  // Column maximum: df[col].max()  (NaN, modelled as None, on an empty frame)
  // ---------------------------------------------------------------------------

  function MaxOf<T(!new)>(rows: seq<T>, key: T -> int): (m: Option<int>)
    ensures m.None? <==> rows == []
    ensures m.Some? ==> (exists x :: x in rows && key(x) == m.value)
    ensures m.Some? ==> forall x :: x in rows ==> key(x) <= m.value
  {
    if rows == [] then None
    else
      var rest := MaxOf(rows[1..], key);
      assert forall x :: x in rows ==> x == rows[0] || x in rows[1..];
      if rest.None? || rest.value <= key(rows[0]) then Some(key(rows[0])) else rest
  }

  /** `argmin()`: the position of the first row with the smallest key. */
  function FirstMinIndex<T(!new)>(rows: seq<T>, key: T -> int): (i: nat)
    requires |rows| > 0
    ensures i < |rows|
    ensures forall j :: 0 <= j < |rows| ==> key(rows[i]) <= key(rows[j])
    ensures forall j :: 0 <= j < i ==> key(rows[i]) < key(rows[j])
  {
    if |rows| == 1 then 0
    else
      var k := FirstMinIndex(rows[..|rows| - 1], key);
      if key(rows[|rows| - 1]) < key(rows[k]) then |rows| - 1 else k
  }

  // ---------------------------------------------------------------------------
  // sort_values(col).iloc[-1]: a row with the largest key. A one-column
  // sort_values uses quicksort, which is not stable, so among rows sharing the
  // largest key the one pandas returns is unspecified; this model takes the last
  // of them in row order.
  // ---------------------------------------------------------------------------

  function LastMaxIndex<T(!new)>(rows: seq<T>, key: T -> int): (i: nat)
    requires |rows| > 0
    ensures i < |rows|
    ensures forall j :: 0 <= j < |rows| ==> key(rows[j]) <= key(rows[i])
    ensures forall j :: i < j < |rows| ==> key(rows[j]) < key(rows[i])
  {
    if |rows| == 1 then 0
    else
      var k := LastMaxIndex(rows[..|rows| - 1], key);
      if key(rows[|rows| - 1]) >= key(rows[k]) then |rows| - 1 else k
  }

  // ---------------------------------------------------------------------------
  // sort_values(col): stable insertion sort
  // ---------------------------------------------------------------------------

  predicate SortedBy<T(!new)>(s: seq<T>, key: T -> int) {
    forall i, j :: 0 <= i < j < |s| ==> key(s[i]) <= key(s[j])
  }

  function Insert<T(==,!new)>(x: T, s: seq<T>, key: T -> int): (r: seq<T>)
    requires SortedBy(s, key)
    ensures SortedBy(r, key)
    ensures multiset(r) == multiset(s) + multiset{x}
    ensures |r| == |s| + 1
  {
    if s == [] then [x]
    else if key(x) <= key(s[0]) then
      SortedCons(x, s, key);
      [x] + s
    else
      SortedTail(s, key);
      var t := Insert(x, s[1..], key);
      InsertStep(x, s, t, key);
      [s[0]] + t
  }

  lemma SortedTail<T(!new)>(s: seq<T>, key: T -> int)
    requires SortedBy(s, key) && s != []
    ensures SortedBy(s[1..], key)
  {
  }

  /** Putting the head back in front of the tail with x inserted. */
  lemma InsertStep<T(!new)>(x: T, s: seq<T>, t: seq<T>, key: T -> int)
    requires SortedBy(s, key) && s != [] && key(s[0]) < key(x)
    requires SortedBy(t, key) && multiset(t) == multiset(s[1..]) + multiset{x}
    ensures SortedBy([s[0]] + t, key)
    ensures multiset([s[0]] + t) == multiset(s) + multiset{x}
  {
    assert s == [s[0]] + s[1..];
    forall k | 0 <= k < |t| ensures key(s[0]) <= key(t[k]) {
      assert t[k] in multiset(t);
      if t[k] != x {
        assert t[k] in multiset(s[1..]);
        var m :| 0 <= m < |s[1..]| && s[1..][m] == t[k];
        assert s[m + 1] == t[k];
      }
    }
    SortedCons(s[0], t, key);
  }

  lemma SortedCons<T(!new)>(h: T, t: seq<T>, key: T -> int)
    requires SortedBy(t, key) && forall k :: 0 <= k < |t| ==> key(h) <= key(t[k])
    ensures SortedBy([h] + t, key)
  {
    var r := [h] + t;
    forall i, j | 0 <= i < j < |r| ensures key(r[i]) <= key(r[j]) {
      assert r[j] == t[j - 1];
      if i > 0 {
        assert r[i] == t[i - 1];
      }
    }
  }

  function SortBy<T(==,!new)>(s: seq<T>, key: T -> int): (r: seq<T>)
    ensures SortedBy(r, key)
    ensures multiset(r) == multiset(s)
    ensures |r| == |s|
  {
    if s == [] then []
    else
      assert s == [s[0]] + s[1..];
      Insert(s[0], SortBy(s[1..], key), key)
  }

  /** `sort_values(col).iloc[-1]` picks a row of the frame whose key is the largest. */
  lemma SortedLastIsMax<T(!new)>(s: seq<T>, key: T -> int)
    requires |s| > 0
    ensures SortBy(s, key)[|s| - 1] in s
    ensures forall x :: x in s ==> key(x) <= key(SortBy(s, key)[|s| - 1])
  {
    var r := SortBy(s, key);
    assert r[|s| - 1] in multiset(r);
    forall x | x in s ensures key(x) <= key(r[|s| - 1]) {
      assert x in multiset(s);
      assert x in r;
      var i :| 0 <= i < |r| && r[i] == x;
    }
  }

  // ---------------------------------------------------------------------------
  // groupby(col).last(): one row per distinct key, in ascending key order, the
  // last row of the group in frame order.
  // ---------------------------------------------------------------------------

  predicate StrictlyIncreasing(s: seq<int>) {
    forall i, j :: 0 <= i < j < |s| ==> s[i] < s[j]
  }

  /** Removes adjacent repeats from an ascending sequence. */
  function Dedup(s: seq<int>): (r: seq<int>)
    requires forall i, j :: 0 <= i < j < |s| ==> s[i] <= s[j]
    ensures StrictlyIncreasing(r)
    ensures forall x :: x in r <==> x in s
    ensures |r| <= |s|
    ensures |s| > 0 ==> |r| > 0 && r[0] == s[0]
  {
    if |s| <= 1 then s
    else
      var t := Dedup(s[1..]);
      if s[0] == s[1] then t else [s[0]] + t
  }

  /** The distinct keys of a frame, ascending. */
  function GroupKeys<T(!new)>(rows: seq<T>, key: T -> int): (ks: seq<int>)
    ensures StrictlyIncreasing(ks)
    ensures forall k :: k in ks <==> exists x :: x in rows && key(x) == k
  {
    var keys := seq(|rows|, i requires 0 <= i < |rows| => key(rows[i]));
    var sorted := SortBy(keys, (x: int) => x);
    assert forall x :: x in sorted <==> x in keys by {
      forall x ensures x in sorted <==> x in keys {
        assert x in sorted <==> x in multiset(sorted);
        assert x in keys <==> x in multiset(keys);
      }
    }
    assert forall k :: k in keys <==> exists x :: x in rows && key(x) == k by {
      forall k ensures k in keys <==> exists x :: x in rows && key(x) == k {
        if k in keys {
          var i :| 0 <= i < |keys| && keys[i] == k;
          assert rows[i] in rows;
        }
        if exists x :: x in rows && key(x) == k {
          var x :| x in rows && key(x) == k;
          var i :| 0 <= i < |rows| && rows[i] == x;
          assert keys[i] == k;
        }
      }
    }
    Dedup(sorted)
  }

  /** Index of the last row whose key is k. */
  function LastIndexOf<T(!new)>(rows: seq<T>, key: T -> int, k: int): (i: nat)
    requires exists x :: x in rows && key(x) == k
    ensures i < |rows| && key(rows[i]) == k
    ensures forall j :: i < j < |rows| ==> key(rows[j]) != k
  {
    if key(rows[|rows| - 1]) == k then |rows| - 1
    else
      assert forall x :: x in rows ==> x in rows[..|rows| - 1] || x == rows[|rows| - 1];
      LastIndexOf(rows[..|rows| - 1], key, k)
  }

  /** Index of the first row whose key is k. */
  function FirstIndexOf<T(!new)>(rows: seq<T>, key: T -> int, k: int): (i: nat)
    requires exists x :: x in rows && key(x) == k
    ensures i < |rows| && key(rows[i]) == k
    ensures forall j :: 0 <= j < i ==> key(rows[j]) != k
  {
    if key(rows[0]) == k then 0
    else
      assert forall x :: x in rows ==> x in rows[1..] || x == rows[0];
      1 + FirstIndexOf(rows[1..], key, k)
  }

  function GroupLast<T(!new)>(rows: seq<T>, key: T -> int): (r: seq<T>)
    ensures |r| == |GroupKeys(rows, key)|
    ensures forall i :: 0 <= i < |r| ==> key(r[i]) == GroupKeys(rows, key)[i]
  {
    var ks := GroupKeys(rows, key);
    seq(|ks|, i requires 0 <= i < |ks| => assert ks[i] in ks; rows[LastIndexOf(rows, key, ks[i])])
  }

  /** Each group's representative is the row of that key that comes last in the
      frame; every key of the frame has exactly one representative. */
  lemma GroupLastIsLast<T(!new)>(rows: seq<T>, key: T -> int, i: nat)
    requires i < |GroupLast(rows, key)|
    ensures exists p :: 0 <= p < |rows| && rows[p] == GroupLast(rows, key)[i]
              && forall j :: p < j < |rows| ==> key(rows[j]) != key(rows[p])
  {
    var ks := GroupKeys(rows, key);
    var p := LastIndexOf(rows, key, ks[i]);
    assert rows[p] == GroupLast(rows, key)[i];
  }

  lemma GroupLastCoversKeys<T(!new)>(rows: seq<T>, key: T -> int, x: T)
    requires x in rows
    ensures exists i :: 0 <= i < |GroupLast(rows, key)| && key(GroupLast(rows, key)[i]) == key(x)
  {
    var ks := GroupKeys(rows, key);
    assert key(x) in ks;
    var i :| 0 <= i < |ks| && ks[i] == key(x);
    assert key(GroupLast(rows, key)[i]) == key(x);
  }

  /** After sorting by a finer key (a date) that is monotone in the group key
      (its year), the last row of each group is the one with the largest fine key. */
  lemma GroupLastOfSortedIsLatest<T(!new)>(rows: seq<T>, group: T -> int, fine: T -> int, i: nat)
    requires SortedBy(rows, fine)
    requires i < |GroupLast(rows, group)|
    ensures forall x :: x in rows && group(x) == group(GroupLast(rows, group)[i])
                ==> fine(x) <= fine(GroupLast(rows, group)[i])
  {
    GroupLastIsLast(rows, group, i);
    var p :| 0 <= p < |rows| && rows[p] == GroupLast(rows, group)[i]
             && forall j :: p < j < |rows| ==> group(rows[j]) != group(rows[p]);
    LastOfSorted(rows, group, fine, p);
  }

  /** In a frame sorted by `fine`, the last row of a group has the largest `fine`
      of its group. */
  lemma LastOfSorted<T(!new)>(rows: seq<T>, group: T -> int, fine: T -> int, p: nat)
    requires SortedBy(rows, fine) && p < |rows|
    requires forall j :: p < j < |rows| ==> group(rows[j]) != group(rows[p])
    ensures forall x :: x in rows && group(x) == group(rows[p]) ==> fine(x) <= fine(rows[p])
  {
    forall x | x in rows && group(x) == group(rows[p])
      ensures fine(x) <= fine(rows[p])
    {
      var q :| 0 <= q < |rows| && rows[q] == x;
      if q < p {
        assert fine(rows[q]) <= fine(rows[p]);
      }
    }
  }

  // ---------------------------------------------------------------------------
  // merge(left, right, on=key, how="outer" | "left")
  // ---------------------------------------------------------------------------

  /** One row of a merge result: matched on both sides, or present on one side only
      (the other side's columns are NaN). */
  datatype Joined<L, R> = Both(l: L, r: R) | LeftOnly(l: L) | RightOnly(r: R)

  function JoinKey<K, L, R>(j: Joined<L, R>, lk: L -> K, rk: R -> K): K {
    if j.RightOnly? then rk(j.r) else lk(j.l)
  }

  predicate UniqueBy<T(!new), K(==)>(s: seq<T>, key: T -> K) {
    forall i, j :: 0 <= i < j < |s| ==> key(s[i]) != key(s[j])
  }

  function KeySet<T, K(==)>(s: seq<T>, key: T -> K): set<K> {
    set i | 0 <= i < |s| :: key(s[i])
  }

  lemma KeySetConcat<T, K>(a: seq<T>, b: seq<T>, key: T -> K)
    ensures KeySet(a + b, key) == KeySet(a, key) + KeySet(b, key)
  {
    var ab := a + b;
    forall k | k in KeySet(ab, key) ensures k in KeySet(a, key) + KeySet(b, key) {
      var i :| 0 <= i < |ab| && key(ab[i]) == k;
      if i < |a| {
        assert ab[i] == a[i];
      } else {
        assert ab[i] == b[i - |a|];
      }
    }
    forall k | k in KeySet(a, key) + KeySet(b, key) ensures k in KeySet(ab, key) {
      if k in KeySet(a, key) {
        var i :| 0 <= i < |a| && key(a[i]) == k;
        assert ab[i] == a[i];
      } else {
        var i :| 0 <= i < |b| && key(b[i]) == k;
        assert ab[i + |a|] == b[i];
      }
    }
  }

  /** Rows mapped one to one onto rows with the same key keep the key set. */
  lemma KeySetMapped<A, B, K>(xs: seq<A>, ys: seq<B>, kx: A -> K, ky: B -> K)
    requires |xs| == |ys| && forall i :: 0 <= i < |xs| ==> ky(ys[i]) == kx(xs[i])
    ensures KeySet(ys, ky) == KeySet(xs, kx)
  {
    forall k | k in KeySet(ys, ky) ensures k in KeySet(xs, kx) {
      var i :| 0 <= i < |ys| && ky(ys[i]) == k;
      assert kx(xs[i]) == k;
    }
    forall k | k in KeySet(xs, kx) ensures k in KeySet(ys, ky) {
      var i :| 0 <= i < |xs| && kx(xs[i]) == k;
      assert ky(ys[i]) == k;
    }
  }

  lemma KeySetMem<T, K>(s: seq<T>, key: T -> K)
    ensures forall k :: k in KeySet(s, key) <==> exists x :: x in s && key(x) == k
  {
    forall k ensures k in KeySet(s, key) <==> exists x :: x in s && key(x) == k {
      if exists x :: x in s && key(x) == k {
        var x :| x in s && key(x) == k;
        var i :| 0 <= i < |s| && s[i] == x;
        assert key(s[i]) in KeySet(s, key);
      }
    }
  }

  /** Rows of `rs` whose key is k, in order. */
  function MatchesOf<K(==), R(!new)>(rs: seq<R>, rk: R -> K, k: K): (m: seq<R>)
    ensures forall x :: x in m <==> x in rs && rk(x) == k
    ensures forall i :: 0 <= i < |m| ==> rk(m[i]) == k
    ensures |m| <= |rs|
  {
    if rs == [] then []
    else (if rk(rs[0]) == k then [rs[0]] else []) + MatchesOf(rs[1..], rk, k)
  }

  /** Rows of `rs` whose key is not in `keys`, in order. */
  function Unmatched<K(==), R(!new)>(rs: seq<R>, rk: R -> K, keys: set<K>): (m: seq<R>)
    ensures forall x :: x in m <==> x in rs && rk(x) !in keys
    ensures |m| <= |rs|
  {
    if rs == [] then []
    else (if rk(rs[0]) !in keys then [rs[0]] else []) + Unmatched(rs[1..], rk, keys)
  }

  /** A left row with its matches: one joined row per match, or a single
      left-only row when nothing matches. */
  function Expand<L, R>(l: L, ms: seq<R>): (e: seq<Joined<L, R>>)
    ensures |e| == if ms == [] then 1 else |ms|
  {
    if ms == [] then [LeftOnly(l)] else seq(|ms|, i requires 0 <= i < |ms| => Both(l, ms[i]))
  }

  /** The part of a merge produced by walking the left frame in order. */
  function LeftPart<K(==), L(!new), R(!new)>(ls: seq<L>, rs: seq<R>, lk: L -> K, rk: R -> K): seq<Joined<L, R>>
  {
    if ls == [] then []
    else Expand(ls[0], MatchesOf(rs, rk, lk(ls[0]))) + LeftPart(ls[1..], rs, lk, rk)
  }

  /** how="left": every left row, each paired with its right-hand matches. */
  function LeftJoin<K(==), L(!new), R(!new)>(ls: seq<L>, rs: seq<R>, lk: L -> K, rk: R -> K): (out: seq<Joined<L, R>>)
    ensures forall j :: j in out ==> !j.RightOnly?
  {
    LeftPartNoRightOnly(ls, rs, lk, rk);
    LeftPart(ls, rs, lk, rk)
  }

  /** how="outer": the left part, then the right rows that matched nothing. */
  function OuterJoin<K(==), L(!new), R(!new)>(ls: seq<L>, rs: seq<R>, lk: L -> K, rk: R -> K): seq<Joined<L, R>>
  {
    var extra := Unmatched(rs, rk, KeySet(ls, lk));
    LeftPart(ls, rs, lk, rk) + seq(|extra|, i requires 0 <= i < |extra| => RightOnly(extra[i]))
  }

  lemma {:induction false} LeftPartNoRightOnly<K, L(!new), R(!new)>(ls: seq<L>, rs: seq<R>, lk: L -> K, rk: R -> K)
    ensures forall j :: j in LeftPart(ls, rs, lk, rk) ==> !j.RightOnly?
  {
    if ls != [] {
      LeftPartNoRightOnly(ls[1..], rs, lk, rk);
    }
  }

  lemma {:induction false} LeftPartKeys<K, L(!new), R(!new)>(ls: seq<L>, rs: seq<R>, lk: L -> K, rk: R -> K)
    ensures KeySet(LeftPart(ls, rs, lk, rk), (j: Joined<L, R>) => JoinKey(j, lk, rk)) == KeySet(ls, lk)
  {
    var jk := (j: Joined<L, R>) => JoinKey(j, lk, rk);
    if ls != [] {
      LeftPartKeys(ls[1..], rs, lk, rk);
      var e := Expand(ls[0], MatchesOf(rs, rk, lk(ls[0])));
      var rest := LeftPart(ls[1..], rs, lk, rk);
      assert LeftPart(ls, rs, lk, rk) == e + rest;
      KeySetConcat(e, rest, jk);
      ExpandKeys(ls[0], MatchesOf(rs, rk, lk(ls[0])), lk, rk);
      KeySetCons(ls, lk);
    }
  }

  lemma ExpandKeys<K, L, R>(x: L, ms: seq<R>, lk: L -> K, rk: R -> K)
    ensures KeySet(Expand(x, ms), (j: Joined<L, R>) => JoinKey(j, lk, rk)) == {lk(x)}
  {
    var e := Expand(x, ms);
    assert JoinKey(e[0], lk, rk) == lk(x);
    assert forall i :: 0 <= i < |e| ==> JoinKey(e[i], lk, rk) == lk(x);
  }

  lemma KeySetCons<T, K>(s: seq<T>, key: T -> K)
    requires s != []
    ensures KeySet(s, key) == {key(s[0])} + KeySet(s[1..], key)
  {
    assert s == [s[0]] + s[1..];
    KeySetConcat([s[0]], s[1..], key);
    assert KeySet([s[0]], key) == {key(s[0])};
  }

  /** The right-only rows of an outer merge carry the keys of the unmatched rows. */
  lemma RightOnlyKeys<K, L, R>(extra: seq<R>, lk: L -> K, rk: R -> K)
    ensures KeySet(seq(|extra|, i requires 0 <= i < |extra| => Joined<L, R>.RightOnly(extra[i])),
                   (j: Joined<L, R>) => JoinKey(j, lk, rk))
            == KeySet(extra, rk)
  {
    var rp := seq(|extra|, i requires 0 <= i < |extra| => Joined<L, R>.RightOnly(extra[i]));
    KeySetMapped(extra, rp, rk, (j: Joined<L, R>) => JoinKey(j, lk, rk));
  }

  /** Every right key is a left key or the key of an unmatched right row. */
  lemma UnmatchedKeys<K, L, R(!new)>(ls: seq<L>, rs: seq<R>, lk: L -> K, rk: R -> K)
    ensures KeySet(ls, lk) + KeySet(rs, rk) == KeySet(ls, lk) + KeySet(Unmatched(rs, rk, KeySet(ls, lk)), rk)
  {
    var extra := Unmatched(rs, rk, KeySet(ls, lk));
    KeySetMem(rs, rk);
    KeySetMem(extra, rk);
    forall k | k in KeySet(rs, rk) ensures k in KeySet(ls, lk) || k in KeySet(extra, rk) {
      var x :| x in rs && rk(x) == k;
      if k !in KeySet(ls, lk) {
        assert x in extra;
      }
    }
  }

  /** Merge completeness: the keys of an outer merge are exactly the keys found on
      either side; no key is lost and none is invented. */
  lemma OuterJoinKeys<K, L(!new), R(!new)>(ls: seq<L>, rs: seq<R>, lk: L -> K, rk: R -> K)
    ensures KeySet(OuterJoin(ls, rs, lk, rk), (j: Joined<L, R>) => JoinKey(j, lk, rk))
            == KeySet(ls, lk) + KeySet(rs, rk)
  {
    var jk := (j: Joined<L, R>) => JoinKey(j, lk, rk);
    var lp := LeftPart(ls, rs, lk, rk);
    var extra := Unmatched(rs, rk, KeySet(ls, lk));
    var rp := seq(|extra|, i requires 0 <= i < |extra| => RightOnly(extra[i]));
    assert OuterJoin(ls, rs, lk, rk) == lp + rp;
    LeftPartKeys(ls, rs, lk, rk);
    KeySetConcat(lp, rp, jk);
    RightOnlyKeys(extra, lk, rk);
    UnmatchedKeys(ls, rs, lk, rk);
  }

  /** Under unique right keys, each left row yields exactly one merged row. */
  lemma {:induction false} LeftPartOnePerRow<K, L(!new), R(!new)>(ls: seq<L>, rs: seq<R>, lk: L -> K, rk: R -> K)
    requires UniqueBy(rs, rk)
    ensures |LeftPart(ls, rs, lk, rk)| == |ls|
    ensures forall i :: 0 <= i < |ls| ==>
              !LeftPart(ls, rs, lk, rk)[i].RightOnly? && LeftPart(ls, rs, lk, rk)[i].l == ls[i]
  {
    if ls != [] {
      LeftPartOnePerRow(ls[1..], rs, lk, rk);
      AtMostOneMatch(rs, rk, lk(ls[0]));
    }
  }

  lemma {:induction false} AtMostOneMatch<K, R(!new)>(rs: seq<R>, rk: R -> K, k: K)
    requires UniqueBy(rs, rk)
    ensures |MatchesOf(rs, rk, k)| <= 1
  {
    if rs != [] {
      AtMostOneMatch(rs[1..], rk, k);
    }
  }

  /** Merged row j stands for left row x: matched exactly when the right frame
      holds x's key, and then with a right row of that key. */
  ghost predicate LooksUp<K, L, R(!new)>(j: Joined<L, R>, x: L, rs: seq<R>, lk: L -> K, rk: R -> K) {
    !j.RightOnly? && j.l == x
    && (j.Both? <==> exists y :: y in rs && rk(y) == lk(x))
    && (j.Both? ==> j.r in rs && rk(j.r) == lk(x))
  }

  lemma ExpandLooksUp<K, L(!new), R(!new)>(x: L, rs: seq<R>, lk: L -> K, rk: R -> K)
    requires UniqueBy(rs, rk)
    ensures |Expand(x, MatchesOf(rs, rk, lk(x)))| == 1
    ensures LooksUp(Expand(x, MatchesOf(rs, rk, lk(x)))[0], x, rs, lk, rk)
  {
    AtMostOneMatch(rs, rk, lk(x));
    var m := MatchesOf(rs, rk, lk(x));
    if m != [] {
      assert m[0] in m;
    }
  }

  lemma {:induction false} LeftPartLookup<K, L(!new), R(!new)>(ls: seq<L>, rs: seq<R>, lk: L -> K, rk: R -> K)
    requires UniqueBy(rs, rk)
    ensures |LeftPart(ls, rs, lk, rk)| == |ls|
    ensures forall i :: 0 <= i < |ls| ==> LooksUp(LeftPart(ls, rs, lk, rk)[i], ls[i], rs, lk, rk)
  {
    if ls != [] {
      LeftPartLookup(ls[1..], rs, lk, rk);
      ExpandLooksUp(ls[0], rs, lk, rk);
      var e := Expand(ls[0], MatchesOf(rs, rk, lk(ls[0])));
      var rest := LeftPart(ls[1..], rs, lk, rk);
      var lp := LeftPart(ls, rs, lk, rk);
      assert lp == e + rest;
      forall i | 0 <= i < |ls| ensures LooksUp(lp[i], ls[i], rs, lk, rk) {
        if i > 0 {
          assert lp[i] == rest[i - 1];
          assert ls[i] == ls[1..][i - 1];
        }
      }
    }
  }

  /** Under unique right keys, row i of `merge(..., how="left")` is left row i,
      matched exactly when the right frame holds its key, and then with the
      right row of that key. */
  lemma LeftJoinLookup<K, L(!new), R(!new)>(ls: seq<L>, rs: seq<R>, lk: L -> K, rk: R -> K, i: nat)
    requires UniqueBy(rs, rk) && i < |ls|
    ensures |LeftJoin(ls, rs, lk, rk)| == |ls|
    ensures !LeftJoin(ls, rs, lk, rk)[i].RightOnly? && LeftJoin(ls, rs, lk, rk)[i].l == ls[i]
    ensures LeftJoin(ls, rs, lk, rk)[i].Both? <==> exists y :: y in rs && rk(y) == lk(ls[i])
    ensures LeftJoin(ls, rs, lk, rk)[i].Both? ==>
              LeftJoin(ls, rs, lk, rk)[i].r in rs && rk(LeftJoin(ls, rs, lk, rk)[i].r) == lk(ls[i])
  {
    LeftPartLookup(ls, rs, lk, rk);
    assert LooksUp(LeftJoin(ls, rs, lk, rk)[i], ls[i], rs, lk, rk);
  }

  /** Where merged row j comes from: its left part is a left row, its right part a
      right row with the same key, a left-only row has no partner on the right
      and a right-only row none on the left. */
  ghost predicate Provenance<K, L, R>(j: Joined<L, R>, ls: seq<L>, rs: seq<R>, lk: L -> K, rk: R -> K) {
    (!j.RightOnly? ==> j.l in ls)
    && (!j.LeftOnly? ==> j.r in rs)
    && (j.Both? ==> lk(j.l) == rk(j.r))
    && (j.LeftOnly? ==> forall y :: y in rs ==> rk(y) != lk(j.l))
    && (j.RightOnly? ==> forall x :: x in ls ==> lk(x) != rk(j.r))
  }

  lemma ExpandProvenance<K, L(!new), R(!new)>(x: L, ls: seq<L>, rs: seq<R>, lk: L -> K, rk: R -> K)
    requires x in ls
    ensures forall j :: j in Expand(x, MatchesOf(rs, rk, lk(x))) ==> !j.RightOnly? && Provenance(j, ls, rs, lk, rk)
  {
    var m := MatchesOf(rs, rk, lk(x));
    var e := Expand(x, m);
    forall j | j in e ensures !j.RightOnly? && Provenance(j, ls, rs, lk, rk) {
      var k :| 0 <= k < |e| && e[k] == j;
      if m != [] {
        assert m[k] in m;
      }
    }
  }

  lemma ProvenanceOfTail<K, L(!new), R(!new)>(j: Joined<L, R>, ls: seq<L>, rs: seq<R>, lk: L -> K, rk: R -> K)
    requires ls != [] && !j.RightOnly? && Provenance(j, ls[1..], rs, lk, rk)
    ensures Provenance(j, ls, rs, lk, rk)
  {
    assert j.l in ls[1..];
  }

  lemma {:induction false} LeftPartProvenance<K, L(!new), R(!new)>(ls: seq<L>, rs: seq<R>, lk: L -> K, rk: R -> K)
    ensures forall j :: j in LeftPart(ls, rs, lk, rk) ==> !j.RightOnly? && Provenance(j, ls, rs, lk, rk)
  {
    if ls != [] {
      LeftPartProvenance(ls[1..], rs, lk, rk);
      ExpandProvenance(ls[0], ls, rs, lk, rk);
      var e := Expand(ls[0], MatchesOf(rs, rk, lk(ls[0])));
      var rest := LeftPart(ls[1..], rs, lk, rk);
      assert LeftPart(ls, rs, lk, rk) == e + rest;
      forall j | j in rest ensures !j.RightOnly? && Provenance(j, ls, rs, lk, rk) {
        ProvenanceOfTail(j, ls, rs, lk, rk);
      }
    }
  }

  /** Every row of an outer merge is a left row, a right row, or a matching pair of
      the two, and a one-sided row has no partner. */
  lemma OuterJoinProvenance<K, L(!new), R(!new)>(ls: seq<L>, rs: seq<R>, lk: L -> K, rk: R -> K)
    ensures forall j :: j in OuterJoin(ls, rs, lk, rk) ==> Provenance(j, ls, rs, lk, rk)
  {
    LeftPartProvenance(ls, rs, lk, rk);
    var lp := LeftPart(ls, rs, lk, rk);
    var extra := Unmatched(rs, rk, KeySet(ls, lk));
    var rp := seq(|extra|, i requires 0 <= i < |extra| => RightOnly(extra[i]));
    assert OuterJoin(ls, rs, lk, rk) == lp + rp;
    forall j | j in rp ensures Provenance(j, ls, rs, lk, rk) {
      var k :| 0 <= k < |rp| && rp[k] == j;
      assert extra[k] in extra;
      forall x | x in ls ensures lk(x) != rk(j.r) {
        var p :| 0 <= p < |ls| && ls[p] == x;
        assert lk(ls[p]) in KeySet(ls, lk);
      }
    }
  }

  /** With one row per key on each side, an outer merge has one row per key:
      every key found on either side appears exactly once. */
  lemma OuterJoinUnique<K, L(!new), R(!new)>(ls: seq<L>, rs: seq<R>, lk: L -> K, rk: R -> K)
    requires UniqueBy(ls, lk) && UniqueBy(rs, rk)
    ensures UniqueBy(OuterJoin(ls, rs, lk, rk), (j: Joined<L, R>) => JoinKey(j, lk, rk))
  {
    var jk := (j: Joined<L, R>) => JoinKey(j, lk, rk);
    var lp := LeftPart(ls, rs, lk, rk);
    var extra := Unmatched(rs, rk, KeySet(ls, lk));
    var rp := seq(|extra|, i requires 0 <= i < |extra| => RightOnly(extra[i]));
    assert OuterJoin(ls, rs, lk, rk) == lp + rp;
    LeftPartOnePerRow(ls, rs, lk, rk);
    UniqueMapped(ls, lp, lk, jk);
    UnmatchedUnique(rs, rk, KeySet(ls, lk));
    UniqueMapped(extra, rp, rk, jk);
    LeftPartKeys(ls, rs, lk, rk);
    RightOnlyKeys(extra, lk, rk);
    KeySetMem(extra, rk);
    UniqueConcat(lp, rp, jk);
  }

  /** Rows mapped one to one onto rows with the same key keep their keys distinct. */
  lemma UniqueMapped<A(!new), B(!new), K>(xs: seq<A>, ys: seq<B>, kx: A -> K, ky: B -> K)
    requires |xs| == |ys| && forall i :: 0 <= i < |xs| ==> ky(ys[i]) == kx(xs[i])
    requires UniqueBy(xs, kx)
    ensures UniqueBy(ys, ky)
  {
  }

  /** Two frames with distinct keys and no key in common concatenate to a frame
      with distinct keys. */
  lemma UniqueConcat<T(!new), K>(a: seq<T>, b: seq<T>, key: T -> K)
    requires UniqueBy(a, key) && UniqueBy(b, key) && KeySet(a, key) !! KeySet(b, key)
    ensures UniqueBy(a + b, key)
  {
    var ab := a + b;
    forall i, j | 0 <= i < j < |ab| ensures key(ab[i]) != key(ab[j]) {
      if j < |a| {
        assert ab[i] == a[i] && ab[j] == a[j];
      } else if i < |a| {
        assert ab[i] == a[i] && ab[j] == b[j - |a|];
        assert key(a[i]) in KeySet(a, key);
        assert key(b[j - |a|]) in KeySet(b, key);
      } else {
        assert ab[i] == b[i - |a|] && ab[j] == b[j - |a|];
      }
    }
  }

  lemma {:induction false} UnmatchedUnique<K, R(!new)>(rs: seq<R>, rk: R -> K, keys: set<K>)
    requires UniqueBy(rs, rk)
    ensures UniqueBy(Unmatched(rs, rk, keys), rk)
  {
    if rs != [] {
      UnmatchedUnique(rs[1..], rk, keys);
      var t := Unmatched(rs[1..], rk, keys);
      if rk(rs[0]) !in keys {
        forall j | 0 <= j < |t| ensures rk(rs[0]) != rk(t[j]) {
          assert t[j] in rs[1..];
          var q :| 0 <= q < |rs[1..]| && rs[1..][q] == t[j];
          assert rs[q + 1] == t[j];
        }
        var u := [rs[0]] + t;
        forall i, j | 0 <= i < j < |u| ensures rk(u[i]) != rk(u[j]) {
          if i > 0 {
            assert u[i] == t[i - 1] && u[j] == t[j - 1];
          }
        }
      }
    }
  }

  /** Every row of either input survives an outer merge (paired or alone). */
  lemma OuterJoinKeepsRows<K, L(!new), R(!new)>(ls: seq<L>, rs: seq<R>, lk: L -> K, rk: R -> K)
    ensures forall x :: x in ls ==> exists j :: j in OuterJoin(ls, rs, lk, rk) && !j.RightOnly? && j.l == x
    ensures forall y :: y in rs ==> exists j :: j in OuterJoin(ls, rs, lk, rk) && !j.LeftOnly? && j.r == y
  {
    var lp := LeftPart(ls, rs, lk, rk);
    var extra := Unmatched(rs, rk, KeySet(ls, lk));
    var rp := seq(|extra|, i requires 0 <= i < |extra| => RightOnly(extra[i]));
    assert OuterJoin(ls, rs, lk, rk) == lp + rp;
    LeftPartKeepsRows(ls, rs, lk, rk);
    forall y | y in rs
      ensures exists j: Joined<L, R> :: j in lp + rp && !j.LeftOnly? && j.r == y
    {
      if rk(y) in KeySet(ls, lk) {
        var x :| x in ls && lk(x) == rk(y);
        LeftPartPairs(ls, rs, lk, rk, x, y);
      } else {
        assert y in extra;
        var i :| 0 <= i < |extra| && extra[i] == y;
        assert rp[i] in lp + rp;
      }
    }
  }

  lemma {:induction false} LeftPartKeepsRows<K, L(!new), R(!new)>(ls: seq<L>, rs: seq<R>, lk: L -> K, rk: R -> K)
    ensures forall x :: x in ls ==> exists j :: j in LeftPart(ls, rs, lk, rk) && !j.RightOnly? && j.l == x
  {
    if ls != [] {
      LeftPartKeepsRows(ls[1..], rs, lk, rk);
      var e := Expand(ls[0], MatchesOf(rs, rk, lk(ls[0])));
      var rest := LeftPart(ls[1..], rs, lk, rk);
      assert LeftPart(ls, rs, lk, rk) == e + rest;
      forall x | x in ls
        ensures exists j: Joined<L, R> :: j in e + rest && !j.RightOnly? && j.l == x
      {
        if x == ls[0] {
          assert e[0] in e + rest;
        } else {
          assert x in ls[1..];
          var j :| j in rest && !j.RightOnly? && j.l == x;
          assert j in e + rest;
        }
      }
    }
  }

  /** A left row and a right row with the same key are paired in the merge. */
  lemma {:induction false} LeftPartPairs<K, L(!new), R(!new)>(ls: seq<L>, rs: seq<R>, lk: L -> K, rk: R -> K, x: L, y: R)
    requires x in ls && y in rs && lk(x) == rk(y)
    ensures Both(x, y) in LeftPart(ls, rs, lk, rk)
  {
    if ls[0] == x {
      var m := MatchesOf(rs, rk, lk(x));
      assert y in m;
      var i :| 0 <= i < |m| && m[i] == y;
      assert Expand(x, m)[i] == Both(x, y);
    } else {
      LeftPartPairs(ls[1..], rs, lk, rk, x, y);
    }
  }

  /** A left row and a right row with the same key are paired in the outer merge. */
  lemma OuterJoinPairs<K, L(!new), R(!new)>(ls: seq<L>, rs: seq<R>, lk: L -> K, rk: R -> K, x: L, y: R)
    requires x in ls && y in rs && lk(x) == rk(y)
    ensures Both(x, y) in OuterJoin(ls, rs, lk, rk)
  {
    LeftPartPairs(ls, rs, lk, rk, x, y);
  }

  /** The merged row a left row ends up in, with where it comes from. */
  lemma OuterJoinLeftRow<K, L(!new), R(!new)>(ls: seq<L>, rs: seq<R>, lk: L -> K, rk: R -> K, x: L)
    requires x in ls
    ensures exists k :: 0 <= k < |OuterJoin(ls, rs, lk, rk)| && !OuterJoin(ls, rs, lk, rk)[k].RightOnly?
              && OuterJoin(ls, rs, lk, rk)[k].l == x && Provenance(OuterJoin(ls, rs, lk, rk)[k], ls, rs, lk, rk)
  {
    var js := OuterJoin(ls, rs, lk, rk);
    OuterJoinKeepsRows(ls, rs, lk, rk);
    OuterJoinProvenance(ls, rs, lk, rk);
    var j :| j in js && !j.RightOnly? && j.l == x;
    var k :| 0 <= k < |js| && js[k] == j;
    assert Provenance(js[k], ls, rs, lk, rk);
  }

  /** The merged row a right row ends up in, with where it comes from. */
  lemma OuterJoinRightRow<K, L(!new), R(!new)>(ls: seq<L>, rs: seq<R>, lk: L -> K, rk: R -> K, y: R)
    requires y in rs
    ensures exists k :: 0 <= k < |OuterJoin(ls, rs, lk, rk)| && !OuterJoin(ls, rs, lk, rk)[k].LeftOnly?
              && OuterJoin(ls, rs, lk, rk)[k].r == y && Provenance(OuterJoin(ls, rs, lk, rk)[k], ls, rs, lk, rk)
  {
    var js := OuterJoin(ls, rs, lk, rk);
    OuterJoinKeepsRows(ls, rs, lk, rk);
    OuterJoinProvenance(ls, rs, lk, rk);
    var j :| j in js && !j.LeftOnly? && j.r == y;
    var k :| 0 <= k < |js| && js[k] == j;
    assert Provenance(js[k], ls, rs, lk, rk);
  }
}
