/** Ordering the rows of one group by date: `parseFecha` and the comparator that
    `agruparYOrdenar` hands to `Array.prototype.sort`. ECMAScript 2019 (section 23.1.3.30,
    `Array.prototype.sort`) requires that sort to be stable, so the model is a stable
    insertion sort; the order it produces is the only one a stable sort can produce
    (`SortedUnique`). */
module Sorting {
  import opened Wrappers
  import opened Records

  /** `Date.parse`, which is not modelled: `None` stands for `NaN`. */
  type DateParser = string -> Option<int>

  /** `parseFecha`: the time stamp of a date text; empty or unparseable text counts as 0,
      the epoch. */
  function FechaKey(fecha: string, dateParse: DateParser): (k: int)
    ensures fecha == "" || dateParse(fecha).None? ==> k == 0
    ensures fecha != "" && dateParse(fecha).Some? ==> k == dateParse(fecha).value
  {
    if fecha == "" then 0
    else match dateParse(fecha)
      case None => 0
      case Some(ts) => ts
  }

  function Key(r: Row, dateParse: DateParser): int {
    FechaKey(r.fecha, dateParse)
  }

  /** The comparator `(a, b) => ordenDesc ? key(b) - key(a) : key(a) - key(b)` is
      `Rank(a) - Rank(b)`: a row may come first when its rank is not larger. */
  function Rank(r: Row, desc: bool, dateParse: DateParser): int {
    if desc then -Key(r, dateParse) else Key(r, dateParse)
  }

  ghost predicate SortedBy(s: seq<Row>, desc: bool, dateParse: DateParser) {
    forall i, j :: 0 <= i < j < |s| ==> Rank(s[i], desc, dateParse) <= Rank(s[j], desc, dateParse)
  }

  /** The rows of `s` whose date key is `v`, in their order in `s`. Stability says that
      sorting leaves each of these subsequences as it was. */
  function WithKey(s: seq<Row>, v: int, dateParse: DateParser): seq<Row> {
    if s == [] then []
    else (if Key(s[0], dateParse) == v then [s[0]] else []) + WithKey(s[1..], v, dateParse)
  }

  /** Puts `x` in front of the first row of `t` that may not precede it: before every row
      of equal rank, which keeps earlier input first. */
  function Insert(x: Row, t: seq<Row>, desc: bool, dateParse: DateParser): (r: seq<Row>)
    ensures |r| == |t| + 1
  {
    if t == [] || Rank(x, desc, dateParse) <= Rank(t[0], desc, dateParse) then [x] + t
    else [t[0]] + Insert(x, t[1..], desc, dateParse)
  }

  /** `group.sort(comparator)` for a stable sort. */
  function SortRows(s: seq<Row>, desc: bool, dateParse: DateParser): (r: seq<Row>)
    ensures |r| == |s|
  {
    if s == [] then [] else Insert(s[0], SortRows(s[1..], desc, dateParse), desc, dateParse)
  }

  function Reverse(s: seq<Row>): (r: seq<Row>)
    ensures |r| == |s|
  {
    if s == [] then [] else Reverse(s[1..]) + [s[0]]
  }

  lemma {:induction false} InsertPermutes(x: Row, t: seq<Row>, desc: bool, dateParse: DateParser)
    ensures multiset(Insert(x, t, desc, dateParse)) == multiset([x] + t)
    decreases |t|
  {
    if !(t == [] || Rank(x, desc, dateParse) <= Rank(t[0], desc, dateParse)) {
      InsertPermutes(x, t[1..], desc, dateParse);
      assert t == [t[0]] + t[1..];
    }
  }

  lemma {:induction false} ConsSorted(x: Row, t: seq<Row>, desc: bool, dateParse: DateParser)
    requires SortedBy(t, desc, dateParse)
    requires forall j :: 0 <= j < |t| ==> Rank(x, desc, dateParse) <= Rank(t[j], desc, dateParse)
    ensures SortedBy([x] + t, desc, dateParse)
  {
    var r := [x] + t;
    forall i, j | 0 <= i < j < |r|
      ensures Rank(r[i], desc, dateParse) <= Rank(r[j], desc, dateParse)
    {
      assert r[j] == t[j - 1];
      if i > 0 { assert r[i] == t[i - 1]; }
    }
  }

  lemma {:induction false} InsertSorted(x: Row, t: seq<Row>, desc: bool, dateParse: DateParser)
    requires SortedBy(t, desc, dateParse)
    ensures SortedBy(Insert(x, t, desc, dateParse), desc, dateParse)
    decreases |t|
  {
    if t == [] || Rank(x, desc, dateParse) <= Rank(t[0], desc, dateParse) {
      forall j | 0 <= j < |t| ensures Rank(x, desc, dateParse) <= Rank(t[j], desc, dateParse) {
        if j > 0 { assert Rank(t[0], desc, dateParse) <= Rank(t[j], desc, dateParse); }
      }
      ConsSorted(x, t, desc, dateParse);
    } else {
      var rest := Insert(x, t[1..], desc, dateParse);
      assert SortedBy(t[1..], desc, dateParse);
      InsertSorted(x, t[1..], desc, dateParse);
      InsertPermutes(x, t[1..], desc, dateParse);
      forall j | 0 <= j < |rest| ensures Rank(t[0], desc, dateParse) <= Rank(rest[j], desc, dateParse) {
        assert rest[j] in multiset([x] + t[1..]);
        assert rest[j] in [x] + t[1..];
        if rest[j] != x {
          var k :| 0 <= k < |t[1..]| && t[1..][k] == rest[j];
          assert t[k + 1] == rest[j];
        }
      }
      ConsSorted(t[0], rest, desc, dateParse);
    }
  }

  lemma {:induction false} InsertStable(x: Row, t: seq<Row>, v: int, desc: bool, dateParse: DateParser)
    ensures WithKey(Insert(x, t, desc, dateParse), v, dateParse) == WithKey([x] + t, v, dateParse)
    decreases |t|
  {
    var r := Insert(x, t, desc, dateParse);
    assert ([x] + t)[1..] == t;
    if !(t == [] || Rank(x, desc, dateParse) <= Rank(t[0], desc, dateParse)) {
      var rest := Insert(x, t[1..], desc, dateParse);
      InsertStable(x, t[1..], v, desc, dateParse);
      assert r[1..] == rest;
      assert ([x] + t[1..])[1..] == t[1..];
      assert !(Key(t[0], dateParse) == v && Key(x, dateParse) == v);
      var tx := if Key(x, dateParse) == v then [x] else [];
      var t0 := if Key(t[0], dateParse) == v then [t[0]] else [];
      assert tx + t0 == t0 + tx;
    }
  }

  /** The sorted group is ordered by date: non-increasing keys when `desc`, non-decreasing
      keys otherwise. */
  lemma {:induction false} SortRowsSorted(s: seq<Row>, desc: bool, dateParse: DateParser)
    ensures SortedBy(SortRows(s, desc, dateParse), desc, dateParse)
    decreases |s|
  {
    if s != [] {
      SortRowsSorted(s[1..], desc, dateParse);
      InsertSorted(s[0], SortRows(s[1..], desc, dateParse), desc, dateParse);
    }
  }

  /** The sorted group holds the same rows, each as often as before. */
  lemma {:induction false} SortRowsPermutes(s: seq<Row>, desc: bool, dateParse: DateParser)
    ensures multiset(SortRows(s, desc, dateParse)) == multiset(s)
    decreases |s|
  {
    if s != [] {
      SortRowsPermutes(s[1..], desc, dateParse);
      InsertPermutes(s[0], SortRows(s[1..], desc, dateParse), desc, dateParse);
      assert s == [s[0]] + s[1..];
    }
  }

  /** Stability: rows with equal date keys (unparseable dates included, at key 0) keep
      their input order, whichever the direction. */
  lemma {:induction false} SortRowsStable(s: seq<Row>, v: int, desc: bool, dateParse: DateParser)
    ensures WithKey(SortRows(s, desc, dateParse), v, dateParse) == WithKey(s, v, dateParse)
    decreases |s|
  {
    if s != [] {
      var t := SortRows(s[1..], desc, dateParse);
      SortRowsStable(s[1..], v, desc, dateParse);
      InsertStable(s[0], t, v, desc, dateParse);
      assert ([s[0]] + t)[1..] == t;
    }
  }

  lemma {:induction false} WithKeyFirst(s: seq<Row>, dateParse: DateParser)
    requires s != []
    ensures WithKey(s, Key(s[0], dateParse), dateParse) == [s[0]] + WithKey(s[1..], Key(s[0], dateParse), dateParse)
  {
  }

  lemma {:induction false} WithKeyMember(s: seq<Row>, v: int, dateParse: DateParser, x: Row)
    ensures x in WithKey(s, v, dateParse) ==> x in s && Key(x, dateParse) == v
    decreases |s|
  {
    if s != [] {
      WithKeyMember(s[1..], v, dateParse, x);
    }
  }

  lemma {:induction false} WithKeyPresent(s: seq<Row>, i: nat, dateParse: DateParser)
    requires i < |s|
    ensures WithKey(s, Key(s[i], dateParse), dateParse) != []
    decreases i
  {
    if i > 0 {
      WithKeyPresent(s[1..], i - 1, dateParse);
      assert s[1..][i - 1] == s[i];
    }
  }

  lemma {:induction false} EmptyByKeys(s: seq<Row>, t: seq<Row>, dateParse: DateParser)
    ensures s == [] && (forall v :: WithKey(s, v, dateParse) == WithKey(t, v, dateParse)) ==> t == []
  {
    if t != [] {
      WithKeyPresent(t, 0, dateParse);
    }
  }

  /** Two sequences that are both sorted and hold the same rows of each date key in the
      same order are equal: a stable sort has exactly one possible result. */
  lemma {:induction false} SortedUnique(a: seq<Row>, b: seq<Row>, desc: bool, dateParse: DateParser)
    requires SortedBy(a, desc, dateParse) && SortedBy(b, desc, dateParse)
    requires forall v :: WithKey(a, v, dateParse) == WithKey(b, v, dateParse)
    ensures a == b
    decreases |a|
  {
    EmptyByKeys(a, b, dateParse);
    EmptyByKeys(b, a, dateParse);
    if a != [] && b != [] {
      var ka := Key(a[0], dateParse);
      var kb := Key(b[0], dateParse);
      MinRankAgrees(a, b, desc, dateParse);
      MinRankAgrees(b, a, desc, dateParse);
      assert ka == kb;
      WithKeyFirst(a, dateParse);
      WithKeyFirst(b, dateParse);
      assert WithKey(a, ka, dateParse) == WithKey(b, ka, dateParse);
      assert WithKey(a, ka, dateParse)[0] == a[0];
      assert WithKey(b, kb, dateParse)[0] == b[0];
      forall v ensures WithKey(a[1..], v, dateParse) == WithKey(b[1..], v, dateParse) {
        assert WithKey(a, v, dateParse) == WithKey(b, v, dateParse);
        if v == ka {
          assert WithKey(a[1..], v, dateParse) == WithKey(a, v, dateParse)[1..];
          assert WithKey(b[1..], v, dateParse) == WithKey(b, v, dateParse)[1..];
        } else {
          assert WithKey(a, v, dateParse) == WithKey(a[1..], v, dateParse);
          assert WithKey(b, v, dateParse) == WithKey(b[1..], v, dateParse);
        }
      }
      SortedUnique(a[1..], b[1..], desc, dateParse);
      assert a == [a[0]] + a[1..] && b == [b[0]] + b[1..];
    }
  }

  /** The first row of a sorted sequence is ranked no later than the first row of any
      sequence holding the same rows of each key. */
  lemma {:induction false} MinRankAgrees(a: seq<Row>, b: seq<Row>, desc: bool, dateParse: DateParser)
    requires a != [] && b != []
    requires SortedBy(b, desc, dateParse)
    requires forall v :: WithKey(a, v, dateParse) == WithKey(b, v, dateParse)
    ensures Rank(b[0], desc, dateParse) <= Rank(a[0], desc, dateParse)
  {
    var ka := Key(a[0], dateParse);
    WithKeyPresent(a, 0, dateParse);
    var wb := WithKey(b, ka, dateParse);
    assert wb != [];
    WithKeyMember(b, ka, dateParse, wb[0]);
    var j :| 0 <= j < |b| && b[j] == wb[0];
    if j > 0 {
      assert Rank(b[0], desc, dateParse) <= Rank(b[j], desc, dateParse);
    }
  }

  lemma {:induction false} WithKeyAppend(a: seq<Row>, b: seq<Row>, v: int, dateParse: DateParser)
    ensures WithKey(a + b, v, dateParse) == WithKey(a, v, dateParse) + WithKey(b, v, dateParse)
    decreases |a|
  {
    if a == [] {
      assert a + b == b;
    } else {
      WithKeyAppend(a[1..], b, v, dateParse);
      assert (a + b)[1..] == a[1..] + b;
    }
  }

  lemma {:induction false} WithKeyReverse(s: seq<Row>, v: int, dateParse: DateParser)
    ensures WithKey(Reverse(s), v, dateParse) == Reverse(WithKey(s, v, dateParse))
    decreases |s|
  {
    if s != [] {
      WithKeyReverse(s[1..], v, dateParse);
      WithKeyAppend(Reverse(s[1..]), [s[0]], v, dateParse);
      var h := if Key(s[0], dateParse) == v then [s[0]] else [];
      ReverseAppend(h, WithKey(s[1..], v, dateParse));
      assert WithKey([s[0]], v, dateParse) == h + WithKey([], v, dateParse);
      assert Reverse(h) == h;
    }
  }

  lemma {:induction false} ReverseAppend(a: seq<Row>, b: seq<Row>)
    ensures Reverse(a + b) == Reverse(b) + Reverse(a)
    decreases |a|
  {
    if a == [] {
      assert a + b == b;
    } else {
      ReverseAppend(a[1..], b);
      assert (a + b)[1..] == a[1..] + b;
    }
  }

  lemma {:induction false} ReverseReverse(s: seq<Row>)
    ensures Reverse(Reverse(s)) == s
    decreases |s|
  {
    if s != [] {
      ReverseReverse(s[1..]);
      ReverseAppend(Reverse(s[1..]), [s[0]]);
      assert Reverse([s[0]]) == [s[0]];
    }
  }

  lemma {:induction false} ReverseAt(s: seq<Row>, i: nat)
    requires i < |s|
    ensures Reverse(s)[i] == s[|s| - 1 - i]
    decreases |s|
  {
    if i < |s| - 1 {
      ReverseAt(s[1..], i);
    }
  }

  lemma {:induction false} ReverseSorted(s: seq<Row>, dateParse: DateParser)
    requires SortedBy(s, false, dateParse)
    ensures SortedBy(Reverse(s), true, dateParse)
  {
    var r := Reverse(s);
    forall i, j | 0 <= i < j < |r| ensures Rank(r[i], true, dateParse) <= Rank(r[j], true, dateParse) {
      ReverseAt(s, i);
      ReverseAt(s, j);
    }
  }

  /** Sorting newest-first gives the oldest-first order of the reversed input, reversed:
      rows with different dates swap places, rows with equal dates keep their input order. */
  lemma {:induction false} DescendingIsReversedAscending(s: seq<Row>, dateParse: DateParser)
    ensures SortRows(s, true, dateParse) == Reverse(SortRows(Reverse(s), false, dateParse))
  {
    var a := SortRows(s, true, dateParse);
    var asc := SortRows(Reverse(s), false, dateParse);
    var b := Reverse(asc);
    SortRowsSorted(s, true, dateParse);
    SortRowsSorted(Reverse(s), false, dateParse);
    ReverseSorted(asc, dateParse);
    forall v ensures WithKey(a, v, dateParse) == WithKey(b, v, dateParse) {
      SortRowsStable(s, v, true, dateParse);
      SortRowsStable(Reverse(s), v, false, dateParse);
      WithKeyReverse(asc, v, dateParse);
      WithKeyReverse(s, v, dateParse);
      ReverseReverse(WithKey(s, v, dateParse));
    }
    SortedUnique(a, b, true, dateParse);
  }

  ghost predicate DistinctKeys(s: seq<Row>, dateParse: DateParser) {
    forall i, j :: 0 <= i < j < |s| ==> Key(s[i], dateParse) != Key(s[j], dateParse)
  }

  lemma {:induction false} WithKeyAbsent(s: seq<Row>, v: int, dateParse: DateParser)
    requires forall i :: 0 <= i < |s| ==> Key(s[i], dateParse) != v
    ensures WithKey(s, v, dateParse) == []
    decreases |s|
  {
    if s != [] {
      WithKeyAbsent(s[1..], v, dateParse);
    }
  }

  lemma {:induction false} WithKeyAtMostOne(s: seq<Row>, v: int, dateParse: DateParser)
    requires DistinctKeys(s, dateParse)
    ensures |WithKey(s, v, dateParse)| <= 1
    decreases |s|
  {
    if s != [] {
      if Key(s[0], dateParse) == v {
        forall i | 0 <= i < |s[1..]| ensures Key(s[1..][i], dateParse) != v {
          assert s[1..][i] == s[i + 1];
        }
        WithKeyAbsent(s[1..], v, dateParse);
      } else {
        WithKeyAtMostOne(s[1..], v, dateParse);
      }
    }
  }

  /** With no two equal dates in a group, flipping the direction exactly reverses it. */
  lemma {:induction false} FlipReversesWithoutTies(s: seq<Row>, dateParse: DateParser)
    requires DistinctKeys(s, dateParse)
    ensures SortRows(s, true, dateParse) == Reverse(SortRows(s, false, dateParse))
  {
    var a := SortRows(Reverse(s), false, dateParse);
    var b := SortRows(s, false, dateParse);
    SortRowsSorted(Reverse(s), false, dateParse);
    SortRowsSorted(s, false, dateParse);
    forall v ensures WithKey(a, v, dateParse) == WithKey(b, v, dateParse) {
      SortRowsStable(Reverse(s), v, false, dateParse);
      SortRowsStable(s, v, false, dateParse);
      WithKeyReverse(s, v, dateParse);
      WithKeyAtMostOne(s, v, dateParse);
      var w := WithKey(s, v, dateParse);
      assert Reverse(w) == w by {
        if |w| == 1 { assert w[1..] == []; }
      }
    }
    SortedUnique(a, b, false, dateParse);
    DescendingIsReversedAscending(s, dateParse);
  }

  /** The head of a sorted group (the row that is highlighted and auto-selected) is the
      earliest input row among those with the extreme date: the latest date when `desc`,
      the earliest otherwise. */
  lemma {:induction false} HeadIsFirstExtreme(s: seq<Row>, desc: bool, dateParse: DateParser) returns (j: nat)
    requires s != []
    ensures j < |s| && SortRows(s, desc, dateParse)[0] == s[j]
    ensures forall i :: 0 <= i < |s| ==> Rank(s[j], desc, dateParse) <= Rank(s[i], desc, dateParse)
    ensures forall i :: 0 <= i < j ==> Rank(s[i], desc, dateParse) > Rank(s[j], desc, dateParse)
  {
    var out := SortRows(s, desc, dateParse);
    var h := out[0];
    var k := Key(h, dateParse);
    SortRowsSorted(s, desc, dateParse);
    SortRowsPermutes(s, desc, dateParse);
    SortRowsStable(s, k, desc, dateParse);
    WithKeyFirst(out, dateParse);
    j := FirstWithKey(s, k, dateParse);
    assert s[j] == h;
    forall i | 0 <= i < |s| ensures Rank(h, desc, dateParse) <= Rank(s[i], desc, dateParse) {
      assert s[i] in multiset(out);
      var m :| 0 <= m < |out| && out[m] == s[i];
      if m > 0 {
        assert Rank(out[0], desc, dateParse) <= Rank(out[m], desc, dateParse);
      }
    }
    forall i | 0 <= i < j ensures Rank(s[i], desc, dateParse) > Rank(h, desc, dateParse) {
      assert Key(s[i], dateParse) != k;
    }
  }

  /** The position of the first row with key `v`, which heads `WithKey(s, v)`. */
  lemma {:induction false} FirstWithKey(s: seq<Row>, v: int, dateParse: DateParser) returns (j: nat)
    requires WithKey(s, v, dateParse) != []
    ensures j < |s| && s[j] == WithKey(s, v, dateParse)[0] && Key(s[j], dateParse) == v
    ensures forall i :: 0 <= i < j ==> Key(s[i], dateParse) != v
    decreases |s|
  {
    if Key(s[0], dateParse) == v {
      j := 0;
    } else {
      var j' := FirstWithKey(s[1..], v, dateParse);
      j := j' + 1;
      forall i | 0 <= i < j ensures Key(s[i], dateParse) != v {
        if i > 0 { assert s[i] == s[1..][i - 1]; }
      }
    }
  }
}
