/** Grouping the parsed rows by their `id` column (`agruparYOrdenar`) and the order in which
    the groups are shown (`Object.keys(agrupado).sort()` in `renderSalida`). */
module Grouping {
  import opened Wrappers
  import opened Records
  import opened Sorting

  /** The rows whose `id` is `id`, in input order: what `forEach` + `push` collects. */
  function Bucket(rows: seq<Row>, id: string): (b: seq<Row>)
    ensures |b| <= |rows|
  {
    if rows == [] then []
    else (if rows[0].id == id then [rows[0]] else []) + Bucket(rows[1..], id)
  }

  /** The ids that occur in the rows: the keys of the dictionary. */
  function Ids(rows: seq<Row>): set<string> {
    set r | r in rows :: r.id
  }

  /** The dictionary after the `forEach` loop and before sorting. */
  function Buckets(rows: seq<Row>): map<string, seq<Row>> {
    map id | id in Ids(rows) :: Bucket(rows, id)
  }

  /** The dictionary `agruparYOrdenar` returns: every bucket sorted by date. */
  function Grouped(rows: seq<Row>, desc: bool, dateParse: DateParser): map<string, seq<Row>> {
    map id | id in Ids(rows) :: SortRows(Bucket(rows, id), desc, dateParse)
  }

  lemma {:induction false} BucketAppend(a: seq<Row>, b: seq<Row>, id: string)
    ensures Bucket(a + b, id) == Bucket(a, id) + Bucket(b, id)
    decreases |a|
  {
    if a == [] {
      assert a + b == b;
    } else {
      var ab := a + b;
      assert ab[0] == a[0] && ab[1..] == a[1..] + b;
      BucketAppend(a[1..], b, id);
      assert Bucket(ab, id) == (if a[0].id == id then [a[0]] else []) + Bucket(a[1..] + b, id);
    }
  }

  lemma {:induction false} BucketAbsent(rows: seq<Row>, id: string)
    requires id !in Ids(rows)
    ensures Bucket(rows, id) == []
    decreases |rows|
  {
    if rows != [] {
      assert rows[0] in rows;
      assert Ids(rows[1..]) <= Ids(rows) by {
        forall x | x in Ids(rows[1..]) ensures x in Ids(rows) {
          var r :| r in rows[1..] && r.id == x;
          assert r in rows;
        }
      }
      BucketAbsent(rows[1..], id);
    }
  }

  lemma {:induction false} IdsSnoc(rows: seq<Row>, r: Row)
    ensures Ids(rows + [r]) == Ids(rows) + {r.id}
  {
    var after := rows + [r];
    forall x | x in Ids(after) ensures x in Ids(rows) + {r.id} {
      var y :| y in after && y.id == x;
      if y != r { assert y in rows; }
    }
    forall x | x in Ids(rows) ensures x in Ids(after) {
      var y :| y in rows && y.id == x;
      assert y in after;
    }
    assert r in after;
  }

  /** One `forEach` step: the row goes onto the end of its bucket, which is created empty
      when its id is new. */
  function Push(m: map<string, seq<Row>>, r: Row): map<string, seq<Row>> {
    m[r.id := (if r.id in m then m[r.id] else []) + [r]]
  }

  /** One more row adds it to the end of its own bucket and changes no other bucket. */
  lemma {:induction false} BucketsSnoc(rows: seq<Row>, r: Row)
    ensures Buckets(rows + [r]) == Push(Buckets(rows), r)
  {
    var after := rows + [r];
    var m := Push(Buckets(rows), r);
    IdsSnoc(rows, r);
    assert Buckets(after).Keys == m.Keys;
    if r.id !in Ids(rows) {
      BucketAbsent(rows, r.id);
    }
    forall id | id in m ensures Buckets(after)[id] == m[id] {
      BucketAppend(rows, [r], id);
      assert Bucket([r], id) == if r.id == id then [r] else [];
    }
  }

  /** The first loop of `agruparYOrdenar`, with a dictionary that holds only its own keys
      (a `Map`, or an object without prototype): each row is pushed onto the end of the
      bucket of its id, which is created empty the first time the id is seen. */
  method CollectBuckets(rows: seq<Row>) returns (buckets: map<string, seq<Row>>)
    ensures buckets == Buckets(rows)
  {
    buckets := map[];
    var i := 0;
    while i < |rows|
      invariant 0 <= i <= |rows|
      invariant buckets == Buckets(rows[..i])
    {
      var r := rows[i];
      ghost var before := buckets;
      if r.id !in buckets {
        buckets := buckets[r.id := []];
      }
      ghost var created := buckets;
      buckets := buckets[r.id := buckets[r.id] + [r]];
      CollectStep(rows, i, before, created, buckets);
      i := i + 1;
    }
    assert rows[..i] == rows;
  }

  lemma CollectStep(rows: seq<Row>, i: nat, before: map<string, seq<Row>>,
                    created: map<string, seq<Row>>, after: map<string, seq<Row>>)
    requires i < |rows| && before == Buckets(rows[..i])
    requires created == if rows[i].id !in before then before[rows[i].id := []] else before
    requires rows[i].id in created && after == created[rows[i].id := created[rows[i].id] + [rows[i]]]
    ensures after == Buckets(rows[..i + 1])
  {
    assert after == Push(before, rows[i]);
    BucketsSnoc(rows[..i], rows[i]);
    assert rows[..i + 1] == rows[..i] + [rows[i]];
  }

  /** The second loop of `agruparYOrdenar`: every bucket is sorted by date, in place. */
  method SortBuckets(buckets: map<string, seq<Row>>, desc: bool, dateParse: DateParser) returns (groups: map<string, seq<Row>>)
    ensures groups == SortEach(buckets, desc, dateParse)
  {
    groups := buckets;
    var pending := buckets.Keys;
    while pending != {}
      invariant pending <= buckets.Keys && groups.Keys == buckets.Keys
      invariant forall id :: id in groups ==>
        groups[id] == if id in pending then buckets[id] else SortRows(buckets[id], desc, dateParse)
      decreases pending
    {
      var id :| id in pending;
      groups := groups[id := SortRows(groups[id], desc, dateParse)];
      pending := pending - {id};
    }
  }

  /** `agruparYOrdenar`: the buckets, then every bucket sorted by date. */
  method GroupAndSort(rows: seq<Row>, desc: bool, dateParse: DateParser) returns (groups: map<string, seq<Row>>)
    ensures groups == Grouped(rows, desc, dateParse)
  {
    var buckets := CollectBuckets(rows);
    groups := SortBuckets(buckets, desc, dateParse);
    GroupedSortsBuckets(rows, desc, dateParse);
  }

  /** Every bucket of `m` sorted by date. */
  function SortEach(m: map<string, seq<Row>>, desc: bool, dateParse: DateParser): map<string, seq<Row>> {
    map id | id in m :: SortRows(m[id], desc, dateParse)
  }

  lemma GroupedSortsBuckets(rows: seq<Row>, desc: bool, dateParse: DateParser)
    ensures Grouped(rows, desc, dateParse) == SortEach(Buckets(rows), desc, dateParse)
  {
  }

  lemma {:induction false} BucketCount(rows: seq<Row>, id: string, x: Row)
    ensures multiset(Bucket(rows, id))[x] == if x.id == id then multiset(rows)[x] else 0
    decreases |rows|
  {
    if rows != [] {
      BucketCount(rows[1..], id, x);
      assert rows == [rows[0]] + rows[1..];
    }
  }

  /** Partition: every row is in the group of its own id, as often as in the input, and
      in no other group; no group is empty. Before sorting, a group lists its rows in
      input order (`Bucket`); after, in date order with ties in input order. */
  lemma {:induction false} GroupedPartition(rows: seq<Row>, desc: bool, dateParse: DateParser)
    ensures var g := Grouped(rows, desc, dateParse);
      (forall x :: x in rows ==> x.id in g) &&
      (forall id: string, x: Row :: id in g ==> multiset(g[id])[x] == if x.id == id then multiset(rows)[x] else 0) &&
      (forall id :: id in g ==> g[id] != [])
  {
    GroupedCovers(rows, desc, dateParse);
    GroupedCounts(rows, desc, dateParse);
    GroupedNonEmpty(rows, desc, dateParse);
  }

  lemma GroupedCovers(rows: seq<Row>, desc: bool, dateParse: DateParser)
    ensures forall x :: x in rows ==> x.id in Grouped(rows, desc, dateParse)
  {
    forall x | x in rows ensures x.id in Ids(rows) {
    }
  }

  lemma GroupedCounts(rows: seq<Row>, desc: bool, dateParse: DateParser)
    ensures var g := Grouped(rows, desc, dateParse);
      forall id: string, x: Row :: id in g ==> multiset(g[id])[x] == if x.id == id then multiset(rows)[x] else 0
  {
    forall id: string, x: Row | id in Ids(rows)
      ensures multiset(Grouped(rows, desc, dateParse)[id])[x] == if x.id == id then multiset(rows)[x] else 0
    {
      GroupCount(rows, desc, dateParse, id, x);
    }
  }

  lemma GroupedNonEmpty(rows: seq<Row>, desc: bool, dateParse: DateParser)
    ensures var g := Grouped(rows, desc, dateParse);
      forall id :: id in g ==> g[id] != []
  {
    forall id | id in Ids(rows) ensures Grouped(rows, desc, dateParse)[id] != [] {
      var r := IdWitness(rows, id);
      GroupCount(rows, desc, dateParse, id, r);
    }
  }

  lemma IdWitness(rows: seq<Row>, id: string) returns (r: Row)
    requires id in Ids(rows)
    ensures r in rows && r.id == id
  {
    r :| r in rows && r.id == id;
  }

  lemma GroupCount(rows: seq<Row>, desc: bool, dateParse: DateParser, id: string, x: Row)
    requires id in Ids(rows)
    ensures multiset(Grouped(rows, desc, dateParse)[id])[x] == if x.id == id then multiset(rows)[x] else 0
  {
    SortRowsPermutes(Bucket(rows, id), desc, dateParse);
    BucketCount(rows, id, x);
  }

  /** Each group is in date order, and rows of equal date keep their input order. */
  lemma {:induction false} GroupedOrder(rows: seq<Row>, desc: bool, dateParse: DateParser, id: string)
    requires id in Grouped(rows, desc, dateParse)
    ensures var g := Grouped(rows, desc, dateParse)[id];
      SortedBy(g, desc, dateParse) &&
      forall v :: WithKey(g, v, dateParse) == WithKey(Bucket(rows, id), v, dateParse)
  {
    SortRowsSorted(Bucket(rows, id), desc, dateParse);
    forall v ensures WithKey(SortRows(Bucket(rows, id), desc, dateParse), v, dateParse) == WithKey(Bucket(rows, id), v, dateParse) {
      SortRowsStable(Bucket(rows, id), v, desc, dateParse);
    }
  }

  /** The names every plain JavaScript object inherits from `Object.prototype`. */
  const Inherited: set<string> := {
    "constructor", "__defineGetter__", "__defineSetter__", "hasOwnProperty",
    "__lookupGetter__", "__lookupSetter__", "isPrototypeOf", "propertyIsEnumerable",
    "toString", "valueOf", "__proto__", "toLocaleString"
  }

  /** The `forEach` loop as written, over a plain object `{}`: `agrupado[id]` finds an
      inherited function (or `Object.prototype` itself for `__proto__`), which is truthy,
      so no array is created and the following `.push` throws a `TypeError` (`None`). */
  function BucketsAsWritten(rows: seq<Row>): Option<map<string, seq<Row>>>
    decreases |rows|
  {
    if rows == [] then Some(map[])
    else
      match BucketsAsWritten(rows[..|rows| - 1])
      case None => None
      case Some(acc) =>
        var r := rows[|rows| - 1];
        if r.id in acc then Some(acc[r.id := acc[r.id] + [r]])
        else if r.id in Inherited then None
        else Some(acc[r.id := [r]])
  }

  lemma {:induction false} AsWrittenKeys(rows: seq<Row>)
    ensures BucketsAsWritten(rows).Some? ==> BucketsAsWritten(rows).value.Keys !! Inherited
    decreases |rows|
  {
    if rows != [] {
      AsWrittenKeys(rows[..|rows| - 1]);
    }
  }

  lemma {:induction false} AsWrittenNone(rows: seq<Row>, i: nat)
    requires i < |rows| && rows[i].id in Inherited
    ensures BucketsAsWritten(rows) == None
    decreases |rows|
  {
    var front := rows[..|rows| - 1];
    AsWrittenKeys(front);
    if i < |rows| - 1 {
      AsWrittenNone(front, i);
    }
  }

  lemma {:induction false} AsWrittenSome(rows: seq<Row>)
    requires forall i :: 0 <= i < |rows| ==> rows[i].id !in Inherited
    ensures BucketsAsWritten(rows) == Some(Buckets(rows))
    decreases |rows|
  {
    if rows == [] {
      assert Buckets(rows) == map[];
    } else {
      var front := rows[..|rows| - 1];
      var r := rows[|rows| - 1];
      assert forall i :: 0 <= i < |front| ==> front[i] == rows[i];
      AsWrittenSome(front);
      var acc := Buckets(front);
      assert r.id !in Inherited;
      assert BucketsAsWritten(front) == Some(acc);
      if r.id in acc {
        assert BucketsAsWritten(rows) == Some(acc[r.id := acc[r.id] + [r]]);
      } else {
        assert BucketsAsWritten(rows) == Some(acc[r.id := [r]]);
        assert [] + [r] == [r];
      }
      assert BucketsAsWritten(rows) == Some(Push(acc, r));
      assert Buckets(rows) == Push(acc, r) by {
        BucketsSnoc(front, r);
        assert front + [r] == rows;
      }
    }
  }

  /** The loop as written throws exactly when some row's id names an inherited property,
      and otherwise builds the same buckets as `GroupAndSort`. */
  lemma {:induction false} PrototypeIdsThrow(rows: seq<Row>)
    ensures BucketsAsWritten(rows).None? <==> exists i :: 0 <= i < |rows| && rows[i].id in Inherited
    ensures BucketsAsWritten(rows).Some? ==> BucketsAsWritten(rows).value == Buckets(rows)
  {
    if exists i :: 0 <= i < |rows| && rows[i].id in Inherited {
      var i :| 0 <= i < |rows| && rows[i].id in Inherited;
      AsWrittenNone(rows, i);
    } else {
      AsWrittenSome(rows);
    }
  }

  /** The pasted line `T1,constructor,2024-01-01` makes the Process button throw. */
  lemma ConstructorIdThrows()
    ensures BucketsAsWritten([Row("T1", "constructor", "2024-01-01", "T1,constructor,2024-01-01")]) == None
  {
    var rows := [Row("T1", "constructor", "2024-01-01", "T1,constructor,2024-01-01")];
    AsWrittenNone(rows, 0);
  }

  /** JavaScript's default `sort()` order on strings: by character code, a proper prefix
      first. */
  predicate LexLess(a: string, b: string)
    decreases |a|
  {
    if a == [] then b != []
    else if b == [] then false
    else if a[0] != b[0] then a[0] < b[0]
    else LexLess(a[1..], b[1..])
  }

  lemma {:induction false} LexIrreflexive(a: string)
    ensures !LexLess(a, a)
    decreases |a|
  {
    if a != [] {
      LexIrreflexive(a[1..]);
    }
  }

  lemma {:induction false} LexTotal(a: string, b: string)
    ensures a == b || LexLess(a, b) || LexLess(b, a)
    ensures !(LexLess(a, b) && LexLess(b, a))
    decreases |a|
  {
    if a != [] && b != [] && a[0] == b[0] {
      LexTotal(a[1..], b[1..]);
      assert a == [a[0]] + a[1..] && b == [b[0]] + b[1..];
    }
  }

  lemma {:induction false} LexTransitive(a: string, b: string, c: string)
    requires LexLess(a, b) && LexLess(b, c)
    ensures LexLess(a, c)
    decreases |a|
  {
    if a != [] && a[0] == b[0] && b[0] == c[0] {
      LexTransitive(a[1..], b[1..], c[1..]);
    }
  }

  ghost predicate StrictlySorted(s: seq<string>) {
    forall i, j :: 0 <= i < j < |s| ==> LexLess(s[i], s[j])
  }

  function InsertKey(k: string, s: seq<string>): (r: seq<string>)
    ensures |r| == |s| + 1
  {
    if s == [] || LexLess(k, s[0]) then [k] + s else [s[0]] + InsertKey(k, s[1..])
  }

  lemma {:induction false} ConsStrict(x: string, t: seq<string>)
    requires StrictlySorted(t)
    requires forall j :: 0 <= j < |t| ==> LexLess(x, t[j])
    ensures StrictlySorted([x] + t)
  {
    var r := [x] + t;
    forall i, j | 0 <= i < j < |r| ensures LexLess(r[i], r[j]) {
      assert r[j] == t[j - 1];
      if i > 0 { assert r[i] == t[i - 1]; }
    }
  }

  lemma {:induction false} InsertKeySorted(k: string, s: seq<string>)
    requires StrictlySorted(s) && k !in s
    ensures StrictlySorted(InsertKey(k, s))
    ensures forall x :: x in InsertKey(k, s) <==> x == k || x in s
    decreases |s|
  {
    if s == [] || LexLess(k, s[0]) {
      forall j | 0 <= j < |s| ensures LexLess(k, s[j]) {
        if j > 0 { LexTransitive(k, s[0], s[j]); }
      }
      ConsStrict(k, s);
    } else {
      LexTotal(k, s[0]);
      assert s == [s[0]] + s[1..];
      var rest := InsertKey(k, s[1..]);
      InsertKeySorted(k, s[1..]);
      forall j | 0 <= j < |rest| ensures LexLess(s[0], rest[j]) {
        assert rest[j] in rest;
        if rest[j] != k {
          var m :| 0 <= m < |s[1..]| && s[1..][m] == rest[j];
          assert s[m + 1] == rest[j];
        }
      }
      ConsStrict(s[0], rest);
    }
  }

  /** `Object.keys(agrupado).sort()`: the ids of the groups, each once, in string order. */
  method SortKeys(ids: set<string>) returns (keys: seq<string>)
    ensures StrictlySorted(keys)
    ensures forall k :: k in keys <==> k in ids
  {
    keys := [];
    var rest := ids;
    while rest != {}
      invariant rest <= ids
      invariant StrictlySorted(keys)
      invariant forall k :: k in keys <==> k in ids - rest
      decreases rest
    {
      var k :| k in rest;
      InsertKeySorted(k, keys);
      keys := InsertKey(k, keys);
      rest := rest - {k};
    }
  }

  lemma {:induction false} SharedNonEmpty(a: seq<string>, b: seq<string>)
    ensures (forall k :: k in a <==> k in b) && b != [] ==> a != []
  {
    if b != [] {
      assert b[0] in b;
    }
  }

  lemma {:induction false} FirstIsLeast(s: seq<string>, x: string)
    requires StrictlySorted(s) && x in s
    ensures x == s[0] || LexLess(s[0], x)
  {
  }

  lemma {:induction false} NotInTail(s: seq<string>)
    requires StrictlySorted(s) && s != []
    ensures s[0] !in s[1..]
  {
    LexIrreflexive(s[0]);
    forall m | 0 <= m < |s[1..]| ensures s[1..][m] != s[0] {
      assert LexLess(s[0], s[m + 1]);
    }
  }

  /** There is one strictly sorted listing of a set of ids: the order of the groups on
      screen does not depend on the order in which the keys were collected. */
  lemma {:induction false} SortedKeysUnique(a: seq<string>, b: seq<string>)
    requires StrictlySorted(a) && StrictlySorted(b)
    requires forall k :: k in a <==> k in b
    ensures a == b
    decreases |a|
  {
    SharedNonEmpty(a, b);
    SharedNonEmpty(b, a);
    if a != [] && b != [] {
      FirstIsLeast(a, b[0]);
      FirstIsLeast(b, a[0]);
      LexTotal(a[0], b[0]);
      LexIrreflexive(a[0]);
      assert a[0] == b[0];
      assert a == [a[0]] + a[1..] && b == [b[0]] + b[1..];
      assert a[0] !in a[1..] by { NotInTail(a); }
      assert b[0] !in b[1..] by { NotInTail(b); }
      forall k ensures k in a[1..] <==> k in b[1..] {
        assert k in a <==> k == a[0] || k in a[1..];
        assert k in b <==> k == b[0] || k in b[1..];
      }
      assert StrictlySorted(a[1..]) && StrictlySorted(b[1..]);
      SortedKeysUnique(a[1..], b[1..]);
      assert a == [a[0]] + a[1..] && b == [b[0]] + b[1..];
    }
  }
}
