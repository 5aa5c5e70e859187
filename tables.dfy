/** Rows of a relational table and the filter, lookup and delete operations
    that the catalog's views apply to them through the object-relational mapper. */
module Tables {

  datatype Option<T> = None | Some(value: T)

  /** A stored record: its primary key and its fields. */
  datatype Row<T> = Row(pk: int, rec: T)

  /** Primary keys are unique within a table, as the relational store guarantees. */
  predicate UniquePks<T(!new)>(rows: seq<Row<T>>) {
    forall i, j :: 0 <= i < j < |rows| ==> rows[i].pk != rows[j].pk
  }

  /** The rows of `s` that satisfy `p`, in their stored order (a `.filter(...)` query). */
  function Filter<T(!new)>(p: T -> bool, s: seq<T>): (r: seq<T>)
    ensures |r| <= |s|
    ensures forall k :: 0 <= k < |r| ==> p(r[k])
  {
    if s == [] then []
    else (if p(s[0]) then [s[0]] else []) + Filter(p, s[1..])
  }

  /** A row is in the filtered table exactly when it is in the table and passes `p`. */
  lemma {:induction false} FilterMembership<T(!new)>(p: T -> bool, s: seq<T>)
    ensures forall x :: x in Filter(p, s) <==> x in s && p(x)
  {
    if s != [] {
      assert s == [s[0]] + s[1..];
      FilterMembership(p, s[1..]);
    }
  }

  /** The position of the row whose primary key is `pk` (the lookup of `get_object_or_404`). */
  function IndexOf<T(!new)>(rows: seq<Row<T>>, pk: int): (r: Option<nat>)
    ensures r.Some? ==> r.value < |rows| && rows[r.value].pk == pk
    ensures r.Some? ==> forall j :: 0 <= j < r.value ==> rows[j].pk != pk
    ensures r.None? <==> forall j :: 0 <= j < |rows| ==> rows[j].pk != pk
  {
    if rows == [] then None
    else if rows[0].pk == pk then Some(0)
    else
      match IndexOf(rows[1..], pk)
      case None => None
      case Some(k) => Some(k + 1)
  }

  /** In a table with unique keys, looking up a row's key finds that row. */
  lemma {:induction false} IndexOfUnique<T(!new)>(rows: seq<Row<T>>, i: nat)
    requires UniquePks(rows) && i < |rows|
    ensures IndexOf(rows, rows[i].pk) == Some(i)
  {
    if i > 0 {
      assert rows[0].pk != rows[i].pk;
      IndexOfUnique(rows[1..], i - 1);
    }
  }

  /** Rewriting the fields of one row keeps the keys unique. */
  lemma UpdateKeepsUnique<T(!new)>(rows: seq<Row<T>>, i: nat, rec: T)
    requires UniquePks(rows) && i < |rows|
    ensures UniquePks(rows[i := Row(rows[i].pk, rec)])
  {
    var after := rows[i := Row(rows[i].pk, rec)];
    forall a, b | 0 <= a < b < |after| ensures after[a].pk != after[b].pk {
      assert after[a].pk == rows[a].pk && after[b].pk == rows[b].pk;
    }
  }

  /** With unique keys a row occurs exactly once. */
  lemma UniqueRowOnce<T(!new)>(rows: seq<Row<T>>, i: nat)
    requires UniquePks(rows) && i < |rows|
    ensures multiset(rows)[rows[i]] == 1
  {
    var before, after := rows[..i], rows[i + 1..];
    assert rows == before + [rows[i]] + after;
    forall k | 0 <= k < |before| ensures before[k] != rows[i] {
      assert before[k] == rows[k];
    }
    forall k | 0 <= k < |after| ensures after[k] != rows[i] {
      assert after[k] == rows[i + 1 + k];
    }
  }

  function PkIsNot<T(!new)>(pk: int): Row<T> -> bool {
    (r: Row<T>) => r.pk != pk
  }

  /** The table after `DELETE ... WHERE pk = pk`. */
  function RemovePk<T(!new)>(rows: seq<Row<T>>, pk: int): (r: seq<Row<T>>)
    ensures forall x :: x in r <==> x in rows && x.pk != pk
    ensures UniquePks(rows) ==> UniquePks(r)
  {
    FilterMembership(PkIsNot(pk), rows);
    if UniquePks(rows) then FilterPreservesUnique(PkIsNot(pk), rows); Filter(PkIsNot(pk), rows)
    else Filter(PkIsNot(pk), rows)
  }

  /** A key is found exactly when some row carries it. */
  lemma IndexOfFindsKey<T(!new)>(rows: seq<Row<T>>, k: int)
    ensures IndexOf(rows, k).Some? <==> exists x :: x in rows && x.pk == k
  {
    if IndexOf(rows, k).Some? {
      assert rows[IndexOf(rows, k).value] in rows;
    }
  }

  /** After deleting `pk`, exactly the other keys are still found. */
  lemma RemovePkKeys<T(!new)>(rows: seq<Row<T>>, pk: int, k: int)
    ensures IndexOf(RemovePk(rows, pk), k).Some? <==> IndexOf(rows, k).Some? && k != pk
  {
    IndexOfFindsKey(rows, k);
    IndexOfFindsKey(RemovePk(rows, pk), k);
  }

  lemma {:induction false} FilterAppend<T(!new)>(p: T -> bool, a: seq<T>, b: seq<T>)
    ensures Filter(p, a + b) == Filter(p, a) + Filter(p, b)
  {
    if a == [] {
      assert a + b == b;
    } else {
      assert (a + b)[0] == a[0];
      assert (a + b)[1..] == a[1..] + b;
      FilterAppend(p, a[1..], b);
    }
  }

  lemma {:induction false} FilterSingleton<T(!new)>(p: T -> bool, x: T)
    ensures Filter(p, [x]) == if p(x) then [x] else []
  {
    assert [x][1..] == [];
  }

  /** Nothing is lost or duplicated: each row passing `p` occurs in the result
      exactly as often as in the table, and no other row occurs at all. */
  lemma {:induction false} FilterMultiset<T(!new)>(p: T -> bool, s: seq<T>)
    ensures forall x :: multiset(Filter(p, s))[x] == if p(x) then multiset(s)[x] else 0
  {
    if s != [] {
      assert s == [s[0]] + s[1..];
      FilterMultiset(p, s[1..]);
    }
  }

  /** Filtering keeps everything when every row passes. */
  lemma {:induction false} FilterAll<T(!new)>(p: T -> bool, s: seq<T>)
    requires forall k :: 0 <= k < |s| ==> p(s[k])
    ensures Filter(p, s) == s
  {
    if s != [] {
      FilterAll(p, s[1..]);
      assert s == [s[0]] + s[1..];
    }
  }

  /** A filtered table still has unique keys. */
  lemma {:induction false} FilterPreservesUnique<T(!new)>(p: Row<T> -> bool, s: seq<Row<T>>)
    requires UniquePks(s)
    ensures UniquePks(Filter(p, s))
  {
    if s != [] {
      var tail := s[1..];
      assert UniquePks(tail) by {
        forall i, j | 0 <= i < j < |tail| ensures tail[i].pk != tail[j].pk {
          assert tail[i] == s[i + 1] && tail[j] == s[j + 1];
        }
      }
      FilterPreservesUnique(p, tail);
      var f := Filter(p, tail);
      FilterMembership(p, tail);
      assert forall x :: x in tail ==> x.pk != s[0].pk by {
        forall x | x in tail ensures x.pk != s[0].pk {
          var k :| 0 <= k < |tail| && tail[k] == x;
          assert s[k + 1] == x;
        }
      }
      if p(s[0]) {
        var r := [s[0]] + f;
        forall i, j | 0 <= i < j < |r| ensures r[i].pk != r[j].pk {
          assert r[j] == f[j - 1] && f[j - 1] in f;
          if i > 0 {
            assert r[i] == f[i - 1];
          }
        }
      }
    }
  }

  /** Deleting a key no row carries changes nothing. */
  lemma RemoveAbsentKey<T(!new)>(rows: seq<Row<T>>, pk: int)
    requires forall k :: 0 <= k < |rows| ==> rows[k].pk != pk
    ensures Filter(PkIsNot(pk), rows) == rows
  {
    FilterAll(PkIsNot(pk), rows);
  }

  /** A filter that keeps everything before and after position `i` and drops
      the row at `i` cuts out just that row. */
  lemma {:induction false} FilterSplice<T(!new)>(p: T -> bool, s: seq<T>, i: nat)
    requires i < |s| && !p(s[i])
    requires Filter(p, s[..i]) == s[..i] && Filter(p, s[i + 1..]) == s[i + 1..]
    ensures Filter(p, s) == s[..i] + s[i + 1..]
  {
    var before, after := s[..i], s[i + 1..];
    var front := before + [s[i]];
    assert s == front + after;
    FilterAppend(p, front, after);
    FilterAppend(p, before, [s[i]]);
    FilterSingleton(p, s[i]);
    assert Filter(p, front) == before;
  }

  /** Deleting by key from a table with unique keys removes exactly that one row
      and keeps the others in their order. */
  lemma RemoveOnlyThatRow<T(!new)>(rows: seq<Row<T>>, pk: int, i: nat)
    requires UniquePks(rows) && IndexOf(rows, pk) == Some(i)
    ensures RemovePk(rows, pk) == rows[..i] + rows[i + 1..]
    ensures |RemovePk(rows, pk)| == |rows| - 1
  {
    var before, after := rows[..i], rows[i + 1..];
    forall k | 0 <= k < |before| ensures before[k].pk != pk {
      assert before[k] == rows[k];
    }
    RemoveAbsentKey(before, pk);
    forall k | 0 <= k < |after| ensures after[k].pk != pk {
      assert after[k] == rows[i + 1 + k];
      assert rows[i].pk != rows[i + 1 + k].pk;
    }
    RemoveAbsentKey(after, pk);
    FilterSplice(PkIsNot(pk), rows, i);
  }

  /** Two filters that agree on every stored row select the same rows. */
  lemma {:induction false} FilterAgree<T(!new)>(p: T -> bool, q: T -> bool, s: seq<T>)
    requires forall k :: 0 <= k < |s| ==> p(s[k]) == q(s[k])
    ensures Filter(p, s) == Filter(q, s)
  {
    if s != [] {
      assert p(s[0]) == q(s[0]);
      forall k | 0 <= k < |s[1..]| ensures p(s[1..][k]) == q(s[1..][k]) {
        assert s[1..][k] == s[k + 1];
      }
      FilterAgree(p, q, s[1..]);
    }
  }

  /** Replacing one row changes the number of rows passing `p` by exactly the
      verdicts of `p` on the old and the new row. */
  lemma {:induction false} FilterUpdateLength<T(!new)>(p: T -> bool, s: seq<T>, i: nat, x: T)
    requires i < |s|
    ensures |Filter(p, s[i := x])| ==
            |Filter(p, s)| - (if p(s[i]) then 1 else 0) + (if p(x) then 1 else 0)
  {
    var before, after := s[..i], s[i + 1..];
    assert s == before + [s[i]] + after;
    assert s[i := x] == before + [x] + after;
    FilterAppend(p, before + [s[i]], after);
    FilterAppend(p, before, [s[i]]);
    FilterAppend(p, before + [x], after);
    FilterAppend(p, before, [x]);
    FilterSingleton(p, s[i]);
    FilterSingleton(p, x);
  }

  /** The set of positions whose row passes `p`: an independent account of a `.count()`. */
  function Positions<T(!new)>(p: T -> bool, s: seq<T>, n: nat): set<nat>
    requires n <= |s|
  {
    set i: nat | i < n && p(s[i])
  }

  /** The length of a filtered table is the number of positions that pass. */
  lemma {:induction false} FilterCardinality<T(!new)>(p: T -> bool, s: seq<T>, n: nat)
    requires n <= |s|
    ensures |Filter(p, s[..n])| == |Positions(p, s, n)|
  {
    if n == 0 {
      assert Positions(p, s, 0) == {};
    } else {
      FilterCardinality(p, s, n - 1);
      assert s[..n] == s[..n - 1] + [s[n - 1]];
      FilterAppend(p, s[..n - 1], [s[n - 1]]);
      FilterSingleton(p, s[n - 1]);
      if p(s[n - 1]) {
        assert Positions(p, s, n) == Positions(p, s, n - 1) + {n - 1};
      } else {
        assert Positions(p, s, n) == Positions(p, s, n - 1);
      }
    }
  }

  /** Filters commute: `.filter(a).filter(b)` selects the same rows, in the same order,
      as `.filter(b).filter(a)`. */
  lemma {:induction false} FilterCommute<T(!new)>(p: T -> bool, q: T -> bool, s: seq<T>)
    ensures Filter(p, Filter(q, s)) == Filter(q, Filter(p, s))
  {
    if s != [] {
      var x, tail := s[0], s[1..];
      assert s == [x] + tail;
      FilterAppend(q, [x], tail);
      FilterAppend(p, [x], tail);
      FilterSingleton(q, x);
      FilterSingleton(p, x);
      FilterAppend(p, Filter(q, [x]), Filter(q, tail));
      FilterAppend(q, Filter(p, [x]), Filter(p, tail));
      FilterSingleton(p, x);
      FilterSingleton(q, x);
      FilterCommute(p, q, tail);
      assert Filter(p, []) == [] && Filter(q, []) == [];
    }
  }
}
