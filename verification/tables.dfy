/** A relational table keyed by a user id, as the system's stores use them:
    rows in storage order, at most one row per key (a PRIMARY KEY), and
    `INSERT ... ON CONFLICT (key) DO UPDATE` as the write. */
module Tables {
  import Ordering

  datatype Option<T> = None | Some(value: T)

  datatype Row<V> = Row(key: int, value: V)

  /** The primary-key constraint: no two rows share a key. */
  ghost predicate UniqueKeys<V>(t: seq<Row<V>>) {
    forall i, j :: 0 <= i < j < |t| ==> t[i].key != t[j].key
  }

  /** `SELECT value FROM t WHERE key = k`. */
  function Lookup<V>(t: seq<Row<V>>, k: int): (r: Option<V>)
    ensures r.None? <==> forall i :: 0 <= i < |t| ==> t[i].key != k
    ensures r.Some? ==> Row(k, r.value) in t
  {
    if |t| == 0 then None
    else if t[0].key == k then Some(t[0].value)
    else Lookup(t[1..], k)
  }

  /** Under the primary key, the row stored for `k` is the one lookup returns. */
  lemma {:induction false} LookupUnique<V>(t: seq<Row<V>>, k: int, v: V)
    requires UniqueKeys(t)
    ensures Row(k, v) in t <==> Lookup(t, k) == Some(v)
  {
    if |t| > 0 {
      assert UniqueKeys(t[1..]);
      LookupUnique(t[1..], k, v);
      if t[0].key == k {
        assert forall i :: 0 <= i < |t[1..]| ==> t[1..][i].key != k;
      }
    }
  }

  /** `INSERT (k, v) ON CONFLICT (key) DO UPDATE SET value = v`. */
  function Upsert<V>(t: seq<Row<V>>, k: int, v: V): (r: seq<Row<V>>)
    ensures Lookup(r, k) == Some(v)
    ensures forall k' :: k' != k ==> Lookup(r, k') == Lookup(t, k')
    ensures forall i :: 0 <= i < |r| ==> r[i].key == k || r[i] in t
    ensures UniqueKeys(t) ==> UniqueKeys(r)
  {
    if |t| == 0 then [Row(k, v)]
    else if t[0].key == k then [Row(k, v)] + t[1..]
    else
      var rest := Upsert(t[1..], k, v);
      assert UniqueKeys(t) ==> UniqueKeys([t[0]] + rest) by {
        if UniqueKeys(t) {
          assert UniqueKeys(t[1..]);
          KeepsHeadKey(t, k, rest);
        }
      }
      [t[0]] + rest
  }

  /** Rows drawn from the tail of a keyed table, or carrying a key other than the
      head's, never clash with the head. */
  lemma KeepsHeadKey<V>(t: seq<Row<V>>, k: int, rest: seq<Row<V>>)
    requires |t| > 0 && UniqueKeys(t) && t[0].key != k && UniqueKeys(rest)
    requires forall i :: 0 <= i < |rest| ==> rest[i].key == k || rest[i] in t[1..]
    ensures UniqueKeys([t[0]] + rest)
  {
    forall i | 0 <= i < |rest| ensures rest[i].key != t[0].key {
      if rest[i].key != k {
        var j :| 0 <= j < |t[1..]| && t[1..][j] == rest[i];
        assert t[j + 1] == rest[i];
      }
    }
    var r := [t[0]] + rest;
    forall i, j | 0 <= i < j < |r| ensures r[i].key != r[j].key {
      assert r[j] == rest[j - 1];
      if i > 0 {
        assert r[i] == rest[i - 1];
      }
    }
  }

  /** Repeating an upsert leaves the table as the first one left it. */
  lemma {:induction false} UpsertIdempotent<V>(t: seq<Row<V>>, k: int, v: V)
    ensures Upsert(Upsert(t, k, v), k, v) == Upsert(t, k, v)
  {
    if |t| > 0 && t[0].key != k {
      UpsertIdempotent(t[1..], k, v);
    }
  }

  /** The position of the first element satisfying `p`: what a `for` loop that
      returns on its first hit finds. */
  function FindFirst<T>(s: seq<T>, p: T -> bool): (r: Option<nat>)
    ensures r.Some? ==> r.value < |s| && p(s[r.value])
    ensures r.Some? ==> forall j :: 0 <= j < r.value ==> !p(s[j])
    ensures r.None? <==> forall j :: 0 <= j < |s| ==> !p(s[j])
  {
    if |s| == 0 then None
    else if p(s[0]) then Some(0)
    else
      match FindFirst(s[1..], p)
      case None => None
      case Some(k) =>
        assert forall j :: 1 <= j <= k ==> s[j] == s[1..][j - 1];
        Some(k + 1)
  }

  /** The elements satisfying `p`, in their original order: a list comprehension
      with an `if`, or a `WHERE` clause. */
  function Filter<T(!new)>(s: seq<T>, p: T -> bool): (r: seq<T>)
    ensures forall x :: x in r <==> x in s && p(x)
    ensures |r| <= |s|
  {
    if |s| == 0 then []
    else
      assert forall x :: x in s <==> x == s[0] || x in s[1..];
      if p(s[0]) then [s[0]] + Filter(s[1..], p) else Filter(s[1..], p)
  }

  /** Filtering keeps each passing element as often as it occurs, and drops the rest. */
  lemma {:induction false} FilterCounts<T(!new)>(s: seq<T>, p: T -> bool)
    ensures forall x :: multiset(Filter(s, p))[x] == if p(x) then multiset(s)[x] else 0
  {
    if |s| > 0 {
      FilterCounts(s[1..], p);
      assert s == [s[0]] + s[1..];
    }
  }

  /** Filtering one more element at the end adds it at the end when it passes. */
  lemma {:induction false} FilterAppend<T(!new)>(s: seq<T>, x: T, p: T -> bool)
    ensures Filter(s + [x], p) == Filter(s, p) + (if p(x) then [x] else [])
  {
    var t := s + [x];
    if |s| == 0 {
      assert t == [x];
    } else {
      assert t[0] == s[0] && t[1..] == s[1..] + [x];
      FilterAppend(s[1..], x, p);
    }
  }

  /** Dropping elements from a sorted sequence leaves it sorted. */
  lemma {:induction false} FilterKeepsOrder<T(!new)>(s: seq<T>, p: T -> bool, le: (T, T) -> bool)
    requires Ordering.Sorted(s, le)
    ensures Ordering.Sorted(Filter(s, p), le)
  {
    if |s| > 0 {
      var tail := s[1..];
      assert Ordering.Sorted(tail, le);
      FilterKeepsOrder(tail, p, le);
      var rest := Filter(tail, p);
      if p(s[0]) {
        forall y | y in rest ensures le(s[0], y) {
          Ordering.HeadPrecedes(s, le, y);
        }
        Ordering.ConsKeepsOrder(s[0], rest, le);
        assert Filter(s, p) == [s[0]] + rest;
      }
    }
  }
}
