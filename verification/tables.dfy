/** Single-row lookups over a table held as a sequence of rows. */
module Tables {
  import opened Wrappers

  /** Row `i` satisfies `p` and no earlier row does. */
  predicate FirstAt<T>(t: seq<T>, p: T -> bool, i: int) {
    0 <= i < |t| && p(t[i]) && forall j :: 0 <= j < i ==> !p(t[j])
  }

  /** The first row satisfying `p`, as a query with `LIMIT 1` (or a
      `fetch_one` / `fetch_optional` on a filter) returns it when rows are
      scanned in table order; absent when no row qualifies. */
  function First<T>(t: seq<T>, p: T -> bool): (r: Option<T>)
    ensures r.None? <==> forall i :: 0 <= i < |t| ==> !p(t[i])
    ensures r.Some? ==> exists i :: FirstAt(t, p, i) && t[i] == r.value
  {
    if |t| == 0 then None
    else if p(t[0]) then Some(t[0])
    else
      var rest := First(t[1..], p);
      assert rest.Some? ==> exists i :: FirstAt(t, p, i) && t[i] == rest.value by {
        if rest.Some? {
          var k :| FirstAt(t[1..], p, k) && t[1..][k] == rest.value;
          forall j | 0 <= j < k + 1 ensures !p(t[j]) {
            if j > 0 { assert t[j] == t[1..][j - 1]; }
          }
          assert FirstAt(t, p, k + 1);
        }
      }
      rest
  }

  /** When exactly one row qualifies, it is the one found, wherever it
      stands. */
  lemma FirstOfUnique<T>(t: seq<T>, p: T -> bool, i: int)
    requires 0 <= i < |t| && p(t[i])
    requires forall j :: 0 <= j < |t| && j != i ==> !p(t[j])
    ensures First(t, p) == Some(t[i])
  {
  }

  /** Appending a row that does not qualify changes no answer. */
  lemma {:induction false} FirstAppendMiss<T>(t: seq<T>, x: T, p: T -> bool)
    requires !p(x)
    ensures First(t + [x], p) == First(t, p)
  {
    if |t| > 0 {
      assert (t + [x])[1..] == t[1..] + [x];
      FirstAppendMiss(t[1..], x, p);
    }
  }

  /** The id SQLite gives a new row of an integer-keyed table: one past the
      largest `key` stored, and 1 in an empty table. */
  function NextId<T>(t: seq<T>, key: T -> int): (k: int)
    ensures forall i :: 0 <= i < |t| ==> key(t[i]) < k
  {
    if |t| == 0 then 1
    else
      var rest := NextId(t[..|t| - 1], key);
      if key(t[|t| - 1]) + 1 > rest then key(t[|t| - 1]) + 1 else rest
  }

  /** Appending a row under the next id keeps the keys of a table distinct. */
  /** Two tables with the same keys row by row get the same next id. */
  lemma {:induction false} NextIdSameKeys<T>(a: seq<T>, b: seq<T>, key: T -> int)
    requires |a| == |b| && forall i :: 0 <= i < |a| ==> key(a[i]) == key(b[i])
    ensures NextId(a, key) == NextId(b, key)
  {
    if |a| > 0 {
      var n := |a| - 1;
      assert forall i :: 0 <= i < n ==> a[..n][i] == a[i] && b[..n][i] == b[i];
      NextIdSameKeys(a[..n], b[..n], key);
    }
  }

  lemma NextIdKeepsKeysUnique<T>(t: seq<T>, key: T -> int, x: T)
    requires forall i, j :: 0 <= i < j < |t| ==> key(t[i]) != key(t[j])
    requires key(x) == NextId(t, key)
    ensures var t' := t + [x]; forall i, j :: 0 <= i < j < |t'| ==> key(t'[i]) != key(t'[j])
  {
  }

  /** The rows satisfying `p`, in table order: what a `fetch_all` over a
      `WHERE` returns. */
  function Filter<T(!new)>(t: seq<T>, p: T -> bool): (r: seq<T>)
    ensures |r| <= |t|
    ensures forall i :: 0 <= i < |r| ==> p(r[i])
    ensures forall x :: x in r <==> x in t && p(x)
  {
    if |t| == 0 then []
    else
      var n := |t| - 1;
      var rest := Filter(t[..n], p);
      assert forall x :: x in t <==> x in t[..n] || x == t[n] by {
        assert t == t[..n] + [t[n]];
      }
      rest + (if p(t[n]) then [t[n]] else [])
  }

  /** A filter that every row passes returns the table itself. */
  lemma {:induction false} FilterKeepsAll<T(!new)>(t: seq<T>, p: T -> bool)
    requires forall i :: 0 <= i < |t| ==> p(t[i])
    ensures Filter(t, p) == t
  {
    if |t| > 0 {
      var n := |t| - 1;
      forall i | 0 <= i < n ensures p(t[..n][i]) {
        assert t[..n][i] == t[i];
      }
      FilterKeepsAll(t[..n], p);
      assert Filter(t, p) == Filter(t[..n], p) + [t[n]];
      assert t[..n] + [t[n]] == t;
    }
  }

  /** Filtering twice by the same test is filtering once. */
  lemma FilterIdempotent<T(!new)>(t: seq<T>, p: T -> bool)
    ensures Filter(Filter(t, p), p) == Filter(t, p)
  {
    FilterKeepsAll(Filter(t, p), p);
  }
}
