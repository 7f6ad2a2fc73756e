/** The order of the usage tables on the profile page: entries sorted by
    `count`, largest first, with ties kept in the order the object lists
    them; the joker and consumable tables keep the first ten, and the hand
    usage cards show the whole sorted list. */
module Usage {
  /** One `[id, data]` pair of `Object.entries(usage)`, with `data.count`. */
  datatype Entry = Entry(id: string, count: int)

  /** How many rows the joker and consumable tables show. */
  const TableSize: nat := 10

  predicate NonIncreasing(es: seq<Entry>)
  {
    forall i, j :: 0 <= i < j < |es| ==> es[i].count >= es[j].count
  }

  /** The entries with the given count, in their order. */
  function WithCount(es: seq<Entry>, c: int): seq<Entry>
  {
    if es == [] then []
    else (if es[0].count == c then [es[0]] else []) + WithCount(es[1..], c)
  }

  /** `x` goes in front of the first entry whose count is not larger. */
  function InsertByCount(x: Entry, ys: seq<Entry>): seq<Entry>
  {
    if ys == [] || x.count >= ys[0].count then [x] + ys
    else [ys[0]] + InsertByCount(x, ys[1..])
  }

  /** `entries.sort((a, b) => b[1].count - a[1].count)`: a stable sort, as
      `Array.prototype.sort` is. */
  function SortByCount(es: seq<Entry>): seq<Entry>
  {
    if es == [] then [] else InsertByCount(es[0], SortByCount(es[1..]))
  }

  lemma {:induction false} InsertPermutes(x: Entry, ys: seq<Entry>)
    ensures multiset(InsertByCount(x, ys)) == multiset(ys) + multiset{x}
    ensures |InsertByCount(x, ys)| == |ys| + 1
    decreases |ys|
  {
    if ys != [] && x.count < ys[0].count {
      InsertPermutes(x, ys[1..]);
      assert ys == [ys[0]] + ys[1..];
    }
  }

  /** The sort neither loses nor adds an entry. */
  lemma {:induction false} SortPermutes(es: seq<Entry>)
    ensures multiset(SortByCount(es)) == multiset(es)
    ensures |SortByCount(es)| == |es|
    decreases |es|
  {
    if es != [] {
      SortPermutes(es[1..]);
      InsertPermutes(es[0], SortByCount(es[1..]));
      assert es == [es[0]] + es[1..];
    }
  }

  /** `.slice(0, n)` after the sort. */
  function Top(es: seq<Entry>, n: nat): seq<Entry>
  {
    var sorted := SortByCount(es);
    if n < |sorted| then sorted[..n] else sorted
  }

  /** The joker table and the consumable table. */
  function TopTen(es: seq<Entry>): seq<Entry>
  {
    Top(es, TableSize)
  }

  lemma {:induction false} InsertSorted(x: Entry, ys: seq<Entry>)
    requires NonIncreasing(ys)
    ensures NonIncreasing(InsertByCount(x, ys))
    decreases |ys|
  {
    if ys == [] || x.count >= ys[0].count {
      ConsOrdered(x, ys);
    } else {
      var tail := InsertByCount(x, ys[1..]);
      assert NonIncreasing(ys[1..]) by {
        forall i, j | 0 <= i < j < |ys| - 1
          ensures ys[1..][i].count >= ys[1..][j].count
        {
          assert ys[1..][i] == ys[i + 1] && ys[1..][j] == ys[j + 1];
        }
      }
      InsertSorted(x, ys[1..]);
      assert tail != [] && ys[0].count >= tail[0].count by {
        if ys[1..] == [] || x.count >= ys[1..][0].count {
          assert tail[0] == x;
        } else {
          assert tail[0] == ys[1..][0] == ys[1];
        }
      }
      ConsOrdered(ys[0], tail);
    }
  }

  /** An entry with a count no smaller than the first of an ordered list
      can go in front of it. */
  lemma ConsOrdered(e: Entry, t: seq<Entry>)
    requires NonIncreasing(t) && (t != [] ==> e.count >= t[0].count)
    ensures NonIncreasing([e] + t)
  {
    var r := [e] + t;
    forall i, j | 0 <= i < j < |r|
      ensures r[i].count >= r[j].count
    {
      assert r[j] == t[j - 1];
      if i == 0 {
        assert r[i] == e;
        if j > 1 {
          assert t[0].count >= t[j - 1].count;
        }
      } else {
        assert r[i] == t[i - 1];
      }
    }
  }

  /** The sorted entries are ordered by count, largest first. */
  lemma {:induction false} SortedByCount(es: seq<Entry>)
    ensures NonIncreasing(SortByCount(es))
    decreases |es|
  {
    if es != [] {
      SortedByCount(es[1..]);
      InsertSorted(es[0], SortByCount(es[1..]));
    }
  }

  lemma {:induction false} WithCountAppend(a: seq<Entry>, b: seq<Entry>, c: int)
    ensures WithCount(a + b, c) == WithCount(a, c) + WithCount(b, c)
    decreases |a|
  {
    if a == [] {
      assert a + b == b;
    } else {
      var h := if a[0].count == c then [a[0]] else [];
      assert (a + b)[0] == a[0];
      assert (a + b)[1..] == a[1..] + b;
      assert WithCount(a + b, c) == h + WithCount(a[1..] + b, c);
      WithCountAppend(a[1..], b, c);
      assert h + (WithCount(a[1..], c) + WithCount(b, c)) == (h + WithCount(a[1..], c)) + WithCount(b, c);
    }
  }

  /** Inserting in front of the entries with a count no larger keeps the
      order among equal counts. */
  lemma {:induction false} InsertStable(x: Entry, ys: seq<Entry>, c: int)
    ensures WithCount(InsertByCount(x, ys), c) == WithCount([x], c) + WithCount(ys, c)
    decreases |ys|
  {
    if ys == [] || x.count >= ys[0].count {
      WithCountAppend([x], ys, c);
    } else {
      var tail := InsertByCount(x, ys[1..]);
      var wx := WithCount([x], c);
      var w0 := WithCount([ys[0]], c);
      var wr := WithCount(ys[1..], c);
      assert WithCount(tail, c) == wx + wr by {
        InsertStable(x, ys[1..], c);
      }
      assert WithCount(InsertByCount(x, ys), c) == w0 + WithCount(tail, c) by {
        assert InsertByCount(x, ys) == [ys[0]] + tail;
        WithCountAppend([ys[0]], tail, c);
      }
      assert WithCount(ys, c) == w0 + wr by {
        WithCountAppend([ys[0]], ys[1..], c);
        assert [ys[0]] + ys[1..] == ys;
      }
      assert w0 + (wx + wr) == wx + (w0 + wr) by {
        WithCountOne(x, c);
        WithCountOne(ys[0], c);
        if wx == [] {
          assert w0 + ([] + wr) == [] + (w0 + wr);
        } else {
          assert w0 == [];
          assert [] + (wx + wr) == wx + ([] + wr);
        }
      }
    }
  }

  lemma WithCountOne(e: Entry, c: int)
    ensures WithCount([e], c) == if e.count == c then [e] else []
  {
    assert [e][1..] == [];
  }

  /** The sort is stable: the entries of each count keep their order. */
  lemma {:induction false} SortStable(es: seq<Entry>, c: int)
    ensures WithCount(SortByCount(es), c) == WithCount(es, c)
    decreases |es|
  {
    if es != [] {
      SortStable(es[1..], c);
      InsertStable(es[0], SortByCount(es[1..]), c);
      WithCountAppend([es[0]], es[1..], c);
      assert [es[0]] + es[1..] == es;
    }
  }

  /** At most `n` entries, ordered by count, each from the input: the
      first ones of the sorted list. */
  lemma TopIsBest(es: seq<Entry>, n: nat)
    ensures var r := Top(es, n);
      && |r| == (if n < |es| then n else |es|)
      && NonIncreasing(r)
      && multiset(r) <= multiset(es)
      && r <= SortByCount(es)
  {
    var sorted := SortByCount(es);
    SortPermutes(es);
    SortedByCount(es);
    var k := |Top(es, n)|;
    assert Top(es, n) == sorted[..k];
    PrefixOrdered(sorted, k);
    PrefixSplit(sorted, k);
  }

  lemma PrefixOrdered(s: seq<Entry>, k: nat)
    requires NonIncreasing(s) && k <= |s|
    ensures NonIncreasing(s[..k])
  {
    forall i, j | 0 <= i < j < k
      ensures s[..k][i].count >= s[..k][j].count
    {
      assert s[..k][i] == s[i] && s[..k][j] == s[j];
    }
  }

  /** A list is its first `k` entries and the rest, as a multiset too. */
  lemma PrefixSplit(s: seq<Entry>, k: nat)
    requires k <= |s|
    ensures multiset(s) == multiset(s[..k]) + multiset(s[k..])
    ensures multiset(s) - multiset(s[..k]) == multiset(s[k..])
  {
    assert s == s[..k] + s[k..];
  }

  /** No entry left out of the first `n` has a larger count than one kept. */
  lemma TopKeepsLargest(es: seq<Entry>, n: nat)
    ensures var r := Top(es, n);
      forall x, y :: x in r && y in multiset(es) - multiset(r) ==> x.count >= y.count
  {
    var sorted := SortByCount(es);
    SortPermutes(es);
    SortedByCount(es);
    var k := |Top(es, n)|;
    assert Top(es, n) == sorted[..k];
    PrefixSplit(sorted, k);
    TopBeatsRest(sorted, k);
  }

  /** In a sorted list, an entry before the cut has a count no smaller
      than one after it. */
  lemma TopBeatsRest(sorted: seq<Entry>, k: nat)
    requires NonIncreasing(sorted) && k <= |sorted|
    ensures forall x, y :: x in sorted[..k] && y in multiset(sorted[k..]) ==> x.count >= y.count
  {
    forall x, y | x in sorted[..k] && y in multiset(sorted[k..])
      ensures x.count >= y.count
    {
      var i :| 0 <= i < k && sorted[..k][i] == x;
      var j :| 0 <= j < |sorted| - k && sorted[k..][j] == y;
      assert sorted[i] == x && sorted[k + j] == y;
    }
  }

  /** The joker and consumable tables show at most ten rows. */
  lemma TopTenBound(es: seq<Entry>)
    ensures |TopTen(es)| <= TableSize
    ensures |es| >= TableSize ==> |TopTen(es)| == TableSize
  {
    TopIsBest(es, TableSize);
  }
}
