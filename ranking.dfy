/**
 * The ranking step of `displayWordCounts`:
 *
 *   Object.entries(counts)
 *     .filter(([_, count]) => count > 0)
 *     .sort((a, b) => b[1] - a[1])
 *
 * and the `reduce` that sums the counts. `Object.entries` lists keys that
 * are not array indices in insertion order, which for a table built by
 * `countPartsOfSpeech` is the order of first occurrence in the vocabulary
 * (array-index keys are outside the model); `Array.prototype.sort` is
 * stable, so entries with equal counts keep that order.
 */
module Ranking {

  datatype Entry = Entry(word: string, count: nat)

  predicate Distinct<T(==)>(xs: seq<T>) {
    forall i, j :: 0 <= i < j < |xs| ==> xs[i] != xs[j]
  }

  /** The keys of the table in insertion order: each word at its first occurrence in `vocab`. */
  function KeyOrder(vocab: seq<string>): (keys: seq<string>)
    ensures forall w :: w in keys <==> w in vocab
    ensures Distinct(keys)
    ensures Distinct(vocab) ==> keys == vocab
  {
    if vocab == [] then []
    else
      var init := vocab[..|vocab| - 1];
      var last := vocab[|vocab| - 1];
      assert vocab == init + [last];
      assert forall w :: w in vocab <==> w in init || w == last;
      if last in init then KeyOrder(init) else KeyOrder(init) + [last]
  }

  /** Position of the first occurrence of `w` in `vocab`. */
  function FirstIndex(vocab: seq<string>, w: string): (r: nat)
    requires w in vocab
    ensures r < |vocab| && vocab[r] == w && w !in vocab[..r]
  {
    if vocab[0] == w then 0
    else
      var r := FirstIndex(vocab[1..], w);
      assert vocab[..r + 1] == [vocab[0]] + vocab[1..][..r];
      1 + r
  }

  /** `Object.entries(counts)` for a table whose keys, in insertion order, are `keys`. */
  function Entries(keys: seq<string>, table: map<string, nat>): (es: seq<Entry>)
    requires forall w :: w in keys ==> w in table
    ensures |es| == |keys|
    ensures forall k :: 0 <= k < |keys| ==> es[k] == Entry(keys[k], table[keys[k]])
  {
    if keys == [] then [] else [Entry(keys[0], table[keys[0]])] + Entries(keys[1..], table)
  }

  /** `.filter(([_, count]) => count > 0)` */
  function NonZero(es: seq<Entry>): (r: seq<Entry>)
    ensures forall e :: e in r <==> e in es && e.count > 0
  {
    if es == [] then []
    else
      assert forall e :: e in es <==> e == es[0] || e in es[1..];
      (if es[0].count > 0 then [es[0]] else []) + NonZero(es[1..])
  }

  /** Places `e` before the first entry whose count is not larger, so it stays ahead of its equals. */
  function Insert(e: Entry, sorted: seq<Entry>): (r: seq<Entry>)
    ensures multiset(r) == multiset{e} + multiset(sorted)
  {
    if sorted == [] || sorted[0].count <= e.count then [e] + sorted
    else
      assert sorted == [sorted[0]] + sorted[1..];
      [sorted[0]] + Insert(e, sorted[1..])
  }

  /** `.sort((a, b) => b[1] - a[1])`: a stable sort by descending count. */
  function SortByCountDescending(es: seq<Entry>): (r: seq<Entry>)
    ensures multiset(r) == multiset(es)
  {
    if es == [] then []
    else
      assert es == [es[0]] + es[1..];
      Insert(es[0], SortByCountDescending(es[1..]))
  }

  /** The entries `displayWordCounts` lists: the positive ones, by descending count. */
  function Ranked(es: seq<Entry>): (r: seq<Entry>)
    ensures multiset(r) == multiset(NonZero(es))
    ensures forall e :: e in r <==> e in es && e.count > 0
  {
    var r := SortByCountDescending(NonZero(es));
    assert forall e :: e in r <==> e in multiset(NonZero(es));
    r
  }

  /** `.reduce((sum, [_, count]) => sum + count, 0)` */
  function Total(es: seq<Entry>): (t: nat)
    ensures forall k :: 0 <= k < |es| ==> es[k].count <= t
    ensures t == 0 <==> forall k :: 0 <= k < |es| ==> es[k].count == 0
  {
    if es == [] then 0
    else
      assert forall k :: 1 <= k < |es| ==> es[k] == es[1..][k - 1];
      es[0].count + Total(es[1..])
  }

  predicate IsDescending(es: seq<Entry>) {
    forall i, j :: 0 <= i < j < |es| ==> es[i].count >= es[j].count
  }

  /** The entries with count `n`, in their order: what stability is about. */
  function WithCount(es: seq<Entry>, n: nat): seq<Entry> {
    if es == [] then []
    else (if es[0].count == n then [es[0]] else []) + WithCount(es[1..], n)
  }

  // ---------------------------------------------------------------------

  lemma {:induction false} WithCountAppend(a: seq<Entry>, b: seq<Entry>, n: nat)
    ensures WithCount(a + b, n) == WithCount(a, n) + WithCount(b, n)
  {
    if a == [] {
      assert a + b == b;
    } else {
      var h := if a[0].count == n then [a[0]] else [];
      assert (a + b)[0] == a[0] && (a + b)[1..] == a[1..] + b;
      assert WithCount(a + b, n) == h + WithCount(a[1..] + b, n);
      WithCountAppend(a[1..], b, n);
      assert h + (WithCount(a[1..], n) + WithCount(b, n)) == (h + WithCount(a[1..], n)) + WithCount(b, n);
    }
  }

  lemma {:induction false} TotalAppend(a: seq<Entry>, b: seq<Entry>)
    ensures Total(a + b) == Total(a) + Total(b)
  {
    if a == [] {
      assert a + b == b;
    } else {
      assert (a + b)[1..] == a[1..] + b;
      TotalAppend(a[1..], b);
    }
  }

  lemma {:induction false} InsertTotal(e: Entry, s: seq<Entry>)
    ensures Total(Insert(e, s)) == e.count + Total(s)
  {
    if s == [] || s[0].count <= e.count {
      assert ([e] + s)[1..] == s;
    } else {
      InsertTotal(e, s[1..]);
      assert ([s[0]] + Insert(e, s[1..]))[1..] == Insert(e, s[1..]);
    }
  }

  lemma WithCountSingle(x: Entry, n: nat)
    ensures WithCount([x], n) == if x.count == n then [x] else []
  {
    assert [x][1..] == [];
  }

  lemma ConcatSwap(a: seq<Entry>, h: seq<Entry>, b: seq<Entry>)
    requires a == [] || h == []
    ensures a + (h + b) == h + (a + b)
  {
    if a == [] {
      assert a + (h + b) == h + b && a + b == b;
    } else {
      assert h + b == b && h + (a + b) == a + b;
    }
  }

  /** Inserting behind the first entry: that entry keeps its place among its equals. */
  lemma InsertWithCountBehind(e: Entry, s: seq<Entry>, n: nat)
    requires s != [] && s[0].count > e.count
    requires WithCount(Insert(e, s[1..]), n) == (if e.count == n then [e] else []) + WithCount(s[1..], n)
    ensures WithCount(Insert(e, s), n) == (if e.count == n then [e] else []) + WithCount(s, n)
  {
    var rest, h := Insert(e, s[1..]), if e.count == n then [e] else [];
    var a, b := WithCount([s[0]], n), WithCount(s[1..], n);
    assert Insert(e, s) == [s[0]] + rest;
    assert s == [s[0]] + s[1..];
    WithCountAppend([s[0]], rest, n);
    WithCountAppend([s[0]], s[1..], n);
    WithCountSingle(s[0], n);
    ConcatSwap(a, h, b);
  }

  lemma {:induction false} InsertWithCount(e: Entry, s: seq<Entry>, n: nat)
    ensures WithCount(Insert(e, s), n) == (if e.count == n then [e] else []) + WithCount(s, n)
  {
    if s == [] || s[0].count <= e.count {
      assert Insert(e, s) == [e] + s;
      WithCountAppend([e], s, n);
      WithCountSingle(e, n);
    } else {
      InsertWithCount(e, s[1..], n);
      InsertWithCountBehind(e, s, n);
    }
  }

  /** Putting an entry no smaller than every entry in front keeps the order descending. */
  lemma ConsDescending(x: Entry, s: seq<Entry>)
    requires IsDescending(s)
    requires forall k :: 0 <= k < |s| ==> s[k].count <= x.count
    ensures IsDescending([x] + s)
  {
    var r := [x] + s;
    forall i, j | 0 <= i < j < |r| ensures r[i].count >= r[j].count {
      assert r[j] == s[j - 1];
      if i > 0 {
        assert r[i] == s[i - 1];
      }
    }
  }

  lemma {:induction false} InsertDescending(e: Entry, s: seq<Entry>)
    requires IsDescending(s)
    ensures IsDescending(Insert(e, s))
  {
    if s == [] || s[0].count <= e.count {
      ConsDescending(e, s);
    } else {
      var rest := Insert(e, s[1..]);
      InsertDescending(e, s[1..]);
      forall k | 0 <= k < |rest| ensures rest[k].count <= s[0].count {
        assert rest[k] in multiset(rest);
        if rest[k] != e {
          var j :| 0 <= j < |s[1..]| && s[1..][j] == rest[k];
          assert s[j + 1] == rest[k];
        }
      }
      ConsDescending(s[0], rest);
    }
  }

  lemma {:induction false} SortTotal(es: seq<Entry>)
    ensures Total(SortByCountDescending(es)) == Total(es)
  {
    if es != [] {
      SortTotal(es[1..]);
      InsertTotal(es[0], SortByCountDescending(es[1..]));
    }
  }

  lemma {:induction false} SortDescending(es: seq<Entry>)
    ensures IsDescending(SortByCountDescending(es))
  {
    if es != [] {
      SortDescending(es[1..]);
      InsertDescending(es[0], SortByCountDescending(es[1..]));
    }
  }

  lemma {:induction false} SortStable(es: seq<Entry>, n: nat)
    ensures WithCount(SortByCountDescending(es), n) == WithCount(es, n)
  {
    if es != [] {
      SortStable(es[1..], n);
      InsertWithCount(es[0], SortByCountDescending(es[1..]), n);
    }
  }

  /** Sorting keeps the total, orders by descending count and keeps equal counts in their order. */
  lemma SortFacts(es: seq<Entry>)
    ensures Total(SortByCountDescending(es)) == Total(es)
    ensures IsDescending(SortByCountDescending(es))
    ensures forall n :: WithCount(SortByCountDescending(es), n) == WithCount(es, n)
  {
    SortTotal(es);
    SortDescending(es);
    forall n ensures WithCount(SortByCountDescending(es), n) == WithCount(es, n) {
      SortStable(es, n);
    }
  }

  lemma {:induction false} NonZeroTotal(es: seq<Entry>)
    ensures Total(NonZero(es)) == Total(es)
  {
    if es != [] {
      NonZeroTotal(es[1..]);
      TotalAppend(if es[0].count > 0 then [es[0]] else [], NonZero(es[1..]));
    }
  }

  lemma {:induction false} NonZeroWithCount(es: seq<Entry>, n: nat)
    requires n > 0
    ensures WithCount(NonZero(es), n) == WithCount(es, n)
  {
    if es != [] {
      NonZeroWithCount(es[1..], n);
      WithCountAppend(if es[0].count > 0 then [es[0]] else [], NonZero(es[1..]), n);
    }
  }

  /**
   * The ranked list is ordered by descending count with ties in table
   * order; its total is the sum of the whole table.
   */
  lemma RankedFacts(es: seq<Entry>)
    ensures IsDescending(Ranked(es))
    ensures forall n :: n > 0 ==> WithCount(Ranked(es), n) == WithCount(es, n)
    ensures Total(Ranked(es)) == Total(es)
  {
    NonZeroTotal(es);
    SortFacts(NonZero(es));
    forall n | n > 0 ensures WithCount(Ranked(es), n) == WithCount(es, n) {
      NonZeroWithCount(es, n);
    }
  }

  lemma FirstIndexUnique(vocab: seq<string>, w: string, r: nat)
    requires r < |vocab| && vocab[r] == w && w !in vocab[..r]
    ensures FirstIndex(vocab, w) == r
  {
  }

  /**
   * The keys come in the order of their first occurrence in the vocabulary:
   * `forEach` creates each key when it first meets the word, and
   * `Object.entries` lists keys in creation order.
   */
  lemma {:induction false} KeyOrderFirstOccurrence(vocab: seq<string>)
    ensures forall i, j :: 0 <= i < j < |KeyOrder(vocab)| ==>
              FirstIndex(vocab, KeyOrder(vocab)[i]) < FirstIndex(vocab, KeyOrder(vocab)[j])
  {
    if vocab != [] {
      var init, last := vocab[..|vocab| - 1], vocab[|vocab| - 1];
      var keys, initKeys := KeyOrder(vocab), KeyOrder(init);
      KeyOrderFirstOccurrence(init);
      assert vocab == init + [last];
      forall x | x in init ensures FirstIndex(vocab, x) == FirstIndex(init, x) {
        var f := FirstIndex(init, x);
        assert vocab[..f] == init[..f];
        FirstIndexUnique(vocab, x, f);
      }
      if last !in init {
        assert vocab[..|init|] == init;
        FirstIndexUnique(vocab, last, |init|);
      }
      forall i, j | 0 <= i < j < |keys| ensures FirstIndex(vocab, keys[i]) < FirstIndex(vocab, keys[j]) {
        assert keys[i] == initKeys[i] && keys[i] in init;
        if j < |initKeys| {
          assert keys[j] == initKeys[j] && keys[j] in init;
        } else {
          assert keys[j] == last && last !in init;
        }
      }
    }
  }
}
