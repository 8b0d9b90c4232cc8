/**
 * The grouped frequency count that both analyses perform:
 *
 *   1. a single pass over the records decides, per record, whether it
 *      contributes a key, is skipped, or makes the whole analysis fail
 *      (an `Outcome`); the keys of the contributing records are gathered
 *      in record order (`Collect`);
 *   2. `Counter(keys)` counts them, keeping each key at the position where
 *      it first appeared (`Tally`);
 *   3. `dict(sorted(counts.items(), key=lambda item: item[1]))` orders the
 *      (key, count) pairs by ascending count; Python's sort is stable, so
 *      equal counts keep their first-appearance order (`SortByCount`).
 */
module Frequency {

  datatype Option<T> = None | Some(value: T)

  /** One (key, count) item of the resulting dictionary. */
  datatype Entry<K> = Entry(key: K, count: nat)

  function KeySet<K>(es: seq<Entry<K>>): set<K> {
    set e | e in es :: e.key
  }

  /** No key occurs twice, so the sequence is a faithful picture of a dict. */
  predicate DistinctKeys<K(==)>(es: seq<Entry<K>>) {
    forall i, j :: 0 <= i < j < |es| ==> es[i].key != es[j].key
  }

  function Sum<K>(es: seq<Entry<K>>): nat {
    if es == [] then 0 else es[0].count + Sum(es[1..])
  }

  predicate SortedByCount<K>(es: seq<Entry<K>>) {
    forall i, j :: 0 <= i < j < |es| ==> es[i].count <= es[j].count
  }

  /** The entries whose count is `c`, in their order in `es`. */
  function WithCount<K>(es: seq<Entry<K>>, c: nat): seq<Entry<K>> {
    if es == [] then [] else (if es[0].count == c then [es[0]] else []) + WithCount(es[1..], c)
  }

  /** The first entry is among those of its own count. */
  lemma LeadingEntryListed<K>(es: seq<Entry<K>>)
    ensures es != [] ==> WithCount(es, es[0].count) != []
  {
  }

  /** The position of the first occurrence of `x` in `s`. */
  function FirstIndex<T(==)>(s: seq<T>, x: T): (i: nat)
    requires x in s
    ensures i < |s| && s[i] == x && x !in s[..i]
  {
    if s[0] == x then 0
    else
      var i := 1 + FirstIndex(s[1..], x);
      assert s[..i] == [s[0]] + s[1..][..i - 1];
      i
  }

  /** The keys of `es` appear in the order in which they first occur in `xs`. */
  predicate FirstSeenOrder<K(==)>(es: seq<Entry<K>>, xs: seq<K>) {
    && (forall i :: 0 <= i < |es| ==> es[i].key in xs)
    && (forall i, j :: 0 <= i < j < |es| ==> FirstIndex(xs, es[i].key) < FirstIndex(xs, es[j].key))
  }

  // ---- Counter ----

  /** `counter[x] += 1`: an existing key keeps its place, a new key goes last. */
  function Bump<K(==)>(es: seq<Entry<K>>, x: K): seq<Entry<K>> {
    if es == [] then [Entry(x, 1)]
    else if es[0].key == x then [Entry(x, es[0].count + 1)] + es[1..]
    else [es[0]] + Bump(es[1..], x)
  }

  /** `Counter(xs).items()`, in the dictionary's insertion order. */
  function Tally<K(==)>(xs: seq<K>): seq<Entry<K>> {
    if xs == [] then [] else Bump(Tally(xs[..|xs| - 1]), xs[|xs| - 1])
  }

  // ---- sorted(..., key=count): a stable sort ----

  /** Places `e` before the first entry whose count is at least its own. */
  function Insert<K(==)>(e: Entry<K>, s: seq<Entry<K>>): (r: seq<Entry<K>>)
    ensures multiset(r) == multiset(s) + multiset{e}
    ensures Sum(r) == Sum(s) + e.count
  {
    if s == [] || e.count <= s[0].count then [e] + s
    else
      assert s == [s[0]] + s[1..];
      [s[0]] + Insert(e, s[1..])
  }

  /** Python's `sorted(items, key=lambda item: item[1])` as an insertion sort:
      ascending counts, and entries of equal count in their original order. */
  function SortByCount<K(==)>(es: seq<Entry<K>>): (r: seq<Entry<K>>)
    ensures SortedByCount(r)
    ensures multiset(r) == multiset(es)
    ensures Sum(r) == Sum(es)
    ensures forall c :: WithCount(r, c) == WithCount(es, c)
  {
    if es == [] then []
    else
      var t := SortByCount(es[1..]);
      assert es == [es[0]] + es[1..];
      InsertSorted(es[0], t);
      InsertWithCount(es[0], t);
      Insert(es[0], t)
  }

  lemma {:induction false} InsertSorted<K>(e: Entry<K>, s: seq<Entry<K>>)
    requires SortedByCount(s)
    ensures SortedByCount(Insert(e, s))
  {
    if s != [] && e.count > s[0].count {
      var t := Insert(e, s[1..]);
      var r := [s[0]] + t;
      assert Insert(e, s) == r;
      InsertSorted(e, s[1..]);
      InsertAbove(e, s[1..], s[0].count);
      ConsSorted(s[0], t);
    }
  }

  /** An entry placed in front of sorted entries of no smaller count. */
  lemma ConsSorted<K>(x: Entry<K>, t: seq<Entry<K>>)
    requires SortedByCount(t) && forall j :: 0 <= j < |t| ==> x.count <= t[j].count
    ensures SortedByCount([x] + t)
  {
    var r := [x] + t;
    forall i, j | 0 <= i < j < |r| ensures r[i].count <= r[j].count {
      assert r[j] == t[j - 1];
      if i > 0 { assert r[i] == t[i - 1]; }
    }
  }

  /** Inserting keeps every count at least `b` when all of them were. */
  lemma InsertAbove<K>(e: Entry<K>, s: seq<Entry<K>>, b: int)
    requires b <= e.count && forall j :: 0 <= j < |s| ==> b <= s[j].count
    ensures forall j :: 0 <= j < |Insert(e, s)| ==> b <= Insert(e, s)[j].count
  {
    var r := Insert(e, s);
    forall j | 0 <= j < |r| ensures b <= r[j].count {
      assert r[j] in multiset(r);
      if r[j] != e {
        assert r[j] in multiset(s);
      }
    }
  }

  lemma {:induction false} InsertWithCount<K>(e: Entry<K>, s: seq<Entry<K>>)
    ensures forall c :: WithCount(Insert(e, s), c) == (if e.count == c then [e] else []) + WithCount(s, c)
  {
    if s != [] && e.count > s[0].count {
      var t := Insert(e, s[1..]);
      var r := [s[0]] + t;
      assert Insert(e, s) == r;
      assert r[0] == s[0] && r[1..] == t;
      InsertWithCount(e, s[1..]);
      forall c ensures WithCount(r, c) == (if e.count == c then [e] else []) + WithCount(s, c) {
        assert WithCount(r, c) == (if s[0].count == c then [s[0]] else []) + WithCount(t, c);
        assert WithCount(s, c) == (if s[0].count == c then [s[0]] else []) + WithCount(s[1..], c);
      }
    } else {
      var r := [e] + s;
      assert Insert(e, s) == r;
      assert r[0] == e && r[1..] == s;
    }
  }

  /** The count-then-sort pipeline applied to the gathered keys. */
  function CountSorted<K(==)>(xs: seq<K>): seq<Entry<K>> {
    SortByCount(Tally(xs))
  }

  // ---- Per-record outcomes of the scan ----

  /** What one record does to the scan: it adds `key`, it is skipped (and the
      scan goes on), or it raises an error that discards the whole result. */
  datatype Outcome<K> = Counted(key: K) | Skipped | Aborted

  /** The list of keys the scan appends to, or `None` once a record aborts.
      The scan fails exactly when some record aborts it. */
  function Collect<K>(os: seq<Outcome<K>>): (r: Option<seq<K>>)
    ensures r.None? <==> Aborted in os
  {
    assert os != [] ==> os == os[..|os| - 1] + [os[|os| - 1]];
    if os == [] then Some([])
    else
      match Collect(os[..|os| - 1])
      case None => None
      case Some(ks) =>
        match os[|os| - 1]
        case Counted(k) => Some(ks + [k])
        case Skipped => Some(ks)
        case Aborted => None
  }

  /** Positions of the records that contribute a key. */
  function CountedIndices<K>(os: seq<Outcome<K>>): set<int> {
    set i | 0 <= i < |os| && os[i].Counted?
  }

  /** Positions of the records that contribute the key `k`. */
  function IndicesOf<K(==)>(os: seq<Outcome<K>>, k: K): set<int> {
    set i | 0 <= i < |os| && os[i] == Counted(k)
  }

  /** The keys that some record contributes. */
  function CountedKeys<K>(os: seq<Outcome<K>>): set<K> {
    set o | o in os && o.Counted? :: o.key
  }

  /** Everything the analyses promise about their result `r` for the
      per-record outcomes `os` of a scan that did not abort. */
  predicate IsFrequencyReport<K(==)>(r: seq<Entry<K>>, os: seq<Outcome<K>>) {
    && DistinctKeys(r)
    && KeySet(r) == CountedKeys(os)
    && (forall i :: 0 <= i < |r| ==>
          Counted(r[i].key) in os && 1 <= r[i].count == |IndicesOf(os, r[i].key)|)
    && Sum(r) == |CountedIndices(os)|
    && SortedByCount(r)
    && (forall i, j :: 0 <= i < j < |r| && r[i].count == r[j].count ==>
          FirstIndex(os, Counted(r[i].key)) < FirstIndex(os, Counted(r[j].key)))
  }

  // ---- Lemmas: positions ----

  lemma FirstIndexAt<T>(s: seq<T>, x: T, i: nat)
    requires i < |s| && s[i] == x && x !in s[..i]
    ensures FirstIndex(s, x) == i
  {
    var j := FirstIndex(s, x);
  }

  lemma FirstIndexAppend<T>(s: seq<T>, y: T, x: T)
    requires x in s
    ensures FirstIndex(s + [y], x) == FirstIndex(s, x)
  {
    var i := FirstIndex(s, x);
    assert (s + [y])[..i] == s[..i];
    FirstIndexAt(s + [y], x, i);
  }

  lemma FirstIndexNew<T>(s: seq<T>, x: T)
    requires x !in s
    ensures FirstIndex(s + [x], x) == |s|
  {
    assert (s + [x])[..|s|] == s;
    FirstIndexAt(s + [x], x, |s|);
  }

  // ---- Lemmas: Counter ----

  lemma {:induction false} BumpExisting<K>(es: seq<Entry<K>>, x: K, m: nat)
    requires m < |es| && es[m].key == x
    requires forall i :: 0 <= i < m ==> es[i].key != x
    ensures Bump(es, x) == es[m := Entry(x, es[m].count + 1)]
  {
    if m > 0 {
      BumpExisting(es[1..], x, m - 1);
      assert es[m := Entry(x, es[m].count + 1)] == [es[0]] + es[1..][m - 1 := Entry(x, es[m].count + 1)];
    }
  }

  lemma {:induction false} BumpNew<K>(es: seq<Entry<K>>, x: K)
    requires x !in KeySet(es)
    ensures Bump(es, x) == es + [Entry(x, 1)]
  {
    if es != [] {
      assert es[0] in es;
      assert x !in KeySet(es[1..]);
      BumpNew(es[1..], x);
      assert es + [Entry(x, 1)] == [es[0]] + (es[1..] + [Entry(x, 1)]);
    }
  }

  lemma {:induction false} SumUpdate<K>(es: seq<Entry<K>>, m: nat, e: Entry<K>)
    requires m < |es|
    ensures Sum(es[m := e]) + es[m].count == Sum(es) + e.count
  {
    if m > 0 {
      SumUpdate(es[1..], m - 1, e);
      assert es[m := e][1..] == es[1..][m - 1 := e];
    } else {
      assert es[m := e][1..] == es[1..];
    }
  }

  lemma {:induction false} SumAppend<K>(es: seq<Entry<K>>, e: Entry<K>)
    ensures Sum(es + [e]) == Sum(es) + e.count
  {
    if es != [] {
      assert (es + [e])[1..] == es[1..] + [e];
      SumAppend(es[1..], e);
    } else {
      assert (es + [e])[1..] == [];
    }
  }

  lemma KeySetUpdate<K>(es: seq<Entry<K>>, m: nat, e: Entry<K>)
    requires m < |es| && e.key == es[m].key
    ensures KeySet(es[m := e]) == KeySet(es)
  {
    var t := es[m := e];
    forall k | k in KeySet(t) ensures k in KeySet(es) {
      var y :| y in t && y.key == k;
      var j :| 0 <= j < |t| && t[j] == y;
      assert es[j] in es;
    }
    forall k | k in KeySet(es) ensures k in KeySet(t) {
      var y :| y in es && y.key == k;
      var j :| 0 <= j < |es| && es[j] == y;
      assert t[j] in t;
    }
  }

  lemma KeySetAppend<K>(es: seq<Entry<K>>, e: Entry<K>)
    ensures KeySet(es + [e]) == KeySet(es) + {e.key}
  {
    var t := es + [e];
    forall k | k in KeySet(t) ensures k in KeySet(es) + {e.key} {
      var y :| y in t && y.key == k;
      var j :| 0 <= j < |t| && t[j] == y;
      if j < |es| { assert es[j] in es; }
    }
    forall k | k in KeySet(es) ensures k in KeySet(t) {
      var y :| y in es && y.key == k;
      var j :| 0 <= j < |es| && es[j] == y;
      assert t[j] in t;
    }
    assert t[|es|] in t;
  }

  lemma TallyStep<K>(p: seq<K>, x: K)
    ensures Tally(p + [x]) == Bump(Tally(p), x)
  {
    assert (p + [x])[..|p|] == p;
  }

  /** `Counter(xs)` holds each distinct element of `xs` exactly once. */
  lemma {:induction false} TallyKeys<K>(xs: seq<K>)
    ensures DistinctKeys(Tally(xs))
    ensures forall k :: k in KeySet(Tally(xs)) <==> k in xs
  {
    if xs != [] {
      var p, x := xs[..|xs| - 1], xs[|xs| - 1];
      assert xs == p + [x];
      TallyKeys(p);
      TallyStep(p, x);
      var t0 := Tally(p);
      if x in p {
        var e :| e in t0 && e.key == x;
        var m :| 0 <= m < |t0| && t0[m] == e;
        BumpExisting(t0, x, m);
        KeySetUpdate(t0, m, Entry(x, t0[m].count + 1));
      } else {
        BumpNew(t0, x);
        KeySetAppend(t0, Entry(x, 1));
        var t := t0 + [Entry(x, 1)];
        forall i, j | 0 <= i < j < |t| ensures t[i].key != t[j].key {
          assert t[i] == t0[i];
          if j == |t0| { assert t0[i] in t0; } else { assert t[j] == t0[j]; }
        }
      }
    }
  }

  /** Each key of `Counter(xs)` is counted as often as it occurs in `xs`. */
  lemma {:induction false} TallyCounts<K>(xs: seq<K>)
    ensures forall i :: 0 <= i < |Tally(xs)| ==>
      Tally(xs)[i].count == multiset(xs)[Tally(xs)[i].key]
  {
    if xs != [] {
      var p, x := xs[..|xs| - 1], xs[|xs| - 1];
      assert xs == p + [x];
      TallyCounts(p);
      TallyKeys(p);
      TallyStep(p, x);
      var t0 := Tally(p);
      var t := Tally(xs);
      if x in p {
        var e :| e in t0 && e.key == x;
        var m :| 0 <= m < |t0| && t0[m] == e;
        BumpExisting(t0, x, m);
        forall i | 0 <= i < |t| ensures t[i].count == multiset(xs)[t[i].key] {
          if i != m { assert t[i] == t0[i]; }
        }
      } else {
        BumpNew(t0, x);
        forall i | 0 <= i < |t| ensures t[i].count == multiset(xs)[t[i].key] {
          if i < |t0| {
            assert t[i] == t0[i];
            assert t0[i] in t0;
          }
        }
      }
    }
  }

  /** The keys of `Counter(xs)` follow their first occurrence in `xs`. */
  lemma {:induction false} TallyOrder<K>(xs: seq<K>)
    ensures FirstSeenOrder(Tally(xs), xs)
  {
    if xs != [] {
      var p, x := xs[..|xs| - 1], xs[|xs| - 1];
      assert xs == p + [x];
      TallyOrder(p);
      TallyKeys(p);
      TallyStep(p, x);
      var t0 := Tally(p);
      if x in p {
        var e :| e in t0 && e.key == x;
        var m :| 0 <= m < |t0| && t0[m] == e;
        BumpExisting(t0, x, m);
        OrderKeptOnUpdate(p, x, t0, m);
      } else {
        BumpNew(t0, x);
        OrderKeptOnNew(p, x, t0);
      }
    }
  }

  lemma OrderKeptOnUpdate<K>(p: seq<K>, x: K, t0: seq<Entry<K>>, m: nat)
    requires FirstSeenOrder(t0, p)
    requires m < |t0| && t0[m].key == x
    ensures FirstSeenOrder(t0[m := Entry(x, t0[m].count + 1)], p + [x])
  {
    var t := t0[m := Entry(x, t0[m].count + 1)];
    forall i | 0 <= i < |t0|
      ensures t[i].key == t0[i].key && t[i].key in p + [x]
      ensures FirstIndex(p + [x], t[i].key) == FirstIndex(p, t0[i].key)
    {
      FirstIndexAppend(p, x, t0[i].key);
    }
  }

  lemma OrderKeptOnNew<K>(p: seq<K>, x: K, t0: seq<Entry<K>>)
    requires FirstSeenOrder(t0, p) && x !in p
    ensures FirstSeenOrder(t0 + [Entry(x, 1)], p + [x])
  {
    var t := t0 + [Entry(x, 1)];
    FirstIndexNew(p, x);
    forall i | 0 <= i < |t0|
      ensures t[i] == t0[i] && t[i].key in p + [x]
      ensures FirstIndex(p + [x], t[i].key) == FirstIndex(p, t0[i].key) < |p|
    {
      FirstIndexAppend(p, x, t0[i].key);
    }
  }

  /** The counts of `Counter(xs)` add up to the length of `xs`. */
  lemma {:induction false} TallySum<K>(xs: seq<K>)
    ensures Sum(Tally(xs)) == |xs|
  {
    if xs != [] {
      var p, x := xs[..|xs| - 1], xs[|xs| - 1];
      assert xs == p + [x];
      TallySum(p);
      TallyKeys(p);
      TallyStep(p, x);
      var t0 := Tally(p);
      if x in p {
        var e :| e in t0 && e.key == x;
        var m :| 0 <= m < |t0| && t0[m] == e;
        BumpExisting(t0, x, m);
        SumUpdate(t0, m, Entry(x, t0[m].count + 1));
      } else {
        BumpNew(t0, x);
        SumAppend(t0, Entry(x, 1));
      }
    }
  }

  // ---- Lemmas: the stable sort ----

  lemma {:induction false} WithCountMembers<K>(es: seq<Entry<K>>, c: nat)
    ensures forall e :: e in WithCount(es, c) <==> e in es && e.count == c
  {
    if es != [] {
      WithCountMembers(es[1..], c);
      assert es == [es[0]] + es[1..];
    }
  }

  /** The sort neither loses nor adds keys. */
  lemma SortKeepsKeySet<K>(es: seq<Entry<K>>)
    ensures KeySet(SortByCount(es)) == KeySet(es)
  {
    var r := SortByCount(es);
    forall k | k in KeySet(r) ensures k in KeySet(es) {
      var e :| e in r && e.key == k;
      assert e in multiset(es);
    }
    forall k | k in KeySet(es) ensures k in KeySet(r) {
      var e :| e in es && e.key == k;
      assert e in multiset(r);
    }
  }

  lemma DistinctTail<K>(es: seq<Entry<K>>)
    requires es != [] && DistinctKeys(es)
    ensures DistinctKeys(es[1..])
    ensures forall x :: x in es[1..] ==> x.key != es[0].key
  {
    forall i, j | 0 <= i < j < |es[1..]| ensures es[1..][i].key != es[1..][j].key {
      assert es[1..][i] == es[i + 1] && es[1..][j] == es[j + 1];
    }
    forall x | x in es[1..] ensures x.key != es[0].key {
      var j :| 0 <= j < |es[1..]| && es[1..][j] == x;
      assert es[j + 1] == x;
    }
  }

  /** The sort does not duplicate keys. */
  lemma {:induction false} SortKeepsDistinct<K>(es: seq<Entry<K>>)
    requires DistinctKeys(es)
    ensures DistinctKeys(SortByCount(es))
  {
    if es != [] {
      DistinctTail(es);
      SortKeepsDistinct(es[1..]);
      var t := SortByCount(es[1..]);
      forall x | x in t ensures x.key != es[0].key {
        assert x in multiset(es[1..]);
      }
      InsertKeepsDistinct(es[0], t);
    }
  }

  lemma {:induction false} InsertKeepsDistinct<K>(e: Entry<K>, s: seq<Entry<K>>)
    requires DistinctKeys(s)
    requires forall x :: x in s ==> x.key != e.key
    ensures DistinctKeys(Insert(e, s))
  {
    if s != [] && e.count > s[0].count {
      var t := Insert(e, s[1..]);
      assert DistinctKeys(s[1..]) by {
        forall i, j | 0 <= i < j < |s[1..]| ensures s[1..][i].key != s[1..][j].key {
          assert s[1..][i] == s[i + 1] && s[1..][j] == s[j + 1];
        }
      }
      InsertKeepsDistinct(e, s[1..]);
      forall x | x in t ensures x.key != s[0].key {
        assert x in multiset(t);
        if x != e {
          var j :| 0 <= j < |s[1..]| && s[1..][j] == x;
          assert s[j + 1] == x;
        }
      }
      var r := [s[0]] + t;
      assert Insert(e, s) == r;
      forall i, j | 0 <= i < j < |r| ensures r[i].key != r[j].key {
        if i == 0 { assert r[j] == t[j - 1]; assert t[j - 1] in t; }
        else { assert r[i] == t[i - 1] && r[j] == t[j - 1]; }
      }
    } else {
      var r := [e] + s;
      assert Insert(e, s) == r;
      forall i, j | 0 <= i < j < |r| ensures r[i].key != r[j].key {
        if i == 0 { assert r[j] == s[j - 1]; assert s[j - 1] in s; }
        else { assert r[i] == s[i - 1] && r[j] == s[j - 1]; }
      }
    }
  }

  /** Any two sequences sorted by count that agree on the order of the
      entries of every count are equal: ascending count plus stability
      determines the result, whichever stable algorithm produces it. */
  lemma {:induction false} StableSortUnique<K>(a: seq<Entry<K>>, b: seq<Entry<K>>)
    requires SortedByCount(a) && SortedByCount(b)
    requires forall c :: WithCount(a, c) == WithCount(b, c)
    ensures a == b
    decreases |a|
  {
    if a == [] || b == [] {
      LeadingEntryListed(a);
      LeadingEntryListed(b);
    } else {
      assert a[0].count == b[0].count by {
        SameLeastCount(a, b);
        SameLeastCount(b, a);
      }
      var c0 := a[0].count;
      assert a[0] == b[0] by {
        assert WithCount(a, c0)[0] == a[0];
        assert WithCount(b, c0)[0] == b[0];
      }
      forall c ensures WithCount(a[1..], c) == WithCount(b[1..], c) {
        WithCountUnfold(a, c);
        WithCountUnfold(b, c);
        if c == c0 {
          assert WithCount(a[1..], c) == WithCount(a, c)[1..];
          assert WithCount(b[1..], c) == WithCount(b, c)[1..];
        }
      }
      SortedTail(a);
      SortedTail(b);
      StableSortUnique(a[1..], b[1..]);
      assert a == [a[0]] + a[1..];
      assert b == [b[0]] + b[1..];
    }
  }

  lemma WithCountUnfold<K>(a: seq<Entry<K>>, c: nat)
    requires a != []
    ensures WithCount(a, c) == if a[0].count == c then [a[0]] + WithCount(a[1..], c) else WithCount(a[1..], c)
  {
  }

  lemma SortedTail<K>(a: seq<Entry<K>>)
    requires a != [] && SortedByCount(a)
    ensures SortedByCount(a[1..])
  {
    forall i, j | 0 <= i < j < |a[1..]| ensures a[1..][i].count <= a[1..][j].count {
      assert a[1..][i] == a[i + 1] && a[1..][j] == a[j + 1];
    }
  }

  /** The first entry of `b` is among the entries of `a`, so `a`'s least
      count is no larger. */
  lemma SameLeastCount<K>(a: seq<Entry<K>>, b: seq<Entry<K>>)
    requires a != [] && b != [] && SortedByCount(a)
    requires forall c :: WithCount(a, c) == WithCount(b, c)
    ensures a[0].count <= b[0].count
  {
    var cb := b[0].count;
    WithCountMembers(a, cb);
    assert WithCount(b, cb)[0] == b[0];
    assert b[0] in WithCount(a, cb);
    var pa :| 0 <= pa < |a| && a[pa] == b[0];
    if pa > 0 {
      assert a[0].count <= a[pa].count;
    }
  }

  lemma OrderSuffix<K>(a: seq<Entry<K>>, b: seq<Entry<K>>, xs: seq<K>)
    requires FirstSeenOrder(a + b, xs)
    ensures FirstSeenOrder(b, xs)
  {
    forall i | 0 <= i < |b| ensures b[i].key in xs {
      assert (a + b)[|a| + i] == b[i];
    }
    forall i, j | 0 <= i < j < |b| ensures FirstIndex(xs, b[i].key) < FirstIndex(xs, b[j].key) {
      assert (a + b)[|a| + i] == b[i] && (a + b)[|a| + j] == b[j];
    }
  }

  /** In first-seen order, the head's key comes before every later key. */
  lemma HeadFirst<K>(es: seq<Entry<K>>, xs: seq<K>, e: Entry<K>)
    requires FirstSeenOrder(es, xs) && es != [] && e in es[1..]
    ensures FirstIndex(xs, es[0].key) < FirstIndex(xs, e.key)
  {
    var q :| 0 <= q < |es[1..]| && es[1..][q] == e;
    assert es[q + 1] == e;
  }

  /** Putting an entry in front of an ordered sequence whose keys all come
      later keeps the order. */
  lemma ConsOrder<K>(e: Entry<K>, w: seq<Entry<K>>, xs: seq<K>)
    requires e.key in xs && FirstSeenOrder(w, xs)
    requires forall d :: d in w ==> d.key in xs && FirstIndex(xs, e.key) < FirstIndex(xs, d.key)
    ensures FirstSeenOrder([e] + w, xs)
  {
    var v := [e] + w;
    forall i | 0 <= i < |v| ensures v[i].key in xs {
      if i > 0 { assert v[i] == w[i - 1]; }
    }
    forall i, j | 0 <= i < j < |v| ensures FirstIndex(xs, v[i].key) < FirstIndex(xs, v[j].key) {
      assert v[j] == w[j - 1];
      if i > 0 { assert v[i] == w[i - 1]; } else { assert w[j - 1] in w; }
    }
  }

  /** Picking out the entries of one count keeps them in order. */
  lemma {:induction false} WithCountKeepsOrder<K>(es: seq<Entry<K>>, xs: seq<K>, c: nat)
    requires FirstSeenOrder(es, xs)
    ensures FirstSeenOrder(WithCount(es, c), xs)
  {
    if es != [] {
      var rest := es[1..];
      assert es == [es[0]] + rest;
      OrderSuffix([es[0]], rest, xs);
      WithCountKeepsOrder(rest, xs, c);
      var wr := WithCount(rest, c);
      if es[0].count == c {
        WithCountMembers(rest, c);
        forall d | d in wr ensures d.key in xs && FirstIndex(xs, es[0].key) < FirstIndex(xs, d.key) {
          HeadFirst(es, xs, d);
        }
        ConsOrder(es[0], wr, xs);
      }
    }
  }

  /** If the entries of count `c` are in first-seen order, so is every
      pair of equal-count entries in `r`. */
  lemma {:induction false} TiesInOrder<K>(r: seq<Entry<K>>, xs: seq<K>, c: nat, i: nat, j: nat)
    requires FirstSeenOrder(WithCount(r, c), xs)
    requires i < j < |r| && r[i].count == c && r[j].count == c
    ensures r[i].key in xs && r[j].key in xs
    ensures FirstIndex(xs, r[i].key) < FirstIndex(xs, r[j].key)
  {
    var rest := r[1..];
    var wr := WithCount(rest, c);
    assert r == [r[0]] + rest;
    WithCountMembers(rest, c);
    assert r[j] == rest[j - 1];
    if i == 0 {
      var w := WithCount(r, c);
      assert w == [r[0]] + wr;
      assert r[j] in wr;
      var q :| 0 <= q < |wr| && wr[q] == r[j];
      assert w[0] == r[0] && w[q + 1] == r[j];
      assert w[0].key in xs && w[q + 1].key in xs;
      assert FirstIndex(xs, w[0].key) < FirstIndex(xs, w[q + 1].key);
    } else {
      OrderSuffix(if r[0].count == c then [r[0]] else [], wr, xs);
      assert r[i] == rest[i - 1];
      TiesInOrder(rest, xs, c, i - 1, j - 1);
    }
  }

  /** The counted and sorted keys: each distinct key of `xs` once, with its
      number of occurrences, in ascending count order, and ties in the order
      in which the keys first occur in `xs`. */
  lemma CountSortedSpec<K>(xs: seq<K>)
    ensures DistinctKeys(CountSorted(xs))
    ensures forall k :: k in KeySet(CountSorted(xs)) <==> k in xs
    ensures forall i :: 0 <= i < |CountSorted(xs)| ==>
      CountSorted(xs)[i].key in xs && CountSorted(xs)[i].count == multiset(xs)[CountSorted(xs)[i].key]
    ensures Sum(CountSorted(xs)) == |xs|
    ensures SortedByCount(CountSorted(xs))
    ensures forall i, j :: 0 <= i < j < |CountSorted(xs)| && CountSorted(xs)[i].count == CountSorted(xs)[j].count ==>
      FirstIndex(xs, CountSorted(xs)[i].key) < FirstIndex(xs, CountSorted(xs)[j].key)
  {
    var t := Tally(xs);
    TallyKeys(xs);
    TallySum(xs);
    SortKeepsKeySet(t);
    SortKeepsDistinct(t);
    CountSortedEntries(xs);
    CountSortedTies(xs);
  }

  /** Sorting only reorders: every sorted entry is one of the input's. */
  lemma SortedFromInput<K>(es: seq<Entry<K>>)
    ensures forall i :: 0 <= i < |SortByCount(es)| ==> SortByCount(es)[i] in es
  {
    var r := SortByCount(es);
    forall i | 0 <= i < |r| ensures r[i] in es {
      assert r[i] in multiset(r);
    }
  }

  /** Every entry of the tally is a key of `xs` with its number of occurrences. */
  lemma TallyEntries<K>(xs: seq<K>)
    ensures forall e :: e in Tally(xs) ==> e.key in xs && e.count == multiset(xs)[e.key]
  {
    var t := Tally(xs);
    TallyKeys(xs);
    TallyCounts(xs);
    forall e | e in t ensures e.key in xs && e.count == multiset(xs)[e.key] {
      var j :| 0 <= j < |t| && t[j] == e;
      assert e.key in KeySet(t);
    }
  }

  lemma CountSortedEntries<K>(xs: seq<K>)
    ensures forall i :: 0 <= i < |CountSorted(xs)| ==>
      CountSorted(xs)[i].key in xs && CountSorted(xs)[i].count == multiset(xs)[CountSorted(xs)[i].key]
  {
    SortedFromInput(Tally(xs));
    TallyEntries(xs);
  }

  lemma CountSortedTies<K>(xs: seq<K>)
    ensures forall i :: 0 <= i < |CountSorted(xs)| ==> CountSorted(xs)[i].key in xs
    ensures forall i, j :: 0 <= i < j < |CountSorted(xs)| && CountSorted(xs)[i].count == CountSorted(xs)[j].count ==>
      FirstIndex(xs, CountSorted(xs)[i].key) < FirstIndex(xs, CountSorted(xs)[j].key)
  {
    var t := Tally(xs);
    var r := CountSorted(xs);
    CountSortedEntries(xs);
    TallyOrder(xs);
    forall i, j | 0 <= i < j < |r| && r[i].count == r[j].count
      ensures FirstIndex(xs, r[i].key) < FirstIndex(xs, r[j].key)
    {
      var c := r[i].count;
      WithCountKeepsOrder(t, xs, c);
      TiesInOrder(r, xs, c, i, j);
    }
  }



  /** Counting gives nothing exactly when there is nothing to count. */
  lemma CountSortedEmptyIff<K>(xs: seq<K>)
    ensures CountSorted(xs) == [] <==> xs == []
  {
    CountSortedSpec(xs);
    if xs != [] {
      assert xs[0] in KeySet(CountSorted(xs));
    }
  }

  lemma TallyOfTwo<K>(x: K, y: K)
    requires x != y
    ensures Tally([x]) == [Entry(x, 1)]
    ensures Tally([x, y]) == [Entry(x, 1), Entry(y, 1)]
  {
    var e: seq<K> := [];
    TallyStep(e, x);
    assert e + [x] == [x];
    TallyStep([x], y);
    assert [x] + [y] == [x, y];
    BumpNew([Entry(x, 1)], y);
  }

  lemma TallyOfFour<K>(x: K, y: K)
    requires x != y
    ensures Tally([x, y, y, x]) == [Entry(x, 2), Entry(y, 2)]
  {
    TallyOfTwo(x, y);
    TallyStep([x, y], y);
    assert [x, y] + [y] == [x, y, y];
    BumpExisting([Entry(x, 1), Entry(y, 1)], y, 1);
    assert [Entry(x, 1), Entry(y, 1)][1 := Entry(y, 2)] == [Entry(x, 1), Entry(y, 2)];
    TallyStep([x, y, y], x);
    assert [x, y, y] + [x] == [x, y, y, x];
    BumpExisting([Entry(x, 1), Entry(y, 2)], x, 0);
    assert [Entry(x, 1), Entry(y, 2)][0 := Entry(x, 2)] == [Entry(x, 2), Entry(y, 2)];
  }

  /** Two entries already in count order stay as they are. */
  lemma SortOfTwo<K>(a: Entry<K>, b: Entry<K>)
    requires a.count <= b.count
    ensures SortByCount([a, b]) == [a, b]
  {
    var t := [a, b];
    assert t[1..] == [b] && t[1..][1..] == [];
  }

  /** Two keys seen once each keep the order in which they appeared. */
  lemma TieKeepsFirstAppearance<K>(x: K, y: K)
    requires x != y
    ensures CountSorted([x, y]) == [Entry(x, 1), Entry(y, 1)]
  {
    TallyOfTwo(x, y);
    SortOfTwo(Entry(x, 1), Entry(y, 1));
  }

  /** Ties are ordered by the first appearance of each key, not by which
      key reached the shared count first: in `x, y, y, x` the key `y`
      reaches 2 first, yet `x` comes first. */
  lemma TieOrderIsFirstAppearance<K>(x: K, y: K)
    requires x != y
    ensures CountSorted([x, y, y, x]) == [Entry(x, 2), Entry(y, 2)]
  {
    TallyOfFour(x, y);
    SortOfTwo(Entry(x, 2), Entry(y, 2));
  }

  // ---- Lemmas: the scan ----

  /** One more record: an abort ends the scan, a contributing record
      appends its key, a skipped one changes nothing. */
  lemma CollectAppendOne<K>(p: seq<Outcome<K>>, o: Outcome<K>)
    ensures Collect(p + [o]) ==
      if Collect(p).None? || o.Aborted? then None
      else if o.Counted? then Some(Collect(p).value + [o.key])
      else Collect(p)
  {
    assert (p + [o])[..|p|] == p;
  }

  lemma CountedIndicesAppend<K>(p: seq<Outcome<K>>, o: Outcome<K>)
    ensures CountedIndices(p + [o]) == CountedIndices(p) + (if o.Counted? then {|p|} else {})
  {
    var os := p + [o];
    forall i | i in CountedIndices(os) && i < |p| ensures i in CountedIndices(p) {
      assert os[i] == p[i];
    }
    forall i | i in CountedIndices(p) ensures i in CountedIndices(os) {
      assert os[i] == p[i];
    }
  }

  lemma IndicesOfAppend<K>(p: seq<Outcome<K>>, o: Outcome<K>, k: K)
    ensures IndicesOf(p + [o], k) == IndicesOf(p, k) + (if o == Counted(k) then {|p|} else {})
  {
    var os := p + [o];
    forall i | i in IndicesOf(os, k) && i < |p| ensures i in IndicesOf(p, k) {
      assert os[i] == p[i];
    }
    forall i | i in IndicesOf(p, k) ensures i in IndicesOf(os, k) {
      assert os[i] == p[i];
    }
  }

  /** One key is gathered per contributing record. */
  lemma {:induction false} CollectLength<K>(os: seq<Outcome<K>>, ks: seq<K>)
    requires Collect(os) == Some(ks)
    ensures |ks| == |CountedIndices(os)|
  {
    if os == [] {
      assert CountedIndices(os) == {};
    } else {
      var p, o := os[..|os| - 1], os[|os| - 1];
      assert os == p + [o];
      var ks0 := Collect(p).value;
      CollectLength(p, ks0);
      CountedIndicesAppend(p, o);
    }
  }

  /** Each key is gathered as many times as records contribute it. */
  lemma {:induction false} CollectMultiplicity<K>(os: seq<Outcome<K>>, ks: seq<K>, k: K)
    requires Collect(os) == Some(ks)
    ensures multiset(ks)[k] == |IndicesOf(os, k)|
  {
    if os == [] {
      assert IndicesOf(os, k) == {};
    } else {
      var p, o := os[..|os| - 1], os[|os| - 1];
      assert os == p + [o];
      var ks0 := Collect(p).value;
      CollectMultiplicity(p, ks0, k);
      IndicesOfAppend(p, o, k);
      if o.Counted? {
        assert ks == ks0 + [o.key];
      }
    }
  }

  /** The gathered keys are exactly the keys of the contributing records,
      as many times as records contribute them. */
  lemma CollectCounts<K>(os: seq<Outcome<K>>, ks: seq<K>)
    requires Collect(os) == Some(ks)
    ensures |ks| == |CountedIndices(os)|
    ensures forall k :: multiset(ks)[k] == |IndicesOf(os, k)|
    ensures forall k :: k in ks <==> Counted(k) in os
  {
    CollectLength(os, ks);
    forall k ensures multiset(ks)[k] == |IndicesOf(os, k)| && (k in ks <==> Counted(k) in os) {
      CollectMultiplicity(os, ks, k);
      if Counted(k) in os {
        var i :| 0 <= i < |os| && os[i] == Counted(k);
        assert i in IndicesOf(os, k);
      } else {
        assert IndicesOf(os, k) == {};
      }
    }
  }

  /** No key is gathered exactly when no record contributes one. */
  lemma CollectEmptyIff<K>(os: seq<Outcome<K>>, ks: seq<K>)
    requires Collect(os) == Some(ks)
    ensures ks == [] <==> forall i :: 0 <= i < |os| ==> !os[i].Counted?
  {
    CollectLength(os, ks);
    if ks == [] {
      assert CountedIndices(os) == {};
    } else {
      var i :| i in CountedIndices(os);
    }
  }

  /** The first appearance of a key in the gathered list follows the first
      record that contributes it. */
  lemma {:induction false} CollectFirstSeen<K>(os: seq<Outcome<K>>, ks: seq<K>, a: K, b: K)
    requires Collect(os) == Some(ks)
    requires a in ks && b in ks
    requires FirstIndex(ks, a) < FirstIndex(ks, b)
    ensures Counted(a) in os && Counted(b) in os
    ensures FirstIndex(os, Counted(a)) < FirstIndex(os, Counted(b))
  {
    CollectCounts(os, ks);
    var p, o := os[..|os| - 1], os[|os| - 1];
    assert os == p + [o];
    var ks0 := Collect(p).value;
    CollectCounts(p, ks0);
    if ks == ks0 {
      CollectFirstSeen(p, ks0, a, b);
      FirstIndexAppend(p, o, Counted(a));
      FirstIndexAppend(p, o, Counted(b));
    } else {
      var x := o.key;
      assert ks == ks0 + [x];
      if b in ks0 {
        FirstIndexAppend(ks0, x, a);
        FirstIndexAppend(ks0, x, b);
        CollectFirstSeen(p, ks0, a, b);
        FirstIndexAppend(p, o, Counted(a));
        FirstIndexAppend(p, o, Counted(b));
      } else {
        FirstIndexNew(ks0, b);
        if a !in ks0 {
          assert false;
        }
        FirstIndexNew(p, Counted(b));
        FirstIndexAppend(p, o, Counted(a));
      }
    }
  }

  /** A skipped record can be left out without changing the gathered keys. */
  lemma {:induction false} CollectDropSkipped<K>(p: seq<Outcome<K>>, q: seq<Outcome<K>>)
    ensures Collect(p + [Skipped] + q) == Collect(p + q)
    decreases |q|
  {
    if q == [] {
      assert p + [Skipped] + q == p + [Skipped];
      assert (p + [Skipped])[..|p|] == p;
      assert p + q == p;
    } else {
      var q', o := q[..|q| - 1], q[|q| - 1];
      assert q == q' + [o];
      CollectDropSkipped(p, q');
      assert (p + [Skipped] + q)[..|p + [Skipped] + q| - 1] == p + [Skipped] + q';
      assert (p + q)[..|p + q| - 1] == p + q';
    }
  }

  /** Records that are all skipped in front change nothing. */
  lemma {:induction false} CollectSkippedPrefix<K>(p: seq<Outcome<K>>, q: seq<Outcome<K>>)
    requires forall i :: 0 <= i < |p| ==> p[i].Skipped?
    ensures Collect(p + q) == Collect(q)
  {
    if p == [] {
      assert p + q == q;
    } else {
      var p' := p[..|p| - 1];
      assert p[|p| - 1] == Skipped;
      assert p + q == p' + [Skipped] + q;
      CollectDropSkipped(p', q);
      CollectSkippedPrefix(p', q);
    }
  }

  /** The whole pipeline, scan then count then sort, meets `IsFrequencyReport`. */
  lemma FrequencyOfOutcomes<K>(os: seq<Outcome<K>>)
    requires Aborted !in os
    ensures Collect(os).Some?
    ensures IsFrequencyReport(CountSorted(Collect(os).value), os)
  {
    var ks := Collect(os).value;
    var r := CountSorted(ks);
    assert DistinctKeys(r) && SortedByCount(r) && Sum(r) == |CountedIndices(os)| by {
      CollectCounts(os, ks);
      CountSortedSpec(ks);
    }
    ReportKeys(os, ks);
    ReportCounts(os, ks);
    ReportTies(os, ks);
  }

  lemma ReportKeys<K>(os: seq<Outcome<K>>, ks: seq<K>)
    requires Collect(os) == Some(ks)
    ensures KeySet(CountSorted(ks)) == CountedKeys(os)
  {
    CollectCounts(os, ks);
    CountSortedSpec(ks);
    forall k ensures k in KeySet(CountSorted(ks)) <==> k in CountedKeys(os) {
      if k in CountedKeys(os) {
        var o :| o in os && o.Counted? && o.key == k;
        assert o == Counted(k);
      }
    }
  }

  lemma ReportCounts<K>(os: seq<Outcome<K>>, ks: seq<K>)
    requires Collect(os) == Some(ks)
    ensures var r := CountSorted(ks);
      forall i :: 0 <= i < |r| ==> Counted(r[i].key) in os && 1 <= r[i].count == |IndicesOf(os, r[i].key)|
  {
    CollectCounts(os, ks);
    CountSortedSpec(ks);
    var r := CountSorted(ks);
    forall i | 0 <= i < |r| ensures Counted(r[i].key) in os && 1 <= r[i].count == |IndicesOf(os, r[i].key)| {
      assert r[i].key in ks;
    }
  }

  lemma ReportTies<K>(os: seq<Outcome<K>>, ks: seq<K>)
    requires Collect(os) == Some(ks)
    ensures var r := CountSorted(ks);
      forall i, j :: 0 <= i < j < |r| && r[i].count == r[j].count ==>
        && Counted(r[i].key) in os && Counted(r[j].key) in os
        && FirstIndex(os, Counted(r[i].key)) < FirstIndex(os, Counted(r[j].key))
  {
    CollectCounts(os, ks);
    CountSortedSpec(ks);
    var r := CountSorted(ks);
    forall i, j | 0 <= i < j < |r| && r[i].count == r[j].count
      ensures Counted(r[i].key) in os && Counted(r[j].key) in os
      ensures FirstIndex(os, Counted(r[i].key)) < FirstIndex(os, Counted(r[j].key))
    {
      CollectFirstSeen(os, ks, r[i].key, r[j].key);
    }
  }
}
