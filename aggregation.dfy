/**
 * Per-key aggregates (`Location`: min, max, total and count of tenths) and the
 * one accumulate-or-insert rule that the sequential scan, the chunk worker and
 * the merge loop all apply.
 */
module Aggregation {
  import opened Bytes

  /** A location name: the bytes before the first ';' of a line. */
  type Key = seq<Byte>

  /** `Location`: the aggregate of one key, all values in tenths. */
  datatype Location = Location(min: int, max: int, total: int, count: nat)

  /** The aggregate of a single observation: Min = Max = Total = v, Count = 1. */
  function Single(v: int): Location {
    Location(v, v, v, 1)
  }

  /**
   * Folding `other` into `loc`: counts and totals add; the minimum and maximum
   * are replaced when `other` has a smaller minimum or a larger maximum.
   */
  function Combine(loc: Location, other: Location): (r: Location)
    ensures r.min <= loc.min && r.min <= other.min && (r.min == loc.min || r.min == other.min)
    ensures r.max >= loc.max && r.max >= other.max && (r.max == loc.max || r.max == other.max)
    ensures r.count == loc.count + other.count && r.total == loc.total + other.total
  {
    Location(
      if loc.min > other.min then other.min else loc.min,
      if loc.max < other.max then other.max else loc.max,
      loc.total + other.total,
      loc.count + other.count)
  }

  /** One aggregate for one key, as a line or a chunk-local map yields it. */
  datatype Entry = Entry(key: Key, loc: Location)

  /**
   * Accumulate-or-insert: a key not in the map is inserted with its aggregate;
   * a key already there has the new aggregate folded into its old one.
   */
  function Insert(m: map<Key, Location>, e: Entry): (r: map<Key, Location>)
    ensures r.Keys == m.Keys + {e.key}
    ensures e.key in m ==> r[e.key] == Combine(m[e.key], e.loc)
    ensures e.key !in m ==> r[e.key] == e.loc
    ensures forall k :: k in m && k != e.key ==> r[k] == m[k]
  {
    if e.key in m then m[e.key := Combine(m[e.key], e.loc)] else m[e.key := e.loc]
  }

  /**
   * The accumulate-or-insert block as the loops write it: a new key is stored
   * with `other`; a known key's aggregate is copied out, its Count and Total
   * increased, Max and Min replaced where `other` exceeds them, and stored
   * back. For a single reading (Count 1) the count update is `Count++`.
   */
  method Accumulate(m: map<Key, Location>, key: Key, other: Location) returns (r: map<Key, Location>)
    ensures r == Insert(m, Entry(key, other))
  {
    if key !in m {
      return m[key := other];
    }
    var loc := m[key];
    loc := loc.(count := loc.count + other.count, total := loc.total + other.total);
    if loc.max < other.max {
      loc := loc.(max := other.max);
    }
    if loc.min > other.min {
      loc := loc.(min := other.min);
    }
    r := m[key := loc];
  }

  /** The map that accumulating `es` from left to right into an empty map produces. */
  function Aggregate(es: seq<Entry>): map<Key, Location> {
    if es == [] then map[] else Insert(Aggregate(es[..|es| - 1]), es[|es| - 1])
  }

  /** The key-wise merge of two maps, combining the aggregates of shared keys. */
  function Merge(m: map<Key, Location>, c: map<Key, Location>): (r: map<Key, Location>)
    ensures r.Keys == m.Keys + c.Keys
    ensures forall k :: k in m && k in c ==> r[k] == Combine(m[k], c[k])
    ensures forall k :: k in m && k !in c ==> r[k] == m[k]
    ensures forall k :: k !in m && k in c ==> r[k] == c[k]
  {
    map k | k in m.Keys + c.Keys ::
      if k in m && k in c then Combine(m[k], c[k]) else if k in m then m[k] else c[k]
  }

  /** The maps merged one after another, in the order given, into an empty map. */
  function MergeAll(ms: seq<map<Key, Location>>): map<Key, Location> {
    if ms == [] then map[] else Merge(MergeAll(ms[..|ms| - 1]), ms[|ms| - 1])
  }

  lemma CombineCommutative(a: Location, b: Location)
    ensures Combine(a, b) == Combine(b, a)
  {
  }

  lemma CombineAssociative(a: Location, b: Location, c: Location)
    ensures Combine(Combine(a, b), c) == Combine(a, Combine(b, c))
  {
  }

  /** Merge order between two maps does not matter. */
  lemma MergeCommutative(m: map<Key, Location>, c: map<Key, Location>)
    ensures Merge(m, c) == Merge(c, m)
  {
    forall k | k in m && k in c ensures Merge(m, c)[k] == Merge(c, m)[k] {
      CombineCommutative(m[k], c[k]);
    }
  }

  /** Merge grouping does not matter. */
  lemma MergeAssociative(a: map<Key, Location>, b: map<Key, Location>, c: map<Key, Location>)
    ensures Merge(Merge(a, b), c) == Merge(a, Merge(b, c))
  {
    var l, r := Merge(Merge(a, b), c), Merge(a, Merge(b, c));
    forall k | k in l ensures l[k] == r[k] {
      if k in a && k in b && k in c {
        CombineAssociative(a[k], b[k], c[k]);
      }
    }
  }

  lemma MergeEmpty(m: map<Key, Location>)
    ensures Merge(m, map[]) == m && Merge(map[], m) == m
  {
  }

  /** Accumulating one entry is merging the one-key map it forms. */
  lemma InsertIsMerge(m: map<Key, Location>, e: Entry)
    ensures Insert(m, e) == Merge(m, map[e.key := e.loc])
  {
  }

  /**
   * Accumulating two runs of entries one after the other is merging the maps
   * the two runs give on their own: chunks can be aggregated separately.
   */
  lemma {:induction false} AggregateAppend(a: seq<Entry>, b: seq<Entry>)
    ensures Aggregate(a + b) == Merge(Aggregate(a), Aggregate(b))
    decreases |b|
  {
    if b == [] {
      assert a + b == a;
      MergeEmpty(Aggregate(a));
    } else {
      var b', e := b[..|b| - 1], b[|b| - 1];
      assert (a + b)[..|a + b| - 1] == a + b' && (a + b)[|a + b| - 1] == e;
      calc {
        Aggregate(a + b);
        Insert(Aggregate(a + b'), e);
        { AggregateAppend(a, b'); }
        Insert(Merge(Aggregate(a), Aggregate(b')), e);
        { InsertIsMerge(Merge(Aggregate(a), Aggregate(b')), e); }
        Merge(Merge(Aggregate(a), Aggregate(b')), map[e.key := e.loc]);
        { MergeAssociative(Aggregate(a), Aggregate(b'), map[e.key := e.loc]); }
        Merge(Aggregate(a), Merge(Aggregate(b'), map[e.key := e.loc]));
        { InsertIsMerge(Aggregate(b'), e); }
        Merge(Aggregate(a), Aggregate(b));
      }
    }
  }

  /** Merging `x` and then `y` is merging `y` and then `x`. */
  lemma MergeSwap(p: map<Key, Location>, x: map<Key, Location>, y: map<Key, Location>)
    ensures Merge(Merge(p, x), y) == Merge(Merge(p, y), x)
  {
    MergeAssociative(p, x, y);
    MergeCommutative(x, y);
    MergeAssociative(p, y, x);
  }

  /** Merging one map earlier or last gives the same result. */
  lemma {:induction false} MergeAllMoveToEnd(a: seq<map<Key, Location>>, x: map<Key, Location>, b: seq<map<Key, Location>>)
    ensures MergeAll(a + [x] + b) == Merge(MergeAll(a + b), x)
    decreases |b|
  {
    if b == [] {
      assert a + [x] + b == a + [x] && a + b == a;
      assert (a + [x])[..|a|] == a;
    } else {
      var b', y := b[..|b| - 1], b[|b| - 1];
      assert (a + [x] + b)[..|a + [x] + b| - 1] == a + [x] + b';
      assert (a + b)[..|a + b| - 1] == a + b';
      calc {
        MergeAll(a + [x] + b);
        Merge(MergeAll(a + [x] + b'), y);
        { MergeAllMoveToEnd(a, x, b'); }
        Merge(Merge(MergeAll(a + b'), x), y);
        { MergeSwap(MergeAll(a + b'), x, y); }
        Merge(Merge(MergeAll(a + b'), y), x);
        Merge(MergeAll(a + b), x);
      }
    }
  }

  /**
   * The merged result depends only on which chunk maps arrived, not on the
   * order they arrived in.
   */
  lemma {:induction false} MergeAllPermutation(ms1: seq<map<Key, Location>>, ms2: seq<map<Key, Location>>)
    requires multiset(ms1) == multiset(ms2)
    ensures MergeAll(ms1) == MergeAll(ms2)
    decreases |ms2|
  {
    if ms2 == [] {
      assert |ms1| == |multiset(ms1)| == 0;
    } else {
      var rest2, x := ms2[..|ms2| - 1], ms2[|ms2| - 1];
      assert ms2 == rest2 + [x];
      var a, b := RemoveOne(ms1, rest2, x);
      MergeAllPermutation(a + b, rest2);
      MergeAllMoveToEnd(a, x, b);
      assert ms2 == rest2 + [x];
    }
  }

  /** Where `x` sits in `ms1` when `ms1` holds what `rest + [x]` holds. */
  lemma RemoveOne<T>(ms1: seq<T>, rest: seq<T>, x: T) returns (a: seq<T>, b: seq<T>)
    requires multiset(ms1) == multiset(rest + [x])
    ensures ms1 == a + [x] + b && multiset(a + b) == multiset(rest)
  {
    assert x in multiset(ms1);
    var i :| 0 <= i < |ms1| && ms1[i] == x;
    a, b := ms1[..i], ms1[i + 1..];
    assert ms1 == a + [x] + b;
    calc {
      multiset(a + b);
      multiset(a) + multiset(b);
      multiset(ms1) - multiset{x};
      multiset(rest + [x]) - multiset{x};
      multiset(rest);
    }
  }

  /** The aggregate of each run, run by run. */
  function AggregateEach(runs: seq<seq<Entry>>): (ms: seq<map<Key, Location>>)
    ensures |ms| == |runs|
  {
    if runs == [] then [] else AggregateEach(runs[..|runs| - 1]) + [Aggregate(runs[|runs| - 1])]
  }

  /** The aggregate of one more run extends the aggregates of the runs before it. */
  lemma AggregateEachStep(runs: seq<seq<Entry>>, i: nat, m: map<Key, Location>)
    requires i < |runs| && m == Aggregate(runs[i])
    ensures AggregateEach(runs[..i]) + [m] == AggregateEach(runs[..i + 1])
  {
    assert runs[..i + 1][..i] == runs[..i];
  }

  /** Merging the aggregates of consecutive runs of entries aggregates all of them. */
  lemma {:induction false} MergeAllAggregates(runs: seq<seq<Entry>>)
    ensures MergeAll(AggregateEach(runs)) == Aggregate(Concat(runs))
    decreases |runs|
  {
    if runs != [] {
      var n := |runs| - 1;
      var ms := AggregateEach(runs);
      MergeAllAggregates(runs[..n]);
      assert ms[..n] == AggregateEach(runs[..n]);
      ConcatSnoc(runs[..n], runs[n]);
      assert runs[..n] + [runs[n]] == runs;
      AggregateAppend(Concat(runs[..n]), runs[n]);
    }
  }

  /** The runs laid end to end. */
  function Concat<T>(runs: seq<seq<T>>): seq<T> {
    if runs == [] then [] else runs[0] + Concat(runs[1..])
  }

  lemma {:induction false} ConcatSnoc<T>(runs: seq<seq<T>>, last: seq<T>)
    ensures Concat(runs + [last]) == Concat(runs) + last
    decreases |runs|
  {
    if runs == [] {
      assert [] + [last] == [last];
    } else {
      assert (runs + [last])[1..] == runs[1..] + [last];
      ConcatSnoc(runs[1..], last);
    }
  }

  /** The values (in tenths) of the entries for key `k`, in order. */
  function ValuesFor(es: seq<Entry>, k: Key): seq<int> {
    if es == [] then []
    else ValuesFor(es[..|es| - 1], k) + (if es[|es| - 1].key == k then [es[|es| - 1].loc.total] else [])
  }

  function Sum(vs: seq<int>): int {
    if vs == [] then 0 else Sum(vs[..|vs| - 1]) + vs[|vs| - 1]
  }

  /** Every entry is one observation, as every accepted line gives. */
  predicate Observations(es: seq<Entry>) {
    forall i :: 0 <= i < |es| ==> es[i].loc == Single(es[i].loc.total)
  }

  /**
   * What accumulating observations gives each key: it is present exactly when
   * some observation has that key, and then Count is the number of those
   * observations, Total their sum, Min and Max their least and greatest value.
   */
  lemma {:induction false} AggregateSummary(es: seq<Entry>, k: Key)
    requires Observations(es)
    ensures k in Aggregate(es) <==> |ValuesFor(es, k)| > 0
    ensures k in Aggregate(es) ==>
      var loc, vs := Aggregate(es)[k], ValuesFor(es, k);
      && loc.count == |vs| && loc.total == Sum(vs)
      && loc.min in vs && loc.max in vs
      && forall i :: 0 <= i < |vs| ==> loc.min <= vs[i] <= loc.max
    decreases |es|
  {
    if es != [] {
      var es', e := es[..|es| - 1], es[|es| - 1];
      assert Observations(es') by {
        forall i | 0 <= i < |es'| ensures es'[i].loc == Single(es'[i].loc.total) {
          assert es'[i] == es[i];
        }
      }
      AggregateSummary(es', k);
      var vs', vs := ValuesFor(es', k), ValuesFor(es, k);
      if e.key == k {
        assert vs == vs' + [e.loc.total];
        assert vs[..|vs| - 1] == vs';
        assert forall i :: 0 <= i < |vs'| ==> vs[i] == vs'[i];
      } else {
        assert vs == vs';
      }
    }
  }

  /** The invariant every stored aggregate keeps: a non-empty sample with Min <= Total/Count <= Max. */
  predicate Valid(loc: Location) {
    loc.count >= 1 && loc.min <= loc.max &&
    loc.min * loc.count <= loc.total <= loc.max * loc.count
  }

  predicate ValidMap(m: map<Key, Location>) {
    forall k :: k in m ==> Valid(m[k])
  }

  lemma MulMono(a: int, b: int, c: nat)
    requires a <= b
    ensures a * c <= b * c
  {
  }

  /** Folding one valid aggregate into another keeps it valid. */
  lemma CombineValid(a: Location, b: Location)
    requires Valid(a) && Valid(b)
    ensures Valid(Combine(a, b))
  {
    var r := Combine(a, b);
    MulMono(r.min, a.min, a.count);
    MulMono(r.min, b.min, b.count);
    MulMono(a.max, r.max, a.count);
    MulMono(b.max, r.max, b.count);
    assert r.min * r.count == r.min * a.count + r.min * b.count;
    assert r.max * r.count == r.max * a.count + r.max * b.count;
  }

  lemma MergeValid(m: map<Key, Location>, c: map<Key, Location>)
    requires ValidMap(m) && ValidMap(c)
    ensures ValidMap(Merge(m, c))
  {
    forall k | k in m && k in c ensures Valid(Merge(m, c)[k]) {
      CombineValid(m[k], c[k]);
    }
  }

  /** Every aggregate that accumulating valid entries stores is valid. */
  lemma {:induction false} AggregateValid(es: seq<Entry>)
    requires forall i :: 0 <= i < |es| ==> Valid(es[i].loc)
    ensures ValidMap(Aggregate(es))
    decreases |es|
  {
    if es != [] {
      var es', e := es[..|es| - 1], es[|es| - 1];
      AggregateValid(es');
      InsertIsMerge(Aggregate(es'), e);
      MergeValid(Aggregate(es'), map[e.key := e.loc]);
    }
  }

  /** Observations are valid aggregates, so accumulating them stores only valid aggregates. */
  lemma ObservationsValid(es: seq<Entry>)
    requires Observations(es)
    ensures ValidMap(Aggregate(es))
  {
    forall i | 0 <= i < |es| ensures Valid(es[i].loc) {
      assert es[i].loc == Single(es[i].loc.total);
    }
    AggregateValid(es);
  }

  /** Runs of observations laid end to end are observations. */
  lemma {:induction false} ObservationsConcat(runs: seq<seq<Entry>>)
    requires forall i :: 0 <= i < |runs| ==> Observations(runs[i])
    ensures Observations(Concat(runs))
    decreases |runs|
  {
    if runs != [] {
      var head, tail := runs[0], runs[1..];
      assert forall i :: 0 <= i < |tail| ==> tail[i] == runs[i + 1];
      ObservationsConcat(tail);
      var c := Concat(runs);
      assert c == head + Concat(tail);
      forall i | 0 <= i < |c| ensures c[i].loc == Single(c[i].loc.total) {
        if i < |head| {
          assert c[i] == head[i];
        } else {
          assert c[i] == Concat(tail)[i - |head|];
        }
      }
    }
  }

  /** The keys of a sequence, as a set. */
  function Elements(s: seq<Key>): set<Key> {
    set i | 0 <= i < |s| :: s[i]
  }

  predicate NoDuplicates(s: seq<Key>) {
    forall i, j :: 0 <= i < j < |s| ==> s[i] != s[j]
  }

  /**
   * The insertion-ordered key list kept beside a map: every key of the map
   * exactly once.
   */
  predicate KeyList(locations: seq<Key>, m: map<Key, Location>) {
    NoDuplicates(locations) && Elements(locations) == m.Keys
  }

  /** Appending a key only when it is new to the map keeps the key list exact. */
  lemma KeyListInsert(locations: seq<Key>, m: map<Key, Location>, e: Entry)
    requires KeyList(locations, m)
    ensures e.key in m ==> KeyList(locations, Insert(m, e))
    ensures e.key !in m ==> KeyList(locations + [e.key], Insert(m, e))
  {
    if e.key !in m {
      var l := locations + [e.key];
      assert Elements(l) == Elements(locations) + {e.key} by {
        assert forall i :: 0 <= i < |locations| ==> l[i] == locations[i];
        assert l[|locations|] == e.key;
      }
      forall i, j | 0 <= i < j < |l| ensures l[i] != l[j] {
        if j == |locations| {
          assert l[i] == locations[i] && locations[i] in Elements(locations);
        }
      }
    }
  }
}
