/** Dictionaries keyed by (e, f) pairs, and the translation-probability
    table: such a dictionary plus the default that every missing key reads. */
module ProbTables {
  import opened Sentences

  /** A dictionary of reals keyed by pairs, with its insertion order. */
  datatype PairDict = PairDict(order: seq<Pair>, vals: map<Pair, real>) {

    ghost predicate Valid() {
      Distinct(order) && forall k :: k in order <==> k in vals
    }

    /** `d[k] = v`: an existing key keeps its place in the order. */
    function Put(k: Pair, v: real): PairDict {
      PairDict(AppendUnseen(order, [k]), vals[k := v])
    }

    /** `d[k]` on a `defaultdict(float)`, as a value. */
    function ValueOr0(k: Pair): real {
      if k in vals then vals[k] else 0.0
    }

    /** `d[k] += x` on a `defaultdict(float)`. */
    function Add(k: Pair, x: real): PairDict {
      Put(k, ValueOr0(k) + x)
    }

    /** Every value is strictly positive. */
    ghost predicate Positive() {
      forall k :: k in vals ==> vals[k] > 0.0
    }

    /** The sum of the values whose key has foreign word f. */
    function SumFor(f: Token): real
      requires Valid()
    {
      SumOver(order, vals, f)
    }
  }

  function SumOver(ks: seq<Pair>, vals: map<Pair, real>, f: Token): real
    requires forall k :: k in ks ==> k in vals
  {
    if ks == [] then 0.0
    else
      var k := ks[|ks| - 1];
      SumOver(ks[..|ks| - 1], vals, f) + (if k.1 == f then vals[k] else 0.0)
  }

  function EmptyDict(): (d: PairDict)
    ensures d.Valid() && d.order == []
    ensures forall f :: d.SumFor(f) == 0.0
  {
    PairDict([], map[])
  }

  lemma PutValid(d: PairDict, k: Pair, v: real)
    requires d.Valid()
    ensures d.Put(k, v).Valid()
    ensures k in d.vals ==> d.Put(k, v).order == d.order
    ensures k !in d.vals ==> d.Put(k, v).order == d.order + [k]
  {
    AppendUnseenOne(d.order, k);
  }

  /** The sum only reads the values of the keys it runs over. */
  lemma {:induction false} SumOverOnly(ks: seq<Pair>, m1: map<Pair, real>, m2: map<Pair, real>, f: Token)
    requires forall k :: k in ks ==> k in m1 && k in m2 && m1[k] == m2[k]
    ensures SumOver(ks, m1, f) == SumOver(ks, m2, f)
    decreases |ks|
  {
    if ks != [] {
      SumOverOnly(ks[..|ks| - 1], m1, m2, f);
    }
  }

  /** Changing the value of one key that occurs once changes the sum for its
      foreign word by the difference, and no other sum. */
  lemma {:induction false} SumOverUpdate(ks: seq<Pair>, vals: map<Pair, real>, k: Pair, v: real, f: Token)
    requires Distinct(ks) && k in ks
    requires forall x :: x in ks ==> x in vals
    ensures SumOver(ks, vals[k := v], f)
         == SumOver(ks, vals, f) + (if k.1 == f then v - vals[k] else 0.0)
    decreases |ks|
  {
    var n := |ks| - 1;
    if ks[n] == k {
      assert k !in ks[..n];
      SumOverOnly(ks[..n], vals, vals[k := v], f);
    } else {
      SumOverUpdate(ks[..n], vals, k, v, f);
    }
  }

  /** `d[k] += x` raises the sum for k's foreign word by x and no other. */
  lemma SumForAdd(d: PairDict, k: Pair, x: real, f: Token)
    requires d.Valid()
    ensures d.Add(k, x).Valid()
    ensures d.Add(k, x).SumFor(f) == d.SumFor(f) + (if k.1 == f then x else 0.0)
  {
    var v := d.ValueOr0(k) + x;
    PutValid(d, k, v);
    if k in d.vals {
      SumOverUpdate(d.order, d.vals, k, v, f);
    } else {
      var ks := d.order + [k];
      assert ks[..|ks| - 1] == d.order;
      SumOverOnly(d.order, d.vals, d.vals[k := v], f);
    }
  }

  /** A value of a sum of non-negative values is at most the sum. */
  lemma {:induction false} TermAtMostSum(ks: seq<Pair>, vals: map<Pair, real>, k: Pair)
    requires k in ks
    requires forall x :: x in ks ==> x in vals && vals[x] >= 0.0
    ensures vals[k] <= SumOver(ks, vals, k.1)
    decreases |ks|
  {
    var n := |ks| - 1;
    SumNonNegative(ks[..n], vals, k.1);
    if ks[n] != k {
      TermAtMostSum(ks[..n], vals, k);
    }
  }

  lemma {:induction false} SumNonNegative(ks: seq<Pair>, vals: map<Pair, real>, f: Token)
    requires forall x :: x in ks ==> x in vals && vals[x] >= 0.0
    ensures SumOver(ks, vals, f) >= 0.0
    decreases |ks|
  {
    if ks != [] {
      SumNonNegative(ks[..|ks| - 1], vals, f);
    }
  }

  /** Dividing every value for f by d divides their sum by d. */
  lemma {:induction false} SumOverScaled(ks: seq<Pair>, num: map<Pair, real>, q: map<Pair, real>, f: Token, d: real)
    requires d != 0.0
    requires forall k :: k in ks ==> k in num && k in q
    requires forall k :: k in ks && k.1 == f ==> q[k] == num[k] / d
    ensures SumOver(ks, q, f) == SumOver(ks, num, f) / d
    decreases |ks|
  {
    if ks != [] {
      var n := |ks| - 1;
      var k := ks[n];
      assert forall x :: x in ks[..n] ==> x in ks;
      SumOverScaled(ks[..n], num, q, f, d);
      var a := SumOver(ks[..n], num, f);
      if k.1 == f {
        assert SumOver(ks, num, f) == a + num[k];
        assert SumOver(ks, q, f) == a / d + num[k] / d;
        QuotientSum(a, num[k], d);
      } else {
        assert SumOver(ks, num, f) == a;
        assert SumOver(ks, q, f) == a / d;
      }
    }
  }

  lemma QuotientSum(a: real, x: real, d: real)
    requires d != 0.0
    ensures a / d + x / d == (a + x) / d
  {
  }

  /** The translation table t(e | f): explicit entries, and for a missing
      key the default `1 / numFWords`, evaluated lazily as Python's
      `defaultdict` factory is, so it fails only when a missing key is read
      and there are no foreign words. */
  datatype ProbTable = ProbTable(entries: PairDict, numFWords: nat) {

    predicate Readable(k: Pair) {
      k in entries.vals || numFWords > 0
    }

    function Default(): (d: real)
      requires numFWords > 0
      ensures 0.0 < d <= 1.0
    {
      var n := numFWords as real;
      assert n >= 1.0;
      var d := 1.0 / n;
      assert d * n == 1.0;
      d
    }

    /** What `trans_prob[k]` returns. */
    function Get(k: Pair): real
      requires Readable(k)
    {
      if k in entries.vals then entries.vals[k] else Default()
    }

    /** The table after `trans_prob[k]` has been read: a missing key is
        inserted with the default. */
    function Touch(k: Pair): ProbTable
      requires Readable(k)
    {
      if k in entries.vals then this else ProbTable(entries.Put(k, Default()), numFWords)
    }

    /** `trans_prob[k] = v`. */
    function Set(k: Pair, v: real): ProbTable {
      ProbTable(entries.Put(k, v), numFWords)
    }

    /** Every explicit value is strictly positive. */
    ghost predicate Positive() {
      entries.Positive()
    }

    /** Every explicit value lies in (0, 1]. */
    ghost predicate Probabilities() {
      forall k :: k in entries.vals ==> 0.0 < entries.vals[k] <= 1.0
    }
  }

  predicate ReadableOn(t: ProbTable, ks: seq<Pair>) {
    forall k :: k in ks ==> t.Readable(k)
  }

  /** The table after the keys `ks` have been read in order. */
  function TouchAll(t: ProbTable, ks: seq<Pair>): (r: ProbTable)
    requires t.entries.Valid() && ReadableOn(t, ks)
    ensures r.numFWords == t.numFWords
    ensures r.entries.order == AppendUnseen(t.entries.order, ks)
    ensures r.entries.Valid()
    ensures forall k :: k in r.entries.vals <==> k in t.entries.vals || k in ks
    decreases |ks|
  {
    if ks == [] then t
    else
      var prev := TouchAll(t, ks[..|ks| - 1]);
      var k := ks[|ks| - 1];
      assert forall x :: x in ks <==> x in ks[..|ks| - 1] || x == k;
      if k in prev.entries.vals then prev
      else
        assert t.Readable(k);
        PutValid(prev.entries, k, prev.Default());
        prev.Touch(k)
  }

  /** Reading keys changes no value that a later read returns. */
  lemma {:induction false} TouchAllReads(t: ProbTable, ks: seq<Pair>, k: Pair)
    requires t.entries.Valid() && ReadableOn(t, ks) && t.Readable(k)
    ensures TouchAll(t, ks).Readable(k) && TouchAll(t, ks).Get(k) == t.Get(k)
    decreases |ks|
  {
    if ks != [] {
      TouchAllReads(t, ks[..|ks| - 1], k);
    }
  }

  /** Reading one more key is one more `Touch`. */
  lemma TouchAllSnoc(t: ProbTable, xs: seq<Pair>, k: Pair)
    requires t.entries.Valid() && ReadableOn(t, xs) && t.Readable(k)
    ensures ReadableOn(t, xs + [k]) && TouchAll(t, xs).Readable(k)
    ensures TouchAll(t, xs + [k]) == TouchAll(t, xs).Touch(k)
  {
    assert (xs + [k])[..|xs|] == xs;
  }

  /** Reading xs and then ys is reading xs + ys. */
  lemma {:induction false} TouchAllConcat(t: ProbTable, xs: seq<Pair>, ys: seq<Pair>)
    requires t.entries.Valid() && ReadableOn(t, xs + ys)
    ensures ReadableOn(TouchAll(t, xs), ys)
    ensures TouchAll(TouchAll(t, xs), ys) == TouchAll(t, xs + ys)
    decreases |ys|
  {
    assert forall k :: k in xs + ys <==> k in xs || k in ys;
    if ys == [] {
      assert xs + ys == xs;
    } else {
      var n := |ys| - 1;
      assert (xs + ys)[..|xs + ys| - 1] == xs + ys[..n];
      assert forall k :: k in xs + ys[..n] ==> k in xs + ys;
      TouchAllConcat(t, xs, ys[..n]);
    }
  }

  /** Reading keys that are all present changes nothing. */
  lemma {:induction false} TouchAllPresent(t: ProbTable, ks: seq<Pair>)
    requires t.entries.Valid() && forall k :: k in ks ==> k in t.entries.vals
    ensures ReadableOn(t, ks) && TouchAll(t, ks) == t
    decreases |ks|
  {
    if ks != [] {
      TouchAllPresent(t, ks[..|ks| - 1]);
    }
  }

  /** Reading keys inserts only the default. */
  lemma {:induction false} TouchAllValues(t: ProbTable, ks: seq<Pair>, k: Pair)
    requires t.entries.Valid() && ReadableOn(t, ks)
    requires k in TouchAll(t, ks).entries.vals
    ensures k in t.entries.vals ==> TouchAll(t, ks).entries.vals[k] == t.entries.vals[k]
    ensures k !in t.entries.vals ==> t.numFWords > 0 && TouchAll(t, ks).entries.vals[k] == t.Default()
    decreases |ks|
  {
    if ks != [] {
      var n := |ks| - 1;
      var prev := TouchAll(t, ks[..n]);
      if k in prev.entries.vals {
        TouchAllValues(t, ks[..n], k);
      } else {
        assert k == ks[n] && k in ks;
      }
    }
  }

  /** Reading keys keeps positivity and the bounds of a probability. */
  lemma TouchAllBounds(t: ProbTable, ks: seq<Pair>)
    requires t.entries.Valid() && ReadableOn(t, ks)
    ensures t.Positive() ==> TouchAll(t, ks).Positive()
    ensures t.Probabilities() ==> TouchAll(t, ks).Probabilities()
  {
    forall k | k in TouchAll(t, ks).entries.vals {
      TouchAllValues(t, ks, k);
    }
  }

  /** `initialize_translation_probability`: an empty table whose every
      lookup reads one over the number of distinct foreign word types. */
  function InitialTable(c: Corpus): (t: ProbTable)
    ensures t.entries.Valid() && t.entries.order == [] && t.Probabilities()
    ensures forall k :: t.Readable(k) <==> |ForeignTypes(c)| > 0
    ensures forall k :: t.Readable(k) ==> t.Get(k) == 1.0 / |ForeignTypes(c)| as real
    ensures forall k :: k in Traversal(c) ==> t.Readable(k)
  {
    var t := ProbTable(EmptyDict(), |ForeignTypes(c)|);
    assert forall k :: k in Traversal(c) ==> t.Readable(k) by {
      forall k | k in Traversal(c) ensures t.Readable(k) {
        VisitedForeign(c, k);
      }
    }
    t
  }
}
