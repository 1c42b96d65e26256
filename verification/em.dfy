/** One expectation-maximisation step of IBM Model 1, and repeated training,
    as functions of the table and the corpus. The class in ibm_model1.dfy
    runs the same steps with loops and is proved equal to these. */
module EM {
  import opened Sentences
  import opened ProbTables

  /** The three accumulators of one iteration. */
  datatype Accumulators = Accumulators(
    sentenceTotal: map<Token, real>,
    count: PairDict,
    total: map<Token, real>)

  /** `m[key] += x` on a `defaultdict(float)`. */
  function Bump(m: map<Token, real>, key: Token, x: real): map<Token, real> {
    m[key := ValueOr0(m, key) + x]
  }

  /** `m[key]` on a `defaultdict(float)`, as a value. */
  function ValueOr0(m: map<Token, real>, key: Token): real {
    if key in m then m[key] else 0.0
  }

  ghost predicate NonNegative(m: map<Token, real>) {
    forall x :: x in m ==> m[x] >= 0.0
  }

  /** `total[f]` is the sum of the counts whose key has foreign word f. */
  ghost predicate TotalsMatch(count: PairDict, total: map<Token, real>)
    requires count.Valid()
  {
    forall f :: ValueOr0(total, f) == count.SumFor(f)
  }

  /** The normalising pass for one sentence pair (line 68), applied to the
      visited pairs ks: `sentence_total[e] += t(e | f)`. */
  function Pass1(t: ProbTable, st: map<Token, real>, ks: seq<Pair>): (r: map<Token, real>)
    requires t.Positive() && ReadableOn(t, ks) && NonNegative(st)
    ensures NonNegative(r)
    ensures forall x :: x in st ==> x in r && r[x] >= st[x]
    ensures forall k :: k in ks ==> k.0 in r && r[k.0] >= t.Get(k) > 0.0
    decreases |ks|
  {
    if ks == [] then st
    else
      var k := ks[|ks| - 1];
      assert forall x :: x in ks <==> x in ks[..|ks| - 1] || x == k;
      Bump(Pass1(t, st, ks[..|ks| - 1]), k.0, t.Get(k))
  }

  lemma Pass1Snoc(t: ProbTable, st: map<Token, real>, ks: seq<Pair>, k: Pair)
    requires t.Positive() && ReadableOn(t, ks) && t.Readable(k) && NonNegative(st)
    ensures ReadableOn(t, ks + [k])
    ensures Pass1(t, st, ks + [k]) == Bump(Pass1(t, st, ks), k.0, t.Get(k))
  {
    assert (ks + [k])[..|ks|] == ks;
  }

  /** One step of an inner loop over the foreign tokens: the pair
      (e, fs[b]) is read after the pairs `done + Row(e, fs[..b])`, on a table
      t1 that agrees with t0 wherever the loop reads. The read returns the
      value of t0 and adds the pair to the read pairs. */
  lemma RowStep(t0: ProbTable, t1: ProbTable, done: seq<Pair>, e: Token, fs: seq<Token>, b: int)
    requires 0 <= b < |fs| && t1.entries.Valid()
    requires forall k :: k in done + Row(e, fs) ==> t0.Readable(k) && t1.Readable(k) && t1.Get(k) == t0.Get(k)
    ensures forall x :: x in done + Row(e, fs[..b]) ==> x in done + Row(e, fs)
    ensures forall x :: x in done + Row(e, fs[..b + 1]) ==> x in done + Row(e, fs)
    ensures ReadableOn(t0, done + Row(e, fs[..b])) && ReadableOn(t1, done + Row(e, fs[..b]))
    ensures t0.Readable((e, fs[b])) && t1.Readable((e, fs[b]))
    ensures done + Row(e, fs[..b + 1]) == (done + Row(e, fs[..b])) + [(e, fs[b])]
    ensures TouchAll(t1, done + Row(e, fs[..b])).Readable((e, fs[b]))
    ensures TouchAll(t1, done + Row(e, fs[..b])).Get((e, fs[b])) == t0.Get((e, fs[b]))
    ensures TouchAll(t1, done + Row(e, fs[..b + 1])) == TouchAll(t1, done + Row(e, fs[..b])).Touch((e, fs[b]))
  {
    var seen := done + Row(e, fs[..b]);
    var k := (e, fs[b]);
    RowSnoc(e, fs, done, b);
    assert forall x :: x in seen ==> x in done + Row(e, fs) by {
      assert forall f :: f in fs[..b] ==> f in fs;
    }
    assert k in done + Row(e, fs);
    assert forall x :: x in seen + [k] ==> x in done + Row(e, fs);
    TouchAllReads(t1, seen, k);
    TouchAllSnoc(t1, seen, k);
  }

  /** The evidence pass for one sentence pair (lines 71-72), applied to the
      visited pairs ks: both `count[(e, f)]` and `total[f]` grow by
      `t(e | f) / sentence_total[e]`. */
  function Pass2(t: ProbTable, st: map<Token, real>, count: PairDict, total: map<Token, real>, ks: seq<Pair>)
    : (r: (PairDict, map<Token, real>))
    requires t.Positive() && ReadableOn(t, ks)
    requires forall k :: k in ks ==> k.0 in st && st[k.0] > 0.0
    requires count.Valid() && count.Positive() && TotalsMatch(count, total)
    ensures r.0.Valid() && r.0.Positive() && TotalsMatch(r.0, r.1)
    ensures r.0.order == AppendUnseen(count.order, ks)
    decreases |ks|
  {
    if ks == [] then (count, total)
    else
      var k := ks[|ks| - 1];
      var init := ks[..|ks| - 1];
      assert k in ks && forall x :: x in ks <==> x in init || x == k;
      var prev := Pass2(t, st, count, total, init);
      var x := t.Get(k) / st[k.0];
      PositiveQuotient(t.Get(k), st[k.0]);
      EvidenceStep(prev.0, prev.1, k, x);
      AppendUnseenConcat(count.order, init, [k]);
      InitLast(ks);
      (prev.0.Add(k, x), Bump(prev.1, k.1, x))
  }

  /** Lines 71 and 72 add the same term to `count[(e, f)]` and `total[f]`,
      so the totals keep matching the counts. */
  lemma EvidenceStep(count: PairDict, total: map<Token, real>, k: Pair, x: real)
    requires count.Valid() && count.Positive() && TotalsMatch(count, total)
    requires x > 0.0
    ensures count.Add(k, x).Valid() && count.Add(k, x).Positive()
    ensures TotalsMatch(count.Add(k, x), Bump(total, k.1, x))
    ensures count.Add(k, x).order == AppendUnseen(count.order, [k])
  {
    PutValid(count, k, count.ValueOr0(k) + x);
    AppendUnseenOne(count.order, k);
    TotalsAfterAdd(count, total, k, x);
  }

  lemma TotalsAfterAdd(count: PairDict, total: map<Token, real>, k: Pair, x: real)
    requires count.Valid() && TotalsMatch(count, total)
    ensures count.Add(k, x).Valid() && TotalsMatch(count.Add(k, x), Bump(total, k.1, x))
  {
    var next := count.Add(k, x);
    forall f ensures ValueOr0(Bump(total, k.1, x), f) == next.SumFor(f) {
      SumForAdd(count, k, x, f);
      assert ValueOr0(total, f) == count.SumFor(f);
      assert ValueOr0(Bump(total, k.1, x), f) == ValueOr0(total, f) + (if k.1 == f then x else 0.0);
    }
  }

  lemma PositiveQuotient(a: real, b: real)
    requires a > 0.0 && b > 0.0
    ensures a / b > 0.0
  {
  }

  lemma Pass2Snoc(t: ProbTable, st: map<Token, real>, count: PairDict, total: map<Token, real>, ks: seq<Pair>, k: Pair)
    requires t.Positive() && ReadableOn(t, ks) && t.Readable(k)
    requires forall x :: x in ks ==> x.0 in st && st[x.0] > 0.0
    requires k.0 in st && st[k.0] > 0.0
    requires count.Valid() && count.Positive() && TotalsMatch(count, total)
    ensures ReadableOn(t, ks + [k]) && forall x :: x in ks + [k] ==> x.0 in st && st[x.0] > 0.0
    ensures Pass2(t, st, count, total, ks + [k])
         == (Pass2(t, st, count, total, ks).0.Add(k, t.Get(k) / st[k.0]),
             Bump(Pass2(t, st, count, total, ks).1, k.1, t.Get(k) / st[k.0]))
  {
    assert (ks + [k])[..|ks|] == ks;
  }

  /** The E-step over the corpus: the sentence pairs in order, for each the
      normalising pass and then the evidence pass. The accumulators start
      empty once per iteration, so `sentence_total` is not reset between
      sentence pairs. */
  function EStep(t: ProbTable, c: Corpus): (r: Accumulators)
    requires t.Positive() && ReadableOn(t, Traversal(c))
    ensures NonNegative(r.sentenceTotal)
    ensures r.count.Valid() && r.count.Positive() && TotalsMatch(r.count, r.total)
    ensures r.count.order == Visits(c)
    decreases |c|
  {
    if c == [] then Accumulators(map[], EmptyDict(), map[])
    else
      var a := EStep(t, c[..|c| - 1]);
      var last := c[|c| - 1];
      var g := Grid(last.english, last.foreign);
      var st := Pass1(t, a.sentenceTotal, g);
      var r := Pass2(t, st, a.count, a.total, g);
      AppendUnseenConcat([], Traversal(c[..|c| - 1]), g);
      Accumulators(st, r.0, r.1)
  }

  /** The E-step over the first j + 1 sentence pairs is the E-step over the
      first j followed by both passes over pair j. */
  lemma EStepSnoc(t: ProbTable, c: Corpus, j: int)
    requires 0 <= j < |c| && t.Positive() && ReadableOn(t, Traversal(c[..j + 1]))
    ensures Traversal(c[..j + 1]) == Traversal(c[..j]) + Grid(c[j].english, c[j].foreign)
    ensures ReadableOn(t, Traversal(c[..j])) && ReadableOn(t, Grid(c[j].english, c[j].foreign))
    ensures var a := EStep(t, c[..j]);
            var g := Grid(c[j].english, c[j].foreign);
            var st := Pass1(t, a.sentenceTotal, g);
            EStep(t, c[..j + 1]) == Accumulators(st, Pass2(t, st, a.count, a.total, g).0, Pass2(t, st, a.count, a.total, g).1)
  {
    assert c[..j + 1][..j] == c[..j];
  }

  /** Every count is positive and at most the total of its foreign word, so
      the M-step never divides by zero and writes values in (0, 1]. */
  lemma CountWithinTotal(count: PairDict, total: map<Token, real>, k: Pair)
    requires count.Valid() && count.Positive() && TotalsMatch(count, total)
    requires k in count.vals
    ensures k.1 in total && 0.0 < count.vals[k] <= total[k.1]
  {
    TermAtMostSum(count.order, count.vals, k);
    assert ValueOr0(total, k.1) == count.SumFor(k.1);
  }

  /** The M-step (lines 73-74): `trans_prob[(e, f)] = count[(e, f)] / total[f]`
      for the keys ks of count, in order. */
  function MStep(t: ProbTable, ks: seq<Pair>, count: map<Pair, real>, total: map<Token, real>): (r: ProbTable)
    requires t.entries.Valid()
    requires forall k {:trigger k in ks} :: k in ks ==> k in count && k.1 in total && total[k.1] != 0.0
    ensures r.entries.Valid() && r.numFWords == t.numFWords
    ensures r.entries.order == AppendUnseen(t.entries.order, ks)
    decreases |ks|
  {
    if ks == [] then t
    else
      var k := ks[|ks| - 1];
      var init := ks[..|ks| - 1];
      assert k in ks && forall x :: x in ks <==> x in init || x == k;
      var prev := MStep(t, init, count, total);
      PutValid(prev.entries, k, count[k] / total[k.1]);
      AppendUnseenOne(prev.entries.order, k);
      AppendUnseenConcat(t.entries.order, init, [k]);
      InitLast(ks);
      prev.Set(k, count[k] / total[k.1])
  }

  lemma MStepSnoc(t: ProbTable, ks: seq<Pair>, count: map<Pair, real>, total: map<Token, real>, k: Pair)
    requires t.entries.Valid()
    requires forall x {:trigger x in ks} :: x in ks ==> x in count && x.1 in total && total[x.1] != 0.0
    requires k in count && k.1 in total && total[k.1] != 0.0
    ensures forall x {:trigger x in ks + [k]} :: x in ks + [k] ==> x in count && x.1 in total && total[x.1] != 0.0
    ensures MStep(t, ks + [k], count, total) == MStep(t, ks, count, total).Set(k, count[k] / total[k.1])
  {
    assert (ks + [k])[..|ks|] == ks;
  }

  /** The M-step writes `count / total` at the counted keys and leaves every
      other key as it was. */
  lemma {:induction false} MStepValues(t: ProbTable, ks: seq<Pair>, count: map<Pair, real>, total: map<Token, real>, k: Pair)
    requires t.entries.Valid()
    requires forall k {:trigger k in ks} :: k in ks ==> k in count && k.1 in total && total[k.1] != 0.0
    ensures k in ks ==> k in MStep(t, ks, count, total).entries.vals
                        && MStep(t, ks, count, total).entries.vals[k] == count[k] / total[k.1]
    ensures k !in ks ==> && (k in MStep(t, ks, count, total).entries.vals <==> k in t.entries.vals)
                         && (k in t.entries.vals ==> MStep(t, ks, count, total).entries.vals[k] == t.entries.vals[k])
    decreases |ks|
  {
    if ks != [] {
      var n := |ks| - 1;
      assert forall x :: x in ks <==> x in ks[..n] || x == ks[n];
      MStepValues(t, ks[..n], count, total, k);
    }
  }

  /** An M-step over keys that are all in the table, with positive counts
      each at most its total, keeps the keys, their order and positivity. */
  lemma MStepKeeps(t: ProbTable, ks: seq<Pair>, count: map<Pair, real>, total: map<Token, real>)
    requires t.entries.Valid() && t.Positive()
    requires forall k {:trigger k in ks} :: k in ks ==> k in t.entries.vals && k in count && k.1 in total && 0.0 < count[k] <= total[k.1]
    ensures MStep(t, ks, count, total).entries.order == t.entries.order
    ensures forall k :: k in MStep(t, ks, count, total).entries.vals <==> k in t.entries.vals
    ensures MStep(t, ks, count, total).Positive()
  {
    var r := MStep(t, ks, count, total);
    AppendUnseenPresent(t.entries.order, ks);
    forall k ensures (k in r.entries.vals <==> k in t.entries.vals) && (k in r.entries.vals ==> r.entries.vals[k] > 0.0) {
      MStepValues(t, ks, count, total, k);
      if k in ks {
        PositiveQuotient(count[k], total[k.1]);
      }
    }
  }

  /** The counted keys of an iteration, each with its positive count at most
      its total. */
  lemma EStepCounts(t: ProbTable, c: Corpus)
    requires t.Positive() && ReadableOn(t, Traversal(c))
    ensures forall k {:trigger k in Visits(c)} :: k in Visits(c) ==>
              && k in EStep(t, c).count.vals && k.1 in EStep(t, c).total
              && 0.0 < EStep(t, c).count.vals[k] <= EStep(t, c).total[k.1]
  {
    var acc := EStep(t, c);
    forall k | k in Visits(c) ensures k in acc.count.vals && k.1 in acc.total && 0.0 < acc.count.vals[k] <= acc.total[k.1] {
      CountWithinTotal(acc.count, acc.total, k);
    }
  }

  /** Preconditions of an iteration: a valid, positive table that can be read
      at every pair the corpus visits. */
  ghost predicate Trainable(t: ProbTable, c: Corpus) {
    t.entries.Valid() && t.Positive() && ReadableOn(t, Traversal(c))
  }

  /** One iteration of `train_model`: the E-step reads the table as it is at
      the start; its reads insert defaults; the M-step then overwrites every
      counted key. */
  function Iteration(t: ProbTable, c: Corpus): (r: ProbTable)
    requires Trainable(t, c)
    ensures Trainable(r, c) && r.numFWords == t.numFWords
    ensures r.entries.order == AppendUnseen(t.entries.order, Traversal(c))
    ensures forall k {:trigger k in r.entries.vals} :: k in r.entries.vals <==> k in t.entries.vals || k in Traversal(c)
  {
    var acc := EStep(t, c);
    EStepCounts(t, c);
    var touched := TouchAll(t, Traversal(c));
    TouchAllBounds(t, Traversal(c));
    MStepKeeps(touched, acc.count.order, acc.count.vals, acc.total);
    MStep(touched, acc.count.order, acc.count.vals, acc.total)
  }

  /** `train_model(n)`: n iterations, one after the other. */
  function Train(t: ProbTable, c: Corpus, n: nat): (r: ProbTable)
    requires Trainable(t, c)
    ensures Trainable(r, c) && r.numFWords == t.numFWords
    ensures forall k :: k in t.entries.vals ==> k in r.entries.vals
  {
    if n == 0 then t else Iteration(Train(t, c, n - 1), c)
  }
}
