/** What one EM iteration and repeated training guarantee about the
    translation table. */
module EMProperties {
  import opened Sentences
  import opened ProbTables
  import opened EM

  /** After an iteration, for every foreign word f that co-occurs with some
      English word, the table's values t(e | f) sum to exactly 1, because
      each is `count[(e, f)] / total[f]` and `total[f]` is the sum of those
      counts. The table must hold either nothing yet or exactly the pairs of
      this corpus, which is what the class keeps. */
  lemma IterationNormalises(t: ProbTable, c: Corpus)
    requires Trainable(t, c)
    requires t.entries.order == [] || t.entries.order == Visits(c)
    ensures Iteration(t, c).entries.order == Visits(c)
    ensures forall k :: k in Traversal(c) ==> Iteration(t, c).entries.SumFor(k.1) == 1.0
  {
    var acc := EStep(t, c);
    var touched := TouchAll(t, Traversal(c));
    if t.entries.order != [] {
      VisitsStable(c);
    }
    assert touched.entries.order == acc.count.order;
    forall k | k in Traversal(c) ensures Iteration(t, c).entries.SumFor(k.1) == 1.0 {
      assert k in acc.count.vals;
      MStepNormalises(touched, acc.count, acc.total, k);
    }
  }

  /** The M-step over all the counts of a table that has exactly the counted
      keys, in the same order, makes the values for the foreign word of any
      counted key sum to 1. */
  lemma MStepNormalises(t: ProbTable, count: PairDict, total: map<Token, real>, k: Pair)
    requires t.entries.Valid() && t.entries.order == count.order
    requires count.Valid() && count.Positive() && TotalsMatch(count, total)
    requires k in count.vals
    ensures forall x {:trigger x in count.order} :: x in count.order ==> x in count.vals && x.1 in total && total[x.1] != 0.0
    ensures MStep(t, count.order, count.vals, total).entries.SumFor(k.1) == 1.0
  {
    forall x | x in count.order ensures x in count.vals && x.1 in total && total[x.1] != 0.0 {
      CountWithinTotal(count, total, x);
    }
    var r := MStep(t, count.order, count.vals, total);
    AppendUnseenPresent(t.entries.order, count.order);
    var f := k.1;
    CountWithinTotal(count, total, k);
    var d := total[f];
    forall x | x in count.order && x.1 == f ensures r.entries.vals[x] == count.vals[x] / d {
      MStepValues(t, count.order, count.vals, total, x);
    }
    assert r.entries.order == count.order;
    assert forall x :: x in count.order ==> x in r.entries.vals;
    SumOverScaled(count.order, count.vals, r.entries.vals, f, d);
    var sum := SumOver(count.order, r.entries.vals, f);
    assert r.entries.SumFor(f) == sum;
    assert count.SumFor(f) == d by {
      assert ValueOr0(total, f) == count.SumFor(f);
    }
    assert sum == d / d;
    QuotientSelf(d);
  }

  lemma QuotientSelf(d: real)
    requires d != 0.0
    ensures d / d == 1.0
  {
  }

  /** An iteration writes a value in (0, 1] at every co-occurring pair and
      leaves every other key, present or absent, as it was. */
  lemma IterationWrites(t: ProbTable, c: Corpus, k: Pair)
    requires Trainable(t, c)
    ensures k in Traversal(c) ==>
              k in Iteration(t, c).entries.vals && 0.0 < Iteration(t, c).entries.vals[k] <= 1.0
    ensures k !in Traversal(c) ==>
              && (k in Iteration(t, c).entries.vals <==> k in t.entries.vals)
              && (t.Readable(k) ==> Iteration(t, c).Get(k) == t.Get(k))
  {
    var acc := EStep(t, c);
    EStepCounts(t, c);
    var touched := TouchAll(t, Traversal(c));
    TouchAllBounds(t, Traversal(c));
    MStepValues(touched, acc.count.order, acc.count.vals, acc.total, k);
    if k in Traversal(c) {
      assert k in Visits(c);
      var d := acc.total[k.1];
      PositiveQuotient(acc.count.vals[k], d);
      QuotientAtMostOne(acc.count.vals[k], d);
    } else if t.Readable(k) {
      TouchAllReads(t, Traversal(c), k);
    }
  }

  lemma QuotientAtMostOne(a: real, b: real)
    requires 0.0 < a <= b
    ensures a / b <= 1.0
  {
    assert a / b * b == a;
  }

  /** An iteration gives the table the visiting order of the corpus,
      provided it held nothing yet or exactly that order. */
  lemma IterationOrder(t: ProbTable, c: Corpus)
    requires Trainable(t, c)
    requires t.entries.order == [] || t.entries.order == Visits(c)
    ensures Iteration(t, c).entries.order == Visits(c)
  {
    if t.entries.order != [] {
      VisitsStable(c);
    }
  }

  /** An iteration keeps every explicit value in (0, 1]. */
  lemma IterationProbabilities(t: ProbTable, c: Corpus)
    requires Trainable(t, c) && t.Probabilities()
    ensures Iteration(t, c).Probabilities()
  {
    var r := Iteration(t, c);
    forall k | k in r.entries.vals ensures 0.0 < r.entries.vals[k] <= 1.0 {
      IterationWrites(t, c, k);
    }
  }

  /** An iteration leaves every pair that no sentence pair contains as it
      was: present exactly when it was present before, with the same value. */
  lemma IterationKeepsOthers(t: ProbTable, c: Corpus)
    requires Trainable(t, c)
    ensures forall k :: k !in Traversal(c) ==> (k in Iteration(t, c).entries.vals <==> k in t.entries.vals)
    ensures forall k :: k !in Traversal(c) && k in t.entries.vals ==>
              Iteration(t, c).entries.vals[k] == t.entries.vals[k]
  {
    var r := Iteration(t, c);
    forall k | k !in Traversal(c) && k in t.entries.vals ensures r.entries.vals[k] == t.entries.vals[k] {
      IterationWrites(t, c, k);
    }
  }

  /** Two steps that each leave the keys outside `visited` alone leave them
      alone together. */
  lemma KeepsOthersChain(a: map<Pair, real>, b: map<Pair, real>, d: map<Pair, real>, visited: seq<Pair>)
    requires forall k :: k !in visited ==> (k in b <==> k in a)
    requires forall k :: k !in visited && k in a ==> b[k] == a[k]
    requires forall k :: k !in visited ==> (k in d <==> k in b)
    requires forall k :: k !in visited && k in b ==> d[k] == b[k]
    ensures forall k :: k !in visited ==> (k in d <==> k in a)
    ensures forall k :: k !in visited && k in a ==> d[k] == a[k]
  {
  }

  /** The sum of the values read at the pairs of ks whose English word is e. */
  function SumReads(t: ProbTable, ks: seq<Pair>, e: Token): real
    requires ReadableOn(t, ks)
  {
    if ks == [] then 0.0
    else
      var k := ks[|ks| - 1];
      SumReads(t, ks[..|ks| - 1], e) + (if k.0 == e then t.Get(k) else 0.0)
  }

  lemma {:induction false} SumReadsConcat(t: ProbTable, xs: seq<Pair>, ys: seq<Pair>, e: Token)
    requires ReadableOn(t, xs + ys)
    ensures ReadableOn(t, xs) && ReadableOn(t, ys)
    ensures SumReads(t, xs + ys, e) == SumReads(t, xs, e) + SumReads(t, ys, e)
    decreases |ys|
  {
    assert forall k :: k in xs + ys <==> k in xs || k in ys;
    if ys == [] {
      assert xs + ys == xs;
    } else {
      var n := |ys| - 1;
      assert (xs + ys)[..|xs + ys| - 1] == xs + ys[..n];
      assert forall k :: k in xs + ys[..n] ==> k in xs + ys;
      SumReadsConcat(t, xs, ys[..n], e);
    }
  }

  /** The normalising pass adds to `sentence_total[e]` every value read at a
      pair with English word e, on top of what it held before. */
  lemma {:induction false} Pass1Sums(t: ProbTable, st: map<Token, real>, ks: seq<Pair>, e: Token)
    requires t.Positive() && ReadableOn(t, ks) && NonNegative(st)
    ensures ValueOr0(Pass1(t, st, ks), e) == ValueOr0(st, e) + SumReads(t, ks, e)
    decreases |ks|
  {
    if ks != [] {
      var n := |ks| - 1;
      var k := ks[n];
      assert forall x :: x in ks[..n] ==> x in ks;
      Pass1Sums(t, st, ks[..n], e);
      var prev := Pass1(t, st, ks[..n]);
      assert Pass1(t, st, ks) == Bump(prev, k.0, t.Get(k));
      assert ValueOr0(Bump(prev, k.0, t.Get(k)), e) == ValueOr0(prev, e) + (if k.0 == e then t.Get(k) else 0.0);
    }
  }

  /** `sentence_total` is created once per iteration, not once per sentence
      pair, so after the E-step `sentence_total[e]` is the sum of t(e | f)
      over every pair the whole corpus visits, repetitions included. */
  lemma {:induction false} SentenceTotalCumulative(t: ProbTable, c: Corpus, e: Token)
    requires t.Positive() && ReadableOn(t, Traversal(c))
    ensures ValueOr0(EStep(t, c).sentenceTotal, e) == SumReads(t, Traversal(c), e)
    decreases |c|
  {
    if c != [] {
      var init := c[..|c| - 1];
      var last := c[|c| - 1];
      var g := Grid(last.english, last.foreign);
      assert Traversal(c) == Traversal(init) + g;
      SumReadsConcat(t, Traversal(init), g, e);
      SentenceTotalCumulative(t, init, e);
      Pass1Sums(t, EStep(t, init).sentenceTotal, g, e);
    }
  }

  /** On the table `initialize_translation_probability` builds, a pair that
      training never set reads exactly one over the number of distinct
      foreign word types, however many iterations ran. */
  lemma UnsetPairReadsDefault(c: Corpus, n: nat, k: Pair)
    requires k !in Train(InitialTable(c), c, n).entries.vals
    requires |ForeignTypes(c)| > 0
    ensures Train(InitialTable(c), c, n).Get(k) == 1.0 / |ForeignTypes(c)| as real
  {
  }
}
