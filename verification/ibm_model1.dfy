/** The `IBMModel1` object: a loaded corpus, the translation table t(e | f)
    that training updates in place, and the conditional dictionary built
    from that table. */
module IBM {
  import opened Sentences
  import opened ProbTables
  import opened EM
  import opened EMProperties
  import opened ConditionalIndex

  class IBMModel1 {
    const corpus: Corpus
    var transProb: ProbTable
    var conditionalDict: CondDict

    /** The corpus is as the loader builds it; the table has the default of
        this corpus, holds probabilities, and has either never been trained
        or holds exactly the visited pairs in their first-visit order. */
    ghost predicate Valid()
      reads this
    {
      && WellFormed(corpus)
      && transProb.entries.Valid()
      && transProb.numFWords == |ForeignTypes(corpus)|
      && transProb.Probabilities()
      && Trainable(transProb, corpus)
      && (transProb.entries.order == [] || transProb.entries.order == Visits(corpus))
    }

    /** `__init__` once the corpus is loaded: the table of
        `initialize_translation_probability` and an empty conditional
        dictionary. A loaded corpus that is not empty has a foreign word, so
        no read of the table divides by zero. */
    constructor(corpus: Corpus)
      requires WellFormed(corpus)
      ensures Valid()
      ensures this.corpus == corpus && transProb == InitialTable(corpus) && conditionalDict == map[]
      ensures corpus != [] ==> forall k :: transProb.Readable(k)
    {
      this.corpus := corpus;
      transProb := InitialTable(corpus);
      conditionalDict := map[];
      if corpus != [] {
        ForeignTypesNonEmpty(corpus);
      }
    }

    /** `trans_prob[k]`: the value, and a missing key is inserted with the
        default. */
    method Read(k: Pair) returns (p: real)
      requires transProb.Readable(k)
      modifies this
      ensures p == old(transProb).Get(k)
      ensures transProb == old(transProb).Touch(k) && conditionalDict == old(conditionalDict)
      ensures transProb.Readable(k) && transProb.Get(k) == p
    {
      p := transProb.Get(k);
      transProb := transProb.Touch(k);
    }

    /** Lines 66-68 for one sentence pair: `sentence_total[e] += t(e | f)`
        over the English tokens and, inside, the foreign tokens. Every read
        returns the value the table had when the iteration began, t0. */
    method NormalisingPass(ghost t0: ProbTable, es: seq<Token>, fs: seq<Token>, st: map<Token, real>)
      returns (r: map<Token, real>)
      requires t0.Positive() && NonNegative(st) && transProb.entries.Valid()
      requires forall k :: k in Grid(es, fs) ==> t0.Readable(k) && transProb.Readable(k) && transProb.Get(k) == t0.Get(k)
      modifies this
      ensures r == Pass1(t0, st, Grid(es, fs))
      ensures transProb == TouchAll(old(transProb), Grid(es, fs)) && conditionalDict == old(conditionalDict)
    {
      ghost var t1 := transProb;
      r := st;
      for a := 0 to |es|
        invariant r == Pass1(t0, st, Grid(es[..a], fs))
        invariant transProb == TouchAll(t1, Grid(es[..a], fs)) && conditionalDict == old(conditionalDict)
      {
        ghost var done := Grid(es[..a], fs);
        GridSnoc(es, fs, a);
        assert forall k :: k in done + Row(es[a], fs) ==> k in Grid(es, fs);
        r := NormalisingRow(t0, t1, done, st, es[a], fs, r);
      }
      assert es[..|es|] == es;
    }

    /** The inner loop of lines 67-68 for one English token e. */
    method NormalisingRow(ghost t0: ProbTable, ghost t1: ProbTable, ghost done: seq<Pair>, ghost st: map<Token, real>,
                          e: Token, fs: seq<Token>, r0: map<Token, real>)
      returns (r: map<Token, real>)
      requires t0.Positive() && NonNegative(st) && t1.entries.Valid()
      requires forall k :: k in done + Row(e, fs) ==> t0.Readable(k) && t1.Readable(k) && t1.Get(k) == t0.Get(k)
      requires r0 == Pass1(t0, st, done) && transProb == TouchAll(t1, done)
      modifies this
      ensures r == Pass1(t0, st, done + Row(e, fs))
      ensures transProb == TouchAll(t1, done + Row(e, fs)) && conditionalDict == old(conditionalDict)
    {
      r := r0;
      assert fs[..0] == [] && done + [] == done;
      for b := 0 to |fs|
        invariant r == Pass1(t0, st, done + Row(e, fs[..b]))
        invariant transProb == TouchAll(t1, done + Row(e, fs[..b])) && conditionalDict == old(conditionalDict)
      {
        var k := (e, fs[b]);
        ghost var seen := done + Row(e, fs[..b]);
        RowStep(t0, t1, done, e, fs, b);
        Pass1Snoc(t0, st, seen, k);
        var p := Read(k);
        assert p == t0.Get(k);
        r := Bump(r, e, p);
        assert r == Pass1(t0, st, seen + [k]);
      }
      assert fs[..|fs|] == fs;
    }

    /** Lines 69-72 for one sentence pair: for each pair (e, f), both
        `count[(e, f)]` and `total[f]` grow by `t(e | f) / sentence_total[e]`,
        each line reading the table once. */
    method EvidencePass(ghost t0: ProbTable, es: seq<Token>, fs: seq<Token>, st: map<Token, real>,
                        count0: PairDict, total0: map<Token, real>)
      returns (count: PairDict, total: map<Token, real>)
      requires t0.Positive() && transProb.entries.Valid()
      requires forall k :: k in Grid(es, fs) ==> t0.Readable(k) && transProb.Readable(k) && transProb.Get(k) == t0.Get(k)
      requires forall k :: k in Grid(es, fs) ==> k.0 in st && st[k.0] > 0.0
      requires count0.Valid() && count0.Positive() && TotalsMatch(count0, total0)
      modifies this
      ensures (count, total) == Pass2(t0, st, count0, total0, Grid(es, fs))
      ensures transProb == TouchAll(old(transProb), Grid(es, fs)) && conditionalDict == old(conditionalDict)
    {
      ghost var t1 := transProb;
      count, total := count0, total0;
      for a := 0 to |es|
        invariant (count, total) == Pass2(t0, st, count0, total0, Grid(es[..a], fs))
        invariant transProb == TouchAll(t1, Grid(es[..a], fs)) && conditionalDict == old(conditionalDict)
      {
        ghost var done := Grid(es[..a], fs);
        GridSnoc(es, fs, a);
        assert forall k :: k in done + Row(es[a], fs) ==> k in Grid(es, fs);
        count, total := EvidenceRow(t0, t1, done, st, count0, total0, es[a], fs, count, total);
      }
      assert es[..|es|] == es;
    }

    /** The inner loop of lines 70-72 for one English token e. */
    method EvidenceRow(ghost t0: ProbTable, ghost t1: ProbTable, ghost done: seq<Pair>, st: map<Token, real>,
                       ghost count0: PairDict, ghost total0: map<Token, real>,
                       e: Token, fs: seq<Token>, countIn: PairDict, totalIn: map<Token, real>)
      returns (count: PairDict, total: map<Token, real>)
      requires t0.Positive() && t1.entries.Valid()
      requires forall k :: k in done + Row(e, fs) ==> t0.Readable(k) && t1.Readable(k) && t1.Get(k) == t0.Get(k)
      requires forall k :: k in done + Row(e, fs) ==> k.0 in st && st[k.0] > 0.0
      requires count0.Valid() && count0.Positive() && TotalsMatch(count0, total0)
      requires (countIn, totalIn) == Pass2(t0, st, count0, total0, done) && transProb == TouchAll(t1, done)
      modifies this
      ensures (count, total) == Pass2(t0, st, count0, total0, done + Row(e, fs))
      ensures transProb == TouchAll(t1, done + Row(e, fs)) && conditionalDict == old(conditionalDict)
    {
      count, total := countIn, totalIn;
      assert fs[..0] == [] && done + [] == done;
      for b := 0 to |fs|
        invariant (count, total) == Pass2(t0, st, count0, total0, done + Row(e, fs[..b]))
        invariant transProb == TouchAll(t1, done + Row(e, fs[..b])) && conditionalDict == old(conditionalDict)
      {
        var k := (e, fs[b]);
        ghost var seen := done + Row(e, fs[..b]);
        RowStep(t0, t1, done, e, fs, b);
        Pass2Snoc(t0, st, count0, total0, seen, k);
        var p := Read(k);
        assert p == t0.Get(k);
        count := count.Add(k, p / st[e]);
        var q := Read(k);
        assert q == p;
        total := Bump(total, fs[b], q / st[e]);
      }
      assert fs[..|fs|] == fs;
    }

    /** Lines 73-74: `trans_prob[(e, f)] = count[(e, f)] / total[f]` for the
        counted keys, in the order they were counted. */
    method UpdateProbabilities(keys: seq<Pair>, count: map<Pair, real>, total: map<Token, real>)
      requires transProb.entries.Valid()
      requires forall k {:trigger k in keys} :: k in keys ==> k in count && k.1 in total && total[k.1] != 0.0
      modifies this
      ensures transProb == MStep(old(transProb), keys, count, total) && conditionalDict == old(conditionalDict)
    {
      ghost var t1 := transProb;
      for i := 0 to |keys|
        invariant forall x :: x in keys[..i] ==> x in keys
        invariant transProb == MStep(t1, keys[..i], count, total) && conditionalDict == old(conditionalDict)
      {
        var k := keys[i];
        assert k in keys;
        PrefixSnoc(keys, i);
        MStepSnoc(t1, keys[..i], count, total, k);
        transProb := transProb.Set(k, count[k] / total[k.1]);
      }
      assert keys[..|keys|] == keys;
    }

    /** The E-step of one iteration (lines 62-72): fresh accumulators, then
        the two passes over every sentence pair in corpus order. */
    method ExpectationStep() returns (sentenceTotal: map<Token, real>, count: PairDict, total: map<Token, real>)
      requires Valid()
      modifies this
      ensures Accumulators(sentenceTotal, count, total) == EStep(old(transProb), corpus)
      ensures transProb == TouchAll(old(transProb), Traversal(corpus)) && conditionalDict == old(conditionalDict)
    {
      ghost var t0 := transProb;
      count := EmptyDict();
      total := map[];
      sentenceTotal := map[];
      for j := 0 to |corpus|
        invariant forall k :: k in Traversal(corpus[..j]) ==> k in Traversal(corpus)
        invariant Accumulators(sentenceTotal, count, total) == EStep(t0, corpus[..j])
        invariant transProb == TouchAll(t0, Traversal(corpus[..j])) && conditionalDict == old(conditionalDict)
      {
        GridVisited(corpus, j);
        TraversalPrefix(corpus, j + 1);
        EStepSnoc(t0, corpus, j);
        sentenceTotal, count, total := SentenceStep(t0, Traversal(corpus[..j]), corpus[j], sentenceTotal, count, total);
      }
      assert corpus[..|corpus|] == corpus;
    }

    /** The body of the E-step loop for one sentence pair (lines 65-72):
        the normalising pass, then the evidence pass, on a table that so far
        has read the pairs `before`. */
    method SentenceStep(ghost t0: ProbTable, ghost before: seq<Pair>, pair: SentencePair,
                        st0: map<Token, real>, count0: PairDict, total0: map<Token, real>)
      returns (sentenceTotal: map<Token, real>, count: PairDict, total: map<Token, real>)
      requires t0.Positive() && t0.entries.Valid() && ReadableOn(t0, before + Grid(pair.english, pair.foreign))
      requires NonNegative(st0) && count0.Valid() && count0.Positive() && TotalsMatch(count0, total0)
      requires transProb == TouchAll(t0, before)
      modifies this
      ensures ReadableOn(t0, Grid(pair.english, pair.foreign))
      ensures sentenceTotal == Pass1(t0, st0, Grid(pair.english, pair.foreign))
      ensures (count, total) == Pass2(t0, sentenceTotal, count0, total0, Grid(pair.english, pair.foreign))
      ensures transProb == TouchAll(t0, before + Grid(pair.english, pair.foreign)) && conditionalDict == old(conditionalDict)
    {
      ghost var g := Grid(pair.english, pair.foreign);
      assert forall k :: k in before + g <==> k in before || k in g;
      forall k | k in g ensures transProb.Readable(k) && transProb.Get(k) == t0.Get(k) {
        TouchAllReads(t0, before, k);
      }
      sentenceTotal := NormalisingPass(t0, pair.english, pair.foreign, st0);
      TouchAllConcat(t0, before, g);
      forall k | k in g ensures transProb.Readable(k) && transProb.Get(k) == t0.Get(k) {
        TouchAllReads(t0, before + g, k);
      }
      count, total := EvidencePass(t0, pair.english, pair.foreign, sentenceTotal, count0, total0);
      TouchAllPresent(TouchAll(t0, before + g), g);
    }

    /** One pass of the loop of `train_model` (lines 62-74): the E-step, then
        the M-step over the counted keys in the order they were counted.
        Afterwards the values of each co-occurring foreign word sum to 1, and
        a pair that no sentence pair contains is as it was. */
    method TrainIteration()
      requires Valid()
      modifies this
      ensures Valid()
      ensures transProb == Iteration(old(transProb), corpus) && conditionalDict == old(conditionalDict)
      ensures forall k :: k in Traversal(corpus) ==> transProb.entries.SumFor(k.1) == 1.0
      ensures forall k :: k !in Traversal(corpus) ==> (k in transProb.entries.vals <==> k in old(transProb).entries.vals)
      ensures forall k :: k !in Traversal(corpus) && k in old(transProb).entries.vals ==>
                transProb.entries.vals[k] == old(transProb).entries.vals[k]
    {
      ghost var t0 := transProb;
      var sentenceTotal, count, total := ExpectationStep();
      EStepCounts(t0, corpus);
      TouchAllBounds(t0, Traversal(corpus));
      UpdateProbabilities(count.order, count.vals, total);
      assert transProb == Iteration(t0, corpus);
      IterationProbabilities(t0, corpus);
      IterationOrder(t0, corpus);
      IterationNormalises(t0, corpus);
      IterationKeepsOthers(t0, corpus);
    }

    /** Iteration i + 1 of `train_model`, started from the table t0: the
        table is the one i + 1 iterations give, and the pairs outside the
        corpus still hold what t0 held. */
    method TrainStep(ghost t0: ProbTable, ghost i: nat)
      requires Valid() && Trainable(t0, corpus) && transProb == Train(t0, corpus, i)
      requires forall k :: k !in Traversal(corpus) ==> (k in transProb.entries.vals <==> k in t0.entries.vals)
      requires forall k :: k !in Traversal(corpus) && k in t0.entries.vals ==> transProb.entries.vals[k] == t0.entries.vals[k]
      modifies this
      ensures Valid() && conditionalDict == old(conditionalDict)
      ensures transProb == Train(t0, corpus, i + 1)
      ensures forall k :: k in Traversal(corpus) ==> transProb.entries.SumFor(k.1) == 1.0
      ensures forall k :: k !in Traversal(corpus) ==> (k in transProb.entries.vals <==> k in t0.entries.vals)
      ensures forall k :: k !in Traversal(corpus) && k in t0.entries.vals ==> transProb.entries.vals[k] == t0.entries.vals[k]
    {
      ghost var prev := transProb;
      TrainIteration();
      KeepsOthersChain(t0.entries.vals, prev.entries.vals, transProb.entries.vals, Traversal(corpus));
    }

    /** `train_model(iteration_count=100)`: `range` makes a negative count
        run no iteration. Afterwards the values of every foreign word of the corpus
        sum to 1, and a pair no sentence pair contains is untouched. */
    method TrainModel(iterationCount: int := 100) returns (table: ProbTable)
      requires Valid()
      modifies this
      ensures Valid() && table == transProb && conditionalDict == old(conditionalDict)
      ensures transProb == Train(old(transProb), corpus, if iterationCount < 0 then 0 else iterationCount)
      ensures iterationCount <= 0 ==> transProb == old(transProb)
      ensures iterationCount > 0 ==> forall f :: f in ForeignTypes(corpus) ==> transProb.entries.SumFor(f) == 1.0
      ensures forall k :: k !in Traversal(corpus) ==> (k in transProb.entries.vals <==> k in old(transProb).entries.vals)
      ensures forall k :: k !in Traversal(corpus) && k in old(transProb).entries.vals ==>
                transProb.entries.vals[k] == old(transProb).entries.vals[k]
    {
      ghost var t0 := transProb;
      var n := if iterationCount < 0 then 0 else iterationCount;
      for i := 0 to n
        invariant Valid() && conditionalDict == old(conditionalDict)
        invariant transProb == Train(t0, corpus, i)
        invariant i > 0 ==> forall k :: k in Traversal(corpus) ==> transProb.entries.SumFor(k.1) == 1.0
        invariant forall k :: k !in Traversal(corpus) ==> (k in transProb.entries.vals <==> k in t0.entries.vals)
        invariant forall k :: k !in Traversal(corpus) && k in t0.entries.vals ==> transProb.entries.vals[k] == t0.entries.vals[k]
      {
        TrainStep(t0, i);
      }
      table := transProb;
      if n > 0 {
        forall f | f in ForeignTypes(corpus) ensures transProb.entries.SumFor(f) == 1.0 {
          NullCoOccurs(corpus, f);
        }
      }
    }

    /** `cond_dict`: append (e, t(e | f)) to the list of f for every table
        entry, in table order. Calling it again appends every entry again. */
    method CondDict()
      requires transProb.entries.Valid()
      modifies this
      ensures transProb == old(transProb)
      ensures Listed(conditionalDict, old(conditionalDict), transProb.entries.order, transProb.entries.vals)
    {
      var order := transProb.entries.order;
      var vals := transProb.entries.vals;
      for i := 0 to |order|
        invariant forall x :: x in order[..i] ==> x in order
        invariant transProb == old(transProb)
        invariant Listed(conditionalDict, old(conditionalDict), order[..i], vals)
      {
        var k := order[i];
        PrefixSnoc(order, i);
        ListedSnoc(conditionalDict, old(conditionalDict), order[..i], vals, k);
        conditionalDict := Append(conditionalDict, k.1, (k.0, vals[k]));
      }
      assert order[..|order|] == order;
    }

    /** `get_max(f_word, cond_dict)`: scans `self.conditional_dict[f]`, which
        inserts an empty list for an unseen f; the second argument is not
        used. */
    method GetMax(f: Token, condDict: CondDict) returns (best: Option<Token>, value: real)
      modifies this
      ensures MaxResult(ListOf(old(conditionalDict), f), best, value)
      ensures conditionalDict == old(conditionalDict)[f := ListOf(old(conditionalDict), f)]
      ensures transProb == old(transProb)
    {
      if f !in conditionalDict {
        conditionalDict := conditionalDict[f := []];
      }
      best, value := ScanMax(conditionalDict[f]);
    }
  }
}
