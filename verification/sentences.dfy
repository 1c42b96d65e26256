/** The aligned corpus: sentence pairs, the order in which training visits
    their word pairs, and the insertion order those visits give a dictionary. */
module Sentences {

  type Token = string

  /** A key (e, f) of the translation table, read as t(e | f). */
  type Pair = (Token, Token)

  /** The token the loader puts in front of every sentence. */
  const NullToken: Token := "NULL"

  datatype SentencePair = SentencePair(english: seq<Token>, foreign: seq<Token>)

  /** The corpus in the iteration order of the loader's dictionary. */
  type Corpus = seq<SentencePair>

  /** What the loader guarantees: both sentences of a pair start with NULL,
      and no English sentence occurs twice, since it is the dictionary key. */
  predicate WellFormed(c: Corpus) {
    && (forall j :: 0 <= j < |c| ==>
          && |c[j].english| > 0 && c[j].english[0] == NullToken
          && |c[j].foreign| > 0 && c[j].foreign[0] == NullToken)
    && (forall i, j :: 0 <= i < j < |c| ==> c[i].english != c[j].english)
  }

  /** The distinct foreign word types of the whole corpus. */
  function ForeignTypes(c: Corpus): set<Token> {
    set p, f | p in c && f in p.foreign :: f
  }

  /** e and f occur together in some sentence pair. */
  predicate CoOccur(c: Corpus, k: Pair) {
    exists p :: p in c && k.0 in p.english && k.1 in p.foreign
  }

  /** The pairs visited by `for f in foreign` for one English token. */
  function Row(e: Token, fs: seq<Token>): (r: seq<Pair>)
    ensures |r| == |fs|
    ensures forall i :: 0 <= i < |fs| ==> r[i] == (e, fs[i])
    ensures forall k {:trigger k in r} :: k in r <==> k.0 == e && k.1 in fs
  {
    if fs == [] then [] else Row(e, fs[..|fs| - 1]) + [(e, fs[|fs| - 1])]
  }

  lemma RowSnoc(e: Token, fs: seq<Token>, done: seq<Pair>, b: int)
    requires 0 <= b < |fs|
    ensures done + Row(e, fs[..b + 1]) == (done + Row(e, fs[..b])) + [(e, fs[b])]
  {
    assert fs[..b + 1][..b] == fs[..b];
  }

  lemma PrefixSnoc<T>(s: seq<T>, i: int)
    requires 0 <= i < |s|
    ensures s[..i + 1] == s[..i] + [s[i]]
  {
  }

  lemma InitLast<T>(s: seq<T>)
    requires s != []
    ensures s[..|s| - 1] + [s[|s| - 1]] == s
  {
  }

  /** The pairs visited by the nested loops over one sentence pair, English
      token outermost, repetitions included. */
  function Grid(es: seq<Token>, fs: seq<Token>): (r: seq<Pair>)
    ensures forall k {:trigger k in r} :: k in r <==> k.0 in es && k.1 in fs
  {
    if es == [] then []
    else
      var r := Grid(es[..|es| - 1], fs) + Row(es[|es| - 1], fs);
      assert forall e :: e in es <==> e in es[..|es| - 1] || e == es[|es| - 1];
      r
  }

  /** One more English token adds its row to the pairs visited so far. */
  lemma GridSnoc(es: seq<Token>, fs: seq<Token>, a: int)
    requires 0 <= a < |es|
    ensures Grid(es[..a + 1], fs) == Grid(es[..a], fs) + Row(es[a], fs)
    ensures forall k :: k in Grid(es[..a + 1], fs) ==> k in Grid(es, fs)
  {
    assert es[..a + 1][..a] == es[..a];
    assert forall e :: e in es[..a + 1] ==> e in es;
  }

  /** Every pair a training pass visits, in visiting order. */
  function Traversal(c: Corpus): (r: seq<Pair>)
    ensures forall k :: k in r <==> CoOccur(c, k)
  {
    if c == [] then []
    else
      var last := c[|c| - 1];
      var r := Traversal(c[..|c| - 1]) + Grid(last.english, last.foreign);
      assert forall p :: p in c <==> p in c[..|c| - 1] || p == last;
      r
  }

  /** The pairs visited for the first j sentence pairs are visited for the
      whole corpus. */
  lemma TraversalPrefix(c: Corpus, j: int)
    requires 0 <= j <= |c|
    ensures forall k :: k in Traversal(c[..j]) ==> k in Traversal(c)
  {
    forall k | k in Traversal(c[..j]) ensures CoOccur(c, k) {
      var p :| p in c[..j] && k.0 in p.english && k.1 in p.foreign;
      assert p in c;
    }
  }

  /** The pairs of one sentence pair of the corpus are visited. */
  lemma GridVisited(c: Corpus, j: int)
    requires 0 <= j < |c|
    ensures forall k :: k in Grid(c[j].english, c[j].foreign) ==> k in Traversal(c)
  {
    forall k | k in Grid(c[j].english, c[j].foreign) ensures CoOccur(c, k) {
      assert c[j] in c;
    }
  }

  predicate Distinct(s: seq<Pair>) {
    forall i, j :: 0 <= i < j < |s| ==> s[i] != s[j]
  }

  /** The key order of a dictionary whose keys were `order` after the keys
      `ks` are written to it one by one: a new key goes to the end, an
      existing one keeps its place. */
  function AppendUnseen(order: seq<Pair>, ks: seq<Pair>): (r: seq<Pair>)
    ensures forall k {:trigger k in r} :: k in r <==> k in order || k in ks
    ensures Distinct(order) ==> Distinct(r)
  {
    if ks == [] then order
    else
      var prev := AppendUnseen(order, ks[..|ks| - 1]);
      var k := ks[|ks| - 1];
      assert forall x :: x in ks <==> x in ks[..|ks| - 1] || x == k;
      if k in prev then prev else prev + [k]
  }

  lemma AppendUnseenOne(order: seq<Pair>, k: Pair)
    ensures AppendUnseen(order, [k]) == if k in order then order else order + [k]
  {
    assert [k][..0] == [];
  }

  /** The key order that one training pass gives a fresh dictionary. */
  function Visits(c: Corpus): seq<Pair> {
    AppendUnseen([], Traversal(c))
  }

  lemma {:induction false} AppendUnseenConcat(order: seq<Pair>, xs: seq<Pair>, ys: seq<Pair>)
    ensures AppendUnseen(order, xs + ys) == AppendUnseen(AppendUnseen(order, xs), ys)
    decreases |ys|
  {
    if ys == [] {
      assert xs + ys == xs;
    } else {
      var n := |ys| - 1;
      assert (xs + ys)[..|xs + ys| - 1] == xs + ys[..n];
      AppendUnseenConcat(order, xs, ys[..n]);
    }
  }

  /** Writing keys that are all present already leaves the order alone. */
  lemma {:induction false} AppendUnseenPresent(order: seq<Pair>, ks: seq<Pair>)
    requires forall k :: k in ks ==> k in order
    ensures AppendUnseen(order, ks) == order
    decreases |ks|
  {
    if ks != [] {
      AppendUnseenPresent(order, ks[..|ks| - 1]);
    }
  }

  /** A second pass over the same corpus adds no key to the order. */
  lemma VisitsStable(c: Corpus)
    ensures AppendUnseen(Visits(c), Traversal(c)) == Visits(c)
  {
    AppendUnseenPresent(Visits(c), Traversal(c));
  }

  /** Every foreign word of a loaded corpus is visited together with NULL. */
  lemma NullCoOccurs(c: Corpus, f: Token)
    requires WellFormed(c) && f in ForeignTypes(c)
    ensures (NullToken, f) in Traversal(c)
  {
    var p :| p in c && f in p.foreign;
    var j :| 0 <= j < |c| && c[j] == p;
    assert NullToken in p.english;
    assert CoOccur(c, (NullToken, f));
  }

  /** Every visited pair has a foreign word of the corpus. */
  lemma VisitedForeign(c: Corpus, k: Pair)
    requires k in Traversal(c)
    ensures k.1 in ForeignTypes(c) && |ForeignTypes(c)| > 0
  {
    assert CoOccur(c, k);
    var p :| p in c && k.0 in p.english && k.1 in p.foreign;
    assert k.1 in ForeignTypes(c);
  }

  /** A loaded corpus that is not empty has at least one foreign type. */
  lemma ForeignTypesNonEmpty(c: Corpus)
    requires WellFormed(c) && c != []
    ensures |ForeignTypes(c)| > 0
  {
    assert c[0] in c && NullToken in c[0].foreign;
    assert NullToken in ForeignTypes(c);
  }
}
