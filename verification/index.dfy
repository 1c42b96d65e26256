/** The conditional dictionary built from the translation table, which lists
    for each foreign word f its candidate translations (e, t(e | f)), and the
    search for the best of them. */
module ConditionalIndex {
  import opened Sentences

  /** A candidate translation as `cond_dict` stores it: (e, t(e | f)). */
  type Entry = (Token, real)

  /** `conditional_dict`: a `defaultdict(list)` keyed by foreign words. */
  type CondDict = map<Token, seq<Entry>>

  datatype Option<T> = None | Some(value: T)

  /** `conditional_dict[f]` as a value: a missing key reads the empty list. */
  function ListOf(cd: CondDict, f: Token): seq<Entry> {
    if f in cd then cd[f] else []
  }

  /** The entries one pass of `cond_dict` appends to the list of f, for a
      table whose keys are `order` in insertion order: one entry per key
      whose foreign word is f, in that order. */
  function EntriesFor(order: seq<Pair>, vals: map<Pair, real>, f: Token): (r: seq<Entry>)
    requires forall k :: k in order ==> k in vals
    ensures |r| <= |order|
    ensures forall x {:trigger x in r} :: x in r <==> (x.0, f) in order && vals[(x.0, f)] == x.1
  {
    if order == [] then []
    else
      var k := order[|order| - 1];
      var init := order[..|order| - 1];
      assert forall x :: x in order <==> x in init || x == k;
      var prev := EntriesFor(init, vals, f);
      if k.1 == f then prev + [(k.0, vals[k])] else prev
  }

  /** A table has each key once, so one pass lists each English word at
      most once for f. */
  lemma {:induction false} EntriesForDistinct(order: seq<Pair>, vals: map<Pair, real>, f: Token)
    requires forall k :: k in order ==> k in vals
    requires Distinct(order)
    ensures forall i, j :: 0 <= i < j < |EntriesFor(order, vals, f)| ==>
              EntriesFor(order, vals, f)[i].0 != EntriesFor(order, vals, f)[j].0
    decreases |order|
  {
    if order != [] {
      var k := order[|order| - 1];
      var init := order[..|order| - 1];
      assert forall x :: x in order <==> x in init || x == k;
      EntriesForDistinct(init, vals, f);
      var prev := EntriesFor(init, vals, f);
      if k.1 == f {
        assert forall x :: x in prev ==> x.0 != k.0;
      }
    }
  }

  lemma EntriesForSnoc(order: seq<Pair>, vals: map<Pair, real>, k: Pair, f: Token)
    requires forall x :: x in order ==> x in vals
    requires k in vals
    ensures forall x :: x in order + [k] ==> x in vals
    ensures EntriesFor(order + [k], vals, f)
         == EntriesFor(order, vals, f) + (if k.1 == f then [(k.0, vals[k])] else [])
  {
    assert (order + [k])[..|order|] == order;
  }

  /** `conditional_dict[f].append(entry)` (line 84), on a `defaultdict(list)`. */
  function Append(cd: CondDict, f: Token, entry: Entry): (r: CondDict)
    ensures ListOf(r, f) == ListOf(cd, f) + [entry]
    ensures forall g :: g != f ==> ListOf(r, g) == ListOf(cd, g)
    ensures forall g :: g in r <==> g in cd || g == f
  {
    cd[f := ListOf(cd, f) + [entry]]
  }

  /** cd is cd0 after one entry has been appended for each key of `order`:
      every list grew by exactly the entries of its foreign word, and a list
      exists where one existed or one grew. */
  ghost predicate Listed(cd: CondDict, cd0: CondDict, order: seq<Pair>, vals: map<Pair, real>)
    requires forall k :: k in order ==> k in vals
  {
    && (forall f :: ListOf(cd, f) == ListOf(cd0, f) + EntriesFor(order, vals, f))
    && (forall f :: f in cd <==> f in cd0 || EntriesFor(order, vals, f) != [])
  }

  /** Appending the entry of one more key keeps the lists in step. */
  lemma ListedSnoc(cd: CondDict, cd0: CondDict, order: seq<Pair>, vals: map<Pair, real>, k: Pair)
    requires forall x :: x in order ==> x in vals
    requires k in vals && Listed(cd, cd0, order, vals)
    ensures forall x :: x in order + [k] ==> x in vals
    ensures Listed(Append(cd, k.1, (k.0, vals[k])), cd0, order + [k], vals)
  {
    var r := Append(cd, k.1, (k.0, vals[k]));
    forall f
      ensures ListOf(r, f) == ListOf(cd0, f) + EntriesFor(order + [k], vals, f)
      ensures f in r <==> f in cd0 || EntriesFor(order + [k], vals, f) != []
    {
      ListedSnocAt(cd, cd0, order, vals, k, f);
    }
  }

  lemma ListedSnocAt(cd: CondDict, cd0: CondDict, order: seq<Pair>, vals: map<Pair, real>, k: Pair, f: Token)
    requires forall x :: x in order ==> x in vals
    requires k in vals
    requires ListOf(cd, f) == ListOf(cd0, f) + EntriesFor(order, vals, f)
    requires f in cd <==> f in cd0 || EntriesFor(order, vals, f) != []
    ensures forall x :: x in order + [k] ==> x in vals
    ensures ListOf(Append(cd, k.1, (k.0, vals[k])), f) == ListOf(cd0, f) + EntriesFor(order + [k], vals, f)
    ensures f in Append(cd, k.1, (k.0, vals[k])) <==> f in cd0 || EntriesFor(order + [k], vals, f) != []
  {
    EntriesForSnoc(order, vals, k, f);
    if f == k.1 {
      assert ListOf(cd0, f) + EntriesFor(order + [k], vals, f)
          == (ListOf(cd0, f) + EntriesFor(order, vals, f)) + [(k.0, vals[k])];
    }
  }

  /** The value `get_max` returns for a list: the pair `(None, 0)` when no
      entry has a value above 0, and otherwise the first entry that holds
      the largest value. */
  ghost predicate MaxResult(entries: seq<Entry>, best: Option<Token>, value: real) {
    if forall i :: 0 <= i < |entries| ==> entries[i].1 <= 0.0 then
      best == None && value == 0.0
    else
      best.Some? && exists i :: 0 <= i < |entries| && FirstMaxAt(entries, i) && entries[i] == (best.value, value)
  }

  /** Entry i holds the largest value of the list, and no entry before it
      holds that value. */
  ghost predicate FirstMaxAt(entries: seq<Entry>, i: int)
    requires 0 <= i < |entries|
  {
    && (forall j :: 0 <= j < |entries| ==> entries[j].1 <= entries[i].1)
    && (forall j :: 0 <= j < i ==> entries[j].1 < entries[i].1)
  }

  /** At most one position of a list is its first maximum, so `get_max` is
      determined by its list. */
  lemma FirstMaxUnique(entries: seq<Entry>, i: int, j: int)
    requires 0 <= i < |entries| && 0 <= j < |entries|
    requires FirstMaxAt(entries, i) && FirstMaxAt(entries, j)
    ensures i == j
  {
    assert entries[i].1 == entries[j].1;
  }

  /** The loop of `get_max` over one list: it starts from `(None, 0)` and
      takes an entry only when its value is strictly greater than the value
      held so far. */
  method ScanMax(entries: seq<Entry>) returns (best: Option<Token>, value: real)
    ensures MaxResult(entries, best, value)
    ensures best.Some? ==> value > 0.0 && (best.value, value) in entries
  {
    best, value := None, 0.0;
    ghost var at := -1;
    for n := 0 to |entries|
      invariant -1 <= at < n
      invariant at == -1 ==> best == None && value == 0.0
      invariant at == -1 <==> forall j :: 0 <= j < n ==> entries[j].1 <= 0.0
      invariant at >= 0 ==> best == Some(entries[at].0) && value == entries[at].1 && value > 0.0
      invariant forall j :: 0 <= j < n ==> entries[j].1 <= value
      invariant at >= 0 ==> forall j :: 0 <= j < at ==> entries[j].1 < value
    {
      if entries[n].1 > value {
        best, value := Some(entries[n].0), entries[n].1;
        at := n;
      }
    }
    if at >= 0 {
      assert FirstMaxAt(entries, at);
    }
  }

  /** What the best entry of f means once `cond_dict` has listed the table:
      `get_max` names an e whose t(e | f) is the largest value of f, and it
      finds nothing only when no value of f is above 0. */
  lemma BestTranslation(order: seq<Pair>, vals: map<Pair, real>, f: Token, best: Option<Token>, value: real)
    requires forall k :: k in order ==> k in vals
    requires MaxResult(EntriesFor(order, vals, f), best, value)
    ensures best.Some? ==> (best.value, f) in order && vals[(best.value, f)] == value
    ensures forall k :: k in order && k.1 == f ==> vals[k] <= value
    ensures best == None <==> forall k :: k in order && k.1 == f ==> vals[k] <= 0.0
  {
    var es := EntriesFor(order, vals, f);
    forall k | k in order && k.1 == f ensures vals[k] <= value {
      assert (k.0, vals[k]) in es;
      var j :| 0 <= j < |es| && es[j] == (k.0, vals[k]);
      if best.Some? {
        var i :| 0 <= i < |es| && FirstMaxAt(es, i) && es[i] == (best.value, value);
        assert es[j].1 <= es[i].1;
      }
    }
    if best.Some? {
      var i :| 0 <= i < |es| && FirstMaxAt(es, i) && es[i] == (best.value, value);
      assert es[i] in es;
      var j :| 0 <= j < |es| && es[j].1 > 0.0;
      assert es[j] in es;
      assert value > 0.0 by {
        assert es[j].1 <= es[i].1;
      }
    } else {
      forall k | k in order && k.1 == f ensures vals[k] <= 0.0 {
        assert (k.0, vals[k]) in es;
      }
    }
  }
}
