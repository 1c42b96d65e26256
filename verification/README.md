# IBM Model 1 word alignment, modelled in Dafny

`IBMModel1` loads a sentence-aligned English/foreign corpus. Every sentence
starts with the token `NULL`. The class estimates the lexical translation
probabilities t(e | f) by expectation-maximisation.

- The table `trans_prob` is a `defaultdict`. A missing key reads one over the
  number of distinct foreign word types.
- Each iteration of `train_model` starts fresh accumulators `count`, `total`
  and `sentence_total`.
- It then makes two passes over the (e, f) token pairs of each sentence pair.
  The first adds t(e | f) to `sentence_total[e]`. The second adds
  `t(e | f) / sentence_total[e]` to `count[(e, f)]` and to `total[f]`.
- Finally it writes `count / total[f]` back into the table.
- `cond_dict` lists, for each foreign word, its candidate translations
  (e, t(e | f)) in table order.
- `get_max` picks the first candidate with the largest value above 0.

The model keeps the behaviour of the code as written:

- `sentence_total` is created once per iteration, not once per sentence pair.
  Its values therefore accumulate over the whole corpus. `SentenceTotalCumulative`
  states this.
- Every read of `trans_prob` at a missing key inserts that key with the
  default. Only the reads on line 68 ever insert a key. The evidence loops on
  lines 69-72 read the same pairs of the same sentence pair that lines 66-68
  have just read, so every key they read is already present and they leave
  the table unchanged (`SentenceStep` proves this with `TouchAllPresent`).
  No read changes a value that a later read returns.
- Python dictionaries keep insertion order, and the model keeps it too:
  - `PairDict` is an ordered map.
  - The table's key order is the order in which training first visits the pairs.
  - That order fixes the order of the lists `cond_dict` builds.
  - It also fixes which of two equal maxima `get_max` returns.
- Probabilities are exact `real`s.

The modules are:

- `Sentences`: the corpus and the order in which training visits its pairs.
- `ProbTables`: ordered dictionaries and the translation table with its lazy
  default.
- `EM`: one iteration and repeated training as functions. These are the
  specification.
- `EMProperties`: what an iteration guarantees.
- `ConditionalIndex`: the conditional dictionary and the maximum search.
- `IBM`: the class `IBMModel1`. Its methods run the loops of the source and are
  proved equal to the functions of `EM` and `ConditionalIndex`.

## Model

| member | source | states |
|---|---|---|
| ProbTables.InitialTable | IBMModel1.py:46-53 | the initial table has no explicit entry; it can be read exactly when the corpus has a foreign word, and every read gives 1 / (number of distinct foreign word types), which is in (0, 1] |
| ProbTables.TouchAllValues | IBMModel1.py:52 | reading keys only inserts the default: a key that was present keeps its value, a new key holds `1 / numFWords` |
| EMProperties.UnsetPairReadsDefault | IBMModel1.py:52 | after any number of iterations, a pair that training never stored still reads 1 / (number of foreign word types) |
| IBM.IBMModel1.constructor | IBMModel1.py:16-19 | a new object holds the loaded corpus, the initial table and an empty conditional dictionary, and satisfies the class invariant; for a corpus that is not empty every key of the table can be read, so the default never divides by zero |
| IBM.IBMModel1.Read | IBMModel1.py:68 | `trans_prob[k]` returns the stored value or the default, and inserts a missing key with that default |
| ProbTables.TouchAllReads | IBMModel1.py:68-72 | reads made earlier in the E-step do not change the value a later read of any key returns |
| ProbTables.TouchAllBounds | IBMModel1.py:68-72 | reads that insert defaults keep every stored value positive and within (0, 1] |
| EM.Pass1 | IBMModel1.py:66-68 | the normalising pass never lowers a `sentence_total` entry, and leaves every visited English word with a positive total at least as large as each value read for it |
| EMProperties.Pass1Sums | IBMModel1.py:66-68 | after the pass, `sentence_total[e]` is its old value plus the sum of t(e \| f) over the visited pairs with English word e |
| IBM.IBMModel1.NormalisingPass | IBMModel1.py:66-68 | the nested loops compute exactly `Pass1` over the pairs of the sentence pair, English word outermost, and the table gains the read keys |
| IBM.IBMModel1.NormalisingRow | IBMModel1.py:67-68 | the inner loop for one English word extends `Pass1` by that word's row of pairs |
| EM.RowStep | IBMModel1.py:67-72 | one step of an inner loop reads the value the table had when the iteration began, and records one more read key |
| EM.Pass2 | IBMModel1.py:69-72 | the evidence pass keeps every count positive, keeps `total[f]` equal to the sum of the counts for f, and adds keys to `count` in first-visit order |
| EM.EvidenceStep | IBMModel1.py:71-72 | lines 71 and 72 add the same positive term to `count[(e, f)]` and `total[f]`, which keeps counts positive and totals matched, and a new key goes to the end of `count` |
| EM.TotalsAfterAdd | IBMModel1.py:71-72 | adding x to `count[(e, f)]` and to `total[f]` keeps every total equal to the sum of its counts |
| ProbTables.SumForAdd | IBMModel1.py:71 | `count[k] += x` raises the sum of the counts for k's foreign word by x and leaves every other foreign word's sum unchanged |
| IBM.IBMModel1.EvidencePass | IBMModel1.py:69-72 | the nested loops compute exactly `Pass2` over the pairs of the sentence pair |
| IBM.IBMModel1.EvidenceRow | IBMModel1.py:70-72 | the inner loop for one English word extends `Pass2` by that word's row; the second read on line 72 returns the same value as the read on line 71 |
| EM.EStep | IBMModel1.py:62-72 | the accumulators after the E-step: `sentence_total` non-negative, counts positive, totals equal to the sums of the counts, and the keys of `count` in the first-visit order of the corpus |
| EM.EStepSnoc | IBMModel1.py:65-72 | the E-step over one more sentence pair is the E-step so far followed by both passes over that pair |
| EMProperties.SentenceTotalCumulative | IBMModel1.py:62-68 | because `sentence_total` is not reset per sentence pair, after the E-step `sentence_total[e]` is the sum of t(e \| f) over every pair the whole corpus visits, repetitions included |
| IBM.IBMModel1.SentenceStep | IBMModel1.py:65-72 | the loop body for one sentence pair runs the normalising pass and then the evidence pass, on accumulators carried over from the previous pairs |
| IBM.IBMModel1.ExpectationStep | IBMModel1.py:62-72 | the accumulators start empty and the loop over the corpus computes exactly `EStep` of the table at the start of the iteration; the table gains every read key |
| EM.CountWithinTotal | IBMModel1.py:71-74 | every count is positive and at most the total of its foreign word, so line 74 never divides by zero |
| EM.EStepCounts | IBMModel1.py:62-74 | every counted key has a positive count at most its total |
| EM.MStep | IBMModel1.py:73-74 | writing the counted keys in order keeps the table's keys distinct and adds a new key at the end of the order |
| EM.MStepValues | IBMModel1.py:73-74 | the M-step stores `count / total[f]` at every counted key and leaves every other key, present or absent, as it was |
| EM.MStepKeeps | IBMModel1.py:73-74 | an M-step over keys already in the table keeps the keys, their order and positivity |
| EMProperties.MStepNormalises | IBMModel1.py:73-74 | after the M-step, the values for the foreign word of any counted key sum to exactly 1 |
| IBM.IBMModel1.UpdateProbabilities | IBMModel1.py:73-74 | the loop over the counted keys computes exactly `MStep` |
| EM.Iteration | IBMModel1.py:62-74 | an iteration leaves the table readable at every visited pair, stores exactly the old keys plus the visited pairs, and orders new keys by first visit |
| EMProperties.IterationNormalises | IBMModel1.py:62-74 | after an iteration, the values t(e \| f) sum to exactly 1 for every foreign word f that co-occurs with some English word |
| EMProperties.IterationWrites | IBMModel1.py:73-74 | after an iteration, a co-occurring pair holds a value in (0, 1]; any other pair keeps its presence and its value |
| EMProperties.IterationKeepsOthers | IBMModel1.py:73-74 | an iteration leaves every pair that no sentence pair contains as it was |
| EMProperties.IterationProbabilities | IBMModel1.py:73-74 | an iteration keeps every stored value in (0, 1] |
| EMProperties.IterationOrder | IBMModel1.py:62-74 | an iteration gives the table the corpus's first-visit order, whether the table was empty or already trained |
| EM.Train | IBMModel1.py:61-74 | repeated iterations keep the table readable at every visited pair and never remove a key |
| IBM.IBMModel1.TrainIteration | IBMModel1.py:62-74 | one pass of the training loop computes exactly `Iteration`, keeps the class invariant, normalises every co-occurring foreign word, and leaves other pairs untouched |
| IBM.IBMModel1.TrainStep | IBMModel1.py:61-74 | iteration i + 1 turns `Train(t0, i)` into `Train(t0, i + 1)` and keeps pairs outside the corpus as t0 held them |
| IBM.IBMModel1.TrainModel | IBMModel1.py:55-76 | `train_model(n)`, with n = 100 by default, runs max(n, 0) iterations (`range` of a non-positive count is empty), returns the table, changes nothing when n ≤ 0, and after at least one iteration makes t(· \| f) sum to 1 for every foreign word of the corpus; pairs outside the corpus are untouched |
| Sentences.NullCoOccurs | IBMModel1.py:40-41 | since the loader puts NULL first in both sentences, every foreign word of the corpus co-occurs with NULL, so training normalises all of them |
| ConditionalIndex.Append | IBMModel1.py:84 | `conditional_dict[f].append(entry)` grows the list of f by that entry and no other list |
| ConditionalIndex.EntriesFor | IBMModel1.py:83-84 | the entries one pass lists for f are exactly the (e, t(e \| f)) of the table's keys with foreign word f, in table order |
| ConditionalIndex.EntriesForDistinct | IBMModel1.py:83-84 | one pass lists each English word at most once for a given f |
| ConditionalIndex.ListedSnoc | IBMModel1.py:83-84 | appending one more key's entry keeps every list equal to its old contents plus the entries of the keys listed so far |
| IBM.IBMModel1.CondDict | IBMModel1.py:78-84 | `cond_dict` appends to each foreign word's list the entries of that word in table order, on top of what the list held, so a second call repeats them; the table is unchanged |
| ConditionalIndex.ScanMax | IBMModel1.py:92-96 | the scan returns `(None, 0)` when no entry has a value above 0, and otherwise the first entry that holds the largest value |
| ConditionalIndex.FirstMaxUnique | IBMModel1.py:92-96 | at most one position is the first maximum, so the result of `get_max` is determined by its list |
| ConditionalIndex.BestTranslation | IBMModel1.py:86-96 | on a listed table, `get_max(f)` names an e whose t(e \| f) is the largest value for f, and it returns `None` exactly when no value for f is above 0 |
| IBM.IBMModel1.GetMax | IBMModel1.py:86-96 | `get_max` searches `self.conditional_dict[f]`, inserting an empty list for an unseen f, and returns `ScanMax` of that list; the table is unchanged |

## Left out

- `initialize_corpus` (IBMModel1.py:21-44) is not modelled. It reads a directory name from standard input, opens files and tokenises with NLTK. The constructor instead takes the loaded corpus, a sequence of (English, foreign) token sequences in dictionary order. The predicate `WellFormed` states what the loader guarantees: a leading `NULL` in each sentence, and distinct English sentences because they are the dictionary keys.
- `print` (IBMModel1.py:98-112) only writes formatted output and is not modelled.
- Floating point is not modelled. Probabilities are exact `real`s, so the rounding of `float` division is not captured, and the sums to 1 hold exactly.
- Convergence of EM is not modelled. The number of iterations is the caller's.
- The default of an empty corpus is not modelled as an error. `1/num_f_words` with no foreign words raises `ZeroDivisionError` on the first read. The model makes such a read impossible by precondition, and training an empty corpus reads nothing.
- The `cond_dict` parameter of `get_max` is accepted and ignored, as in the source, which reads `self.conditional_dict`. Python's `(None, 0)` result is modelled as `(None, 0.0)`.
- IBM.IBMModel1.TrainModel: the result is a copy of the table as a value. In the source, `return self.trans_prob` (IBMModel1.py:76) hands back the object's own live `defaultdict`. A later `train_model`, or a read of a missing key through the returned dictionary, changes what the caller holds. The model does not capture that aliasing: the returned table equals `transProb` only at the moment of return.
