# Hidden Markov Model evaluator (hw4.cpp), modelled in Dafny

hw4.cpp holds a fixed Hidden Markov Model with four hidden tags (Conjunction, Noun, Verb,
Adjective) and five observable words (That, Is, Not, It, Good). It has three constant tables:
the initial vector `probVector`, the transition matrix `transMat` and the emission matrix
`emissionMat`. Over them it runs three computations:

- `observed_seq_prob` is the forward algorithm. It fills a caller-owned trace `prob_vec` with
  one 4-wide row per observed word and returns the sum of the last row.
- `prob_of_tag_given_seq` is a posterior step. It reads the last row of that trace.
- `most_likely_tags` is a Viterbi-style algorithm. It fills the trace with maxima instead of
  sums, then decodes one tag per row by an independent argmax.

`tags_to_string` and `words_to_string` render tags and words as " Name" pieces.

The model keeps the source's form:

- `Hmm` (hmm.dfy) holds the enums and the tables. The scores are exact `real`s.
- `Recurrence` (recurrence.dfy) gives both recurrences as one pure function `TraceOf(mode, obs)`.
  The accumulators `SumAcc` and `MaxAcc` follow the inner `k` loop step by step, in the source's
  order.
- `Evaluator` (evaluator.dfy) holds the imperative methods. The trace is the class `ProbVec`,
  whose `rows` field the methods extend with zero rows and then overwrite entry by entry.
  Each recurrence method is proved equal to the pure recurrence. The posterior method is proved
  equal to a closed form. The decoder is proved to return the first argmax of each row.
- `Render` (render.dfy) holds the renderers. A parser is their partner: no name is a prefix of
  another, so parsing a rendering gives back the original sequence.
- `Demo` (demo.dfy) computes the exact Viterbi trace of the input that `main` runs:
  Not, That, Good.

These quirks of the code are kept as written:

- The carry-forward term of row p uses emission column p, the position, and not the word
  observed at p (hw4.cpp:38, hw4.cpp:81). This is why sequences longer than five words are
  excluded.
- The transition from a tag to itself is skipped in both recurrences (hw4.cpp:40, hw4.cpp:83).
- Every term of the posterior sum reads the target tag's own entry of the last row
  (hw4.cpp:60). The result is therefore the column sum of `transMat` for the target times that
  entry divided by the sequence probability. The proved bound, "at most the column sum", is
  loose: it exceeds one for Noun (247/180) and for Verb. A column sum above one does not mean
  the posterior exceeds one. The model proves only the looser bound.
- Decoding takes the first largest entry of each row independently (strict `>`). It does not
  backtrack a best path.

The code checks none of its inputs, so these are preconditions here and not error results:

- The observation sequence is non-empty. `observed_seq[0]` is read unconditionally.
- The sequence has at most five words. The emission matrix has five columns.
- The trace is empty on entry. `main` clears it between the two recurrences.
- In the posterior step, the trace is non-empty and `seq_prob` is not zero.

`SequenceProbabilityPositive` shows that after the forward
algorithm the divisor is never zero.

## Model

The defining functions have no row of their own. The lemmas below characterise them:
- `InitialRow` (hw4.cpp:29-32) is characterised by `TraceRowZero`.
- `NextRow` (hw4.cpp:34-46) is characterised by `TraceStep`, `ForwardEntryFormula` and `ViterbiEntryIsMax`.
- `SumAcc` (hw4.cpp:37-42) is characterised by `ForwardEntryFormula`.
- `MaxAcc` (hw4.cpp:81-86) is characterised by `MaxAccBounds` and `BestIncoming`.
- `ZeroRow` (hw4.cpp:25, 36, 68, 79) is characterised by the preconditions of `SeedRowZero`, `FillForwardRow` and `FillViterbiRow`.
- `TagName` and `WordName` (hw4.cpp:108-113, 121-127) are characterised by the round-trip lemmas.

| member | source | states |
|---|---|---|
| `Hmm.TagIndex` | hw4.cpp:4 | every tag's enum number is below 4 |
| `Hmm.WordIndex` | hw4.cpp:5 | every word's enum number is below 5, a valid emission column |
| `Hmm.TagAt` | hw4.cpp:100 | the cast of an index below 4 gives the tag with that index |
| `Hmm.ProbVector` | hw4.cpp:7-8 | every initial probability lies strictly between 0 and 1 |
| `Hmm.TransMat` | hw4.cpp:10-14 | every transition weight lies strictly between 0 and 1 |
| `Hmm.EmissionMat` | hw4.cpp:16-20 | every emission probability lies strictly between 0 and 1 |
| `Hmm.TablesAreStochastic` | hw4.cpp:7-20 | over exact reals, the initial vector and every row of both matrices sum to 1 |
| `Recurrence.TraceOf` | hw4.cpp:25-46 | a recurrence over n words leaves exactly n rows, each with one entry per tag |
| `Recurrence.TracePrefix` | hw4.cpp:34-46 | appending later positions never changes earlier rows: the first n rows are the trace of the first n words |
| `Recurrence.TraceRowZero` | hw4.cpp:29-32 | row 0 of either trace is probVector[i] * emissionMat[i][obs[0]] for every tag i |
| `Recurrence.TraceStep` | hw4.cpp:34-46 | row p > 0 of either trace is computed from row p - 1 and obs[p] alone |
| `Recurrence.ForwardEntryFormula` | hw4.cpp:37-43 | forward entry j is (prev[j] * emissionMat[j][p] + the sum over k != j of transMat[k][j] * prev[k]) * emissionMat[j][obs[p]] |
| `Recurrence.MaxAccBounds` | hw4.cpp:81-86 | after visiting k < n, the running max_p is at least the carry term and every visited inflow from another tag, and equals one of them |
| `Recurrence.ViterbiEntryIsMax` | hw4.cpp:80-87 | Viterbi entry j is the maximum of {prev[j] * emissionMat[j][p]} and {transMat[k][j] * prev[k] : k != j}, times emissionMat[j][obs[p]] |
| `Recurrence.TracePositive` | hw4.cpp:29-45 | every entry of either trace is strictly positive, so in particular non-negative |
| `Recurrence.SequenceProbabilityPositive` | hw4.cpp:48-52 | the sum of the last forward row is positive, so the later division by it is defined |
| `Evaluator.ProbVec.constructor` | hw4.cpp:138 | a new trace has no rows |
| `Evaluator.ProbVec.Clear` | hw4.cpp:150 | clearing leaves the trace without rows |
| `Evaluator.SeedRowZero` | hw4.cpp:25-32 | writing the appended zero row entry by entry produces row 0 of both recurrences |
| `Evaluator.FillForwardEntry` | hw4.cpp:37-43 | the in-place updates of entry [d][j] leave exactly the forward entry there, and nothing else changes |
| `Evaluator.FillForwardRow` | hw4.cpp:35-45 | one pass of the position loop appends exactly the next forward row and keeps the earlier rows |
| `Evaluator.ObservedSeqProb` | hw4.cpp:23-53 | the trace afterwards is the forward trace of obs, and the result is the sum of its last row |
| `Evaluator.ProbOfTagGivenSeq` | hw4.cpp:55-64 | the result is the column sum of transMat for the tag times (last[tag] / seqProb), and no other trace entry matters |
| `Evaluator.PosteriorAfterForwardBounds` | hw4.cpp:55-63 | after the forward algorithm, the posterior of a tag is positive and at most that tag's column sum |
| `Evaluator.NounColumnSum` | hw4.cpp:10-14 | the transitions into Noun sum to 247/180 |
| `Evaluator.BestIncoming` | hw4.cpp:81-86 | the max_p loop returns the maximum of the candidates for tag j |
| `Evaluator.FillViterbiEntry` | hw4.cpp:80-88 | entry [d][j] becomes the Viterbi entry, and nothing else changes |
| `Evaluator.FillViterbiRow` | hw4.cpp:78-89 | one pass of the position loop appends exactly the next Viterbi row and keeps the earlier rows |
| `Evaluator.FirstMaxUnique` | hw4.cpp:93-99 | at most one index of a row is its first largest entry, so decoding is determined |
| `Evaluator.DecodeRows` | hw4.cpp:92-102 | one tag per row, each the lowest index of a largest entry of its row |
| `Evaluator.MostLikelyTags` | hw4.cpp:67-103 | the trace afterwards is the Viterbi trace of obs, and tag i is the first argmax of row i |
| `Render.TagsToString` | hw4.cpp:105-116 | the result is the tag names concatenated in order, and "" for no tags |
| `Render.WordsToString` | hw4.cpp:118-130 | the result is the word names concatenated in order, and "" for no words |
| `Render.TagNamesPrefixFree` | hw4.cpp:108-113 | no tag name is a prefix of a different one |
| `Render.WordNamesPrefixFree` | hw4.cpp:121-127 | no word name is a prefix of a different one |
| `Render.ParseConcat` | hw4.cpp:105-130 | with prefix-free names, parsing a concatenation of names gives back the sequence |
| `Render.TagsToStringRoundTrip` | hw4.cpp:105-116 | the rendering of any tag sequence parses back to the same sequence |
| `Render.WordsToStringRoundTrip` | hw4.cpp:118-130 | the rendering of any word sequence parses back to the same sequence |
| `Demo.DemoViterbiTrace` | hw4.cpp:139-151 | the Viterbi trace of Not, That, Good has the exact rows [1/49, 2/33, 6/91, 1/63], [2/693, 48/5005, 12/2197, 2/891] and [16/105105, 24/120835, 64/195195, 32/45045] |
| `Demo.DemoMostLikelyTags` | hw4.cpp:151 | the decoder reads Verb, Noun, Adjective from that trace |
| `Demo.DemoDecodedTags` | hw4.cpp:151-152 | any three tags that are the first argmax of each row of that trace are exactly Verb, Noun, Adjective, the tags main prints |

## Left out

- 32-bit float arithmetic and its rounding: all scores are exact reals. The golden float outputs are therefore not modelled, and neither is the order-dependence of float sums.
- The `verbose` flag and every `std::cout` line (hw4.cpp:31, 44, 74, 88, 143-152): console output only.
- `main`'s argument parsing (hw4.cpp:132-136) and its printing: glue. Only its input sequence appears, in `Demo`.
- Behaviour on inputs the code does not handle: an empty sequence, more than five words, a non-empty trace on entry, or a zero divisor. Each is excluded by a precondition.
- Evaluator.DecodeRows: requires every row to have four entries, the shape of every trace. The code reads `prob_vec[0].size()` entries of each row and casts the index to `Tag`, which is only meaningful for such rows.
- Evaluator.ObservedSeqProb and Evaluator.MostLikelyTags: their row loops are factored into helper methods (`FillForwardRow`, `FillForwardEntry`, `FillViterbiRow`, `FillViterbiEntry`, `BestIncoming`). The statements and their order are those of the source.
- Evaluator.PosteriorAfterForwardBounds: bounds the posterior by the tag's column sum, not by one. A bound of one would need facts about the forward trace across all admitted inputs, and the model does not prove them.
