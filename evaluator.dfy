/**
 * The operations of hw4.cpp as imperative methods. The trace (prob_vec in
 * the source) is owned by the caller, who passes it in empty; the
 * recurrences append one row per position and overwrite its entries in
 * place, exactly as the nested loops of the source do. Each method is
 * proved against the pure recurrence of module Recurrence.
 */
module Evaluator {
  import opened Hmm
  import opened Recurrence

  /** The caller-owned trace: a growable list of score rows. */
  class ProbVec {
    var rows: seq<seq<real>>

    constructor ()
      ensures rows == []
    {
      rows := [];
    }

    /** Drops every row, as main does between the two recurrences. */
    method Clear()
      modifies this
      ensures rows == []
    {
      rows := [];
    }
  }

  /** The row appended before its entries are written. */
  const ZeroRow: seq<real> := [0.0, 0.0, 0.0, 0.0]

  /** rows with entry [d][j] overwritten by v. */
  function SetEntry(rows: seq<seq<real>>, d: nat, j: nat, v: real): seq<seq<real>>
    requires d < |rows| && j < |rows[d]|
  {
    rows[d := rows[d][j := v]]
  }

  /** Fills the row just appended at index 0 with the initial scores of obs[0]. */
  method SeedRowZero(obs: seq<Word>, pv: ProbVec)
    requires 0 < |obs| <= NumWords
    requires pv.rows == [ZeroRow]
    modifies pv
    ensures pv.rows == TraceOf(Forward, obs[..1]) && pv.rows == TraceOf(Viterbi, obs[..1])
  {
    for i := 0 to NumTags
      invariant |pv.rows| == 1 && |pv.rows[0]| == NumTags
      invariant forall t :: 0 <= t < i ==> pv.rows[0][t] == InitialRow(obs[0])[t]
    {
      pv.rows := SetEntry(pv.rows, 0, i, ProbVector(i) * EmissionMat(i, WordIndex(obs[0])));
    }
    assert pv.rows[0] == InitialRow(obs[0]);
    assert obs[..1][0] == obs[0];
  }

  /**
   * The forward algorithm (observed_seq_prob): leaves the forward trace of
   * obs in pv and returns the sum of its last row.
   */
  method ObservedSeqProb(obs: seq<Word>, pv: ProbVec) returns (ret: real)
    requires 0 < |obs| <= NumWords
    requires pv.rows == []
    modifies pv
    ensures pv.rows == TraceOf(Forward, obs)
    ensures ret == Sum(pv.rows[|obs| - 1])
  {
    pv.rows := pv.rows + [ZeroRow];
    var d := 0;
    SeedRowZero(obs, pv);
    for i := 1 to |obs|
      invariant d == i - 1
      invariant pv.rows == TraceOf(Forward, obs[..i])
    {
      d := d + 1;
      pv.rows := pv.rows + [ZeroRow];
      FillForwardRow(pv, d, obs[i]);
      assert obs[..i + 1][..i] == obs[..i];
    }
    assert obs[..|obs|] == obs;
    ret := 0.0;
    for t := 0 to |pv.rows[d]|
      invariant ret == Sum(pv.rows[d][..t])
    {
      assert pv.rows[d][..t + 1][..t] == pv.rows[d][..t];
      ret := ret + pv.rows[d][t];
    }
    assert pv.rows[d][..|pv.rows[d]|] == pv.rows[d];
  }

  lemma SetEntryTwice(rows: seq<seq<real>>, d: nat, j: nat, a: real, b: real)
    requires d < |rows| && j < |rows[d]|
    ensures SetEntry(SetEntry(rows, d, j, a), d, j, b) == SetEntry(rows, d, j, b)
  {
    assert SetEntry(rows, d, j, a)[d][j := b] == rows[d][j := b];
  }

  /** Row d while the tag loop runs: entries below n computed, the rest still zero. */
  function PartialRow(mode: Mode, prev: seq<real>, p: nat, w: Word, n: nat): seq<real>
    requires |prev| == NumTags && p < NumWords
  {
    seq(NumTags, t requires 0 <= t < NumTags => if t < n then Entry(mode, prev, p, t, w) else 0.0)
  }

  /** Writing entry n of a partial row extends it by one computed entry. */
  lemma PartialRowStep(mode: Mode, before: seq<seq<real>>, prev: seq<real>, p: nat, w: Word, n: nat)
    requires |prev| == NumTags && p < NumWords && n < NumTags && |before| == p
    ensures SetEntry(before + [PartialRow(mode, prev, p, w, n)], p, n, Entry(mode, prev, p, n, w))
         == before + [PartialRow(mode, prev, p, w, n + 1)]
  {
    var rows := before + [PartialRow(mode, prev, p, w, n)];
    assert rows[p][n := Entry(mode, prev, p, n, w)] == PartialRow(mode, prev, p, w, n + 1);
  }

  /**
   * One pass of the position loop of observed_seq_prob: overwrites the
   * zero row just appended at index d with the forward scores computed
   * from row d - 1 and the word w observed at position d.
   */
  method FillForwardRow(pv: ProbVec, d: nat, w: Word)
    requires 0 < d < NumWords
    requires |pv.rows| == d + 1 && |pv.rows[d - 1]| == NumTags && pv.rows[d] == ZeroRow
    modifies pv
    ensures pv.rows == old(pv.rows[..d]) + [NextRow(Forward, old(pv.rows[d - 1]), d, w)]
  {
    ghost var before := pv.rows[..d];
    ghost var prev := pv.rows[d - 1];
    assert PartialRow(Forward, prev, d, w, 0) == ZeroRow;
    assert pv.rows == before + [pv.rows[d]];
    for j := 0 to NumTags
      invariant pv.rows == before + [PartialRow(Forward, prev, d, w, j)]
    {
      FillForwardEntry(pv, d, j, w);
      PartialRowStep(Forward, before, prev, d, w, j);
    }
    assert PartialRow(Forward, prev, d, w, NumTags) == NextRow(Forward, prev, d, w);
  }

  /**
   * One pass of the tag loop of observed_seq_prob: entry [d][j] is set to the
   * carry-forward term, the inflow from every other tag is added to it in
   * place, and the total is scaled by the emission of w; nothing else changes.
   */
  method FillForwardEntry(pv: ProbVec, d: nat, j: nat, w: Word)
    requires 0 < d < NumWords && j < NumTags
    requires |pv.rows| == d + 1 && |pv.rows[d - 1]| == NumTags && |pv.rows[d]| == NumTags
    modifies pv
    ensures pv.rows == old(SetEntry(pv.rows, d, j, Entry(Forward, pv.rows[d - 1], d, j, w)))
  {
    ghost var prev := pv.rows[d - 1];
    ghost var start := pv.rows;
    pv.rows := SetEntry(pv.rows, d, j, pv.rows[d - 1][j] * EmissionMat(j, d));
    for k := 0 to NumTags
      invariant pv.rows == SetEntry(start, d, j, SumAcc(prev, j, d, k))
    {
      if j == k {
        assert SumAcc(prev, j, d, k + 1) == SumAcc(prev, j, d, k);
        continue; // the self-transition is skipped
      }
      assert SumAcc(prev, j, d, k + 1) == SumAcc(prev, j, d, k) + TransMat(k, j) * prev[k];
      SetEntryTwice(start, d, j, SumAcc(prev, j, d, k), SumAcc(prev, j, d, k + 1));
      pv.rows := SetEntry(pv.rows, d, j, pv.rows[d][j] + TransMat(k, j) * pv.rows[d - 1][k]);
    }
    SetEntryTwice(start, d, j, SumAcc(prev, j, d, NumTags), Entry(Forward, prev, d, j, w));
    pv.rows := SetEntry(pv.rows, d, j, pv.rows[d][j] * EmissionMat(j, WordIndex(w)));
  }

  /** The weights of every transition into tag t, as a column of transMat. */
  function TransColumn(t: nat): seq<real>
    requires t < NumTags
  {
    seq(NumTags, i requires 0 <= i < NumTags => TransMat(i, t))
  }

  /** The total weight of transitions into tag t. */
  function ColumnSum(t: nat): real
    requires t < NumTags
  {
    Sum(TransColumn(t))
  }

  /**
   * The posterior step (prob_of_tag_given_seq): every term of the sum reads
   * the same score, the target tag's entry of the last row, so the result
   * is the column sum of transMat for the target times that score over
   * seqProb, and no other entry of the trace matters.
   */
  method ProbOfTagGivenSeq(tag: Tag, seqProb: real, pv: ProbVec) returns (prob: real)
    requires |pv.rows| > 0 && TagIndex(tag) < |pv.rows[|pv.rows| - 1]|
    requires seqProb != 0.0
    ensures prob == ColumnSum(TagIndex(tag)) * (pv.rows[|pv.rows| - 1][TagIndex(tag)] / seqProb)
  {
    prob := 0.0;
    var index := |pv.rows| - 1;
    var t := TagIndex(tag);
    ghost var q := pv.rows[index][t] / seqProb;
    ghost var col := TransColumn(t);
    for i := 0 to NumTags
      invariant prob == Sum(col[..i]) * q
    {
      assert col[..i + 1][..i] == col[..i];
      prob := prob + TransMat(i, t) * (pv.rows[index][t] / seqProb);
    }
    assert col[..NumTags] == col;
  }

  /**
   * After the forward algorithm, the posterior of any tag is positive and
   * at most the column sum of transMat for that tag. The bound is loose:
   * for Noun and Verb the column sum exceeds one.
   */
  lemma PosteriorAfterForwardBounds(obs: seq<Word>, tag: Tag)
    requires 0 < |obs| <= NumWords
    ensures var last := TraceOf(Forward, obs)[|obs| - 1];
      && 0.0 < Sum(last)
      && var r := ColumnSum(TagIndex(tag)) * (last[TagIndex(tag)] / Sum(last));
         0.0 < r <= ColumnSum(TagIndex(tag))
  {
    var t := TagIndex(tag);
    var last := TraceOf(Forward, obs)[|obs| - 1];
    TracePositive(Forward, obs);
    EntryAtMostSum(last, t);
    SumPositive(last);
    SumPositive(TransColumn(t));
    var c, x, s := ColumnSum(t), last[t], Sum(last);
    QuotientFactorBounds(c, x, s);
  }

  /** For 0 < x <= s and c > 0: 0 < c * (x / s) <= c. */
  lemma QuotientFactorBounds(c: real, x: real, s: real)
    requires 0.0 < c && 0.0 < x <= s
    ensures 0.0 < c * (x / s) <= c
  {
    var q := x / s;
    assert q * s == x;
    assert 0.0 < q <= 1.0;
    assert c * q <= c * 1.0;
  }

  /** The transitions into Noun sum to 247/180, a table fact about transMat's column 1. */
  lemma NounColumnSum()
    ensures ColumnSum(TagIndex(Noun)) == 247.0 / 180.0
  {
    var col := TransColumn(1);
    assert col == [1.0 / 2.0, 2.0 / 9.0, 4.0 / 10.0, 1.0 / 4.0];
    assert col[..0] == [];
    assert col[..1][..0] == col[..0];
    assert col[..2][..1] == col[..1];
    assert col[..3][..2] == col[..2];
    assert col[..4][..3] == col[..3];
    assert col[..4] == col;
    assert Sum(col[..1]) == 1.0 / 2.0;
    assert Sum(col[..2]) == 1.0 / 2.0 + 2.0 / 9.0;
    assert Sum(col[..3]) == 1.0 / 2.0 + 2.0 / 9.0 + 4.0 / 10.0;
  }

  /**
   * m is the index the decoder picks in row: an index of a largest entry,
   * and the lowest such index (the scan replaces only on strictly greater).
   */
  predicate IsFirstMax(row: seq<real>, m: nat)
  {
    && m < |row|
    && (forall k :: 0 <= k < |row| ==> row[k] <= row[m])
    && (forall k :: 0 <= k < m ==> row[k] < row[m])
  }

  /** At most one index of a row satisfies IsFirstMax, so decoding is determined. */
  lemma FirstMaxUnique(row: seq<real>, a: nat, b: nat)
    requires IsFirstMax(row, a) && IsFirstMax(row, b)
    ensures a == b
  {
    assert row[a] == row[b];
  }

  /**
   * The decoding loop of most_likely_tags: for every row, independently, the
   * first index of its largest entry, as a Tag.
   */
  method DecodeRows(rows: seq<seq<real>>) returns (tags: seq<Tag>)
    requires forall i :: 0 <= i < |rows| ==> |rows[i]| == NumTags
    ensures |tags| == |rows|
    ensures forall i :: 0 <= i < |rows| ==> IsFirstMax(rows[i], TagIndex(tags[i]))
  {
    tags := [];
    for i := 0 to |rows|
      invariant |tags| == i
      invariant forall i' :: 0 <= i' < i ==> IsFirstMax(rows[i'], TagIndex(tags[i']))
    {
      var maxI := 0;
      for j := 1 to |rows[0]|
        invariant maxI < j
        invariant forall k :: 0 <= k < j ==> rows[i][k] <= rows[i][maxI]
        invariant forall k :: 0 <= k < maxI ==> rows[i][k] < rows[i][maxI]
      {
        if rows[i][j] > rows[i][maxI] {
          maxI := j;
        }
      }
      tags := tags + [TagAt(maxI)];
    }
  }

  /**
   * The max_p loop of most_likely_tags: the largest of the carry-forward
   * term of tag j at position p and the inflows into j from the other tags
   * of row prev, keeping the earlier candidate on ties.
   */
  method BestIncoming(prev: seq<real>, p: nat, j: nat) returns (maxP: real)
    requires |prev| == NumTags && p < NumWords && j < NumTags
    ensures maxP == MaxAcc(prev, j, p, NumTags)
    ensures IsMaxOfCandidates(prev, j, p, maxP)
  {
    maxP := prev[j] * EmissionMat(j, p);
    for k := 0 to NumTags
      invariant maxP == MaxAcc(prev, j, p, k)
    {
      if j == k {
        continue; // the self-transition is skipped
      }
      var t := TransMat(k, j) * prev[k];
      if t > maxP {
        maxP := t;
      }
    }
    MaxAccBounds(prev, j, p, NumTags);
  }

  /**
   * One pass of the position loop of most_likely_tags: overwrites the zero
   * row just appended at index d with the Viterbi scores computed from row
   * d - 1 and the word w observed at position d.
   */
  method FillViterbiRow(pv: ProbVec, d: nat, w: Word)
    requires 0 < d < NumWords
    requires |pv.rows| == d + 1 && |pv.rows[d - 1]| == NumTags && pv.rows[d] == ZeroRow
    modifies pv
    ensures pv.rows == old(pv.rows[..d]) + [NextRow(Viterbi, old(pv.rows[d - 1]), d, w)]
  {
    ghost var before := pv.rows[..d];
    ghost var prev := pv.rows[d - 1];
    assert PartialRow(Viterbi, prev, d, w, 0) == ZeroRow;
    assert pv.rows == before + [pv.rows[d]];
    for j := 0 to NumTags
      invariant pv.rows == before + [PartialRow(Viterbi, prev, d, w, j)]
    {
      FillViterbiEntry(pv, d, j, w);
      PartialRowStep(Viterbi, before, prev, d, w, j);
    }
    assert PartialRow(Viterbi, prev, d, w, NumTags) == NextRow(Viterbi, prev, d, w);
  }

  /**
   * One pass of the tag loop of most_likely_tags: entry [d][j] becomes the
   * best incoming score times the emission of w; nothing else changes.
   */
  method FillViterbiEntry(pv: ProbVec, d: nat, j: nat, w: Word)
    requires 0 < d < NumWords && j < NumTags
    requires |pv.rows| == d + 1 && |pv.rows[d - 1]| == NumTags && |pv.rows[d]| == NumTags
    modifies pv
    ensures pv.rows == old(SetEntry(pv.rows, d, j, Entry(Viterbi, pv.rows[d - 1], d, j, w)))
  {
    var maxP := BestIncoming(pv.rows[d - 1], d, j);
    NextRowAt(Viterbi, pv.rows[d - 1], d, w, j);
    pv.rows := SetEntry(pv.rows, d, j, maxP * EmissionMat(j, WordIndex(w)));
  }

  /**
   * The Viterbi-style algorithm (most_likely_tags): leaves the Viterbi trace
   * of obs in pv and returns, for each position, the first tag with the
   * largest score in that position's row.
   */
  method MostLikelyTags(obs: seq<Word>, pv: ProbVec) returns (tags: seq<Tag>)
    requires 0 < |obs| <= NumWords
    requires pv.rows == []
    modifies pv
    ensures pv.rows == TraceOf(Viterbi, obs)
    ensures |tags| == |obs|
    ensures forall i :: 0 <= i < |obs| ==> IsFirstMax(pv.rows[i], TagIndex(tags[i]))
  {
    pv.rows := pv.rows + [ZeroRow];
    var d := 0;
    SeedRowZero(obs, pv);
    for i := 1 to |obs|
      invariant d == i - 1
      invariant pv.rows == TraceOf(Viterbi, obs[..i])
    {
      d := d + 1;
      pv.rows := pv.rows + [ZeroRow];
      FillViterbiRow(pv, d, obs[i]);
      assert obs[..i + 1][..i] == obs[..i];
    }
    assert obs[..|obs|] == obs;
    tags := DecodeRows(pv.rows);
  }
}
