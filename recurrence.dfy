/**
 * The two dynamic-programming recurrences of hw4.cpp as pure functions.
 * A trace holds one row per observed position and one score per tag. Both
 * recurrences seed row 0 the same way and build each later row from the row
 * before it; they differ only in how the contributions to an entry are
 * combined: summed (forward) or maximised (Viterbi).
 *
 * Two features of the source are kept as they are: the carry-forward term
 * of row p uses emission column p (the position, not the word observed
 * there), and the transition from a tag to itself is never counted.
 */
module Recurrence {
  import opened Hmm

  datatype Mode = Forward | Viterbi

  /** Sum of the entries of s, added left to right. */
  function Sum(s: seq<real>): real
  {
    if s == [] then 0.0 else Sum(s[..|s| - 1]) + s[|s| - 1]
  }

  /** Row 0 of either trace: initial probability times emission of the first word. */
  function InitialRow(w: Word): seq<real>
  {
    seq(NumTags, i requires 0 <= i < NumTags => ProbVector(i) * EmissionMat(i, WordIndex(w)))
  }

  /** The carry-forward term of entry j at position p: prev[j] times emission column p. */
  function Carry(prev: seq<real>, j: nat, p: nat): real
    requires |prev| == NumTags && j < NumTags && p < NumWords
  {
    prev[j] * EmissionMat(j, p)
  }

  /** The contribution to tag j from a different tag k of the previous row. */
  function Inflow(prev: seq<real>, k: nat, j: nat): real
    requires |prev| == NumTags && k < NumTags && j < NumTags
  {
    TransMat(k, j) * prev[k]
  }

  /** The forward accumulator for entry j after the loop over k has visited 0..n-1. */
  function SumAcc(prev: seq<real>, j: nat, p: nat, n: nat): real
    requires |prev| == NumTags && j < NumTags && p < NumWords && n <= NumTags
  {
    if n == 0 then Carry(prev, j, p)
    else if n - 1 == j then SumAcc(prev, j, p, n - 1)
    else SumAcc(prev, j, p, n - 1) + Inflow(prev, n - 1, j)
  }

  /**
   * The Viterbi accumulator for entry j after the loop over k has visited
   * 0..n-1; a candidate replaces it only when strictly greater.
   */
  function MaxAcc(prev: seq<real>, j: nat, p: nat, n: nat): real
    requires |prev| == NumTags && j < NumTags && p < NumWords && n <= NumTags
  {
    if n == 0 then Carry(prev, j, p)
    else
      var m := MaxAcc(prev, j, p, n - 1);
      if n - 1 == j then m
      else if Inflow(prev, n - 1, j) > m then Inflow(prev, n - 1, j)
      else m
  }

  /** Entry j of row p, given row p - 1 and the word observed at p. */
  function Entry(mode: Mode, prev: seq<real>, p: nat, j: nat, w: Word): real
    requires |prev| == NumTags && j < NumTags && p < NumWords
  {
    var combined := match mode
      case Forward => SumAcc(prev, j, p, NumTags)
      case Viterbi => MaxAcc(prev, j, p, NumTags);
    combined * EmissionMat(j, WordIndex(w))
  }

  function NextRow(mode: Mode, prev: seq<real>, p: nat, w: Word): seq<real>
    requires |prev| == NumTags && p < NumWords
  {
    seq(NumTags, j requires 0 <= j < NumTags => Entry(mode, prev, p, j, w))
  }

  /** Entry j of NextRow, with the combination of the mode spelled out. */
  lemma NextRowAt(mode: Mode, prev: seq<real>, p: nat, w: Word, j: nat)
    requires |prev| == NumTags && p < NumWords && j < NumTags
    ensures NextRow(mode, prev, p, w)[j] == Entry(mode, prev, p, j, w)
    ensures Entry(mode, prev, p, j, w)
      == (if mode == Forward then SumAcc(prev, j, p, NumTags) else MaxAcc(prev, j, p, NumTags))
         * EmissionMat(j, WordIndex(w))
  {
  }

  /** The trace a recurrence leaves behind after processing all of obs. */
  function TraceOf(mode: Mode, obs: seq<Word>): (t: seq<seq<real>>)
    requires 0 < |obs| <= NumWords
    ensures |t| == |obs|
    ensures forall p :: 0 <= p < |t| ==> |t[p]| == NumTags
    decreases |obs|
  {
    if |obs| == 1 then [InitialRow(obs[0])]
    else
      var t := TraceOf(mode, obs[..|obs| - 1]);
      t + [NextRow(mode, t[|t| - 1], |obs| - 1, obs[|obs| - 1])]
  }

  // ---------------------------------------------------------------------
  // Shape of the trace

  /**
   * Processing a longer sequence never changes the rows of a prefix: the
   * first n rows are exactly the trace of the first n words.
   */
  lemma {:induction false} TracePrefix(mode: Mode, obs: seq<Word>, n: nat)
    requires 0 < n <= |obs| <= NumWords
    ensures TraceOf(mode, obs)[..n] == TraceOf(mode, obs[..n])
    decreases |obs|
  {
    if n < |obs| {
      var init := obs[..|obs| - 1];
      TracePrefix(mode, init, n);
      assert init[..n] == obs[..n];
    } else {
      assert obs[..n] == obs;
    }
  }

  /** Row 0 of either trace is the initial vector times the emission of obs[0]. */
  lemma TraceRowZero(mode: Mode, obs: seq<Word>)
    requires 0 < |obs| <= NumWords
    ensures forall i :: 0 <= i < NumTags ==>
      TraceOf(mode, obs)[0][i] == ProbVector(i) * EmissionMat(i, WordIndex(obs[0]))
  {
    TracePrefix(mode, obs, 1);
    assert TraceOf(mode, obs)[0] == TraceOf(mode, obs)[..1][0];
  }

  /** Row p > 0 of either trace is the next row computed from row p - 1 and obs[p]. */
  lemma TraceStep(mode: Mode, obs: seq<Word>, p: nat)
    requires 0 < p < |obs| <= NumWords
    ensures TraceOf(mode, obs)[p] == NextRow(mode, TraceOf(mode, obs)[p - 1], p, obs[p])
  {
    var t := TraceOf(mode, obs);
    TracePrefix(mode, obs, p + 1);
    var pre := obs[..p + 1];
    assert pre[..|pre| - 1] == obs[..p];
    TracePrefix(mode, obs, p);
    assert t[p] == t[..p + 1][p];
    assert t[p - 1] == t[..p][p - 1];
  }

  // ---------------------------------------------------------------------
  // The forward combination is a sum over the other tags

  /** The contributions to tag j from every tag k, with the self-transition zeroed. */
  function InflowColumn(prev: seq<real>, j: nat): seq<real>
    requires |prev| == NumTags && j < NumTags
  {
    seq(NumTags, k requires 0 <= k < NumTags => if k == j then 0.0 else Inflow(prev, k, j))
  }

  lemma {:induction false} SumAccPrefix(prev: seq<real>, j: nat, p: nat, n: nat)
    requires |prev| == NumTags && j < NumTags && p < NumWords && n <= NumTags
    ensures SumAcc(prev, j, p, n) == Carry(prev, j, p) + Sum(InflowColumn(prev, j)[..n])
  {
    if n > 0 {
      SumAccPrefix(prev, j, p, n - 1);
      var col := InflowColumn(prev, j);
      assert col[..n][..n - 1] == col[..n - 1];
    }
  }

  /**
   * Entry j of the forward row at position p (built from row prev and the
   * word w observed at p) is (prev[j] * emission[j][p] plus the sum, over
   * every other tag k, of transMat[k][j] * prev[k]) times the emission of w.
   */
  lemma ForwardEntryFormula(prev: seq<real>, p: nat, w: Word, j: nat)
    requires |prev| == NumTags && p < NumWords && j < NumTags
    ensures NextRow(Forward, prev, p, w)[j]
      == (Carry(prev, j, p) + Sum(InflowColumn(prev, j))) * EmissionMat(j, WordIndex(w))
  {
    NextRowAt(Forward, prev, p, w, j);
    SumAccIsCarryPlusInflow(prev, j, p);
  }

  lemma SumAccIsCarryPlusInflow(prev: seq<real>, j: nat, p: nat)
    requires |prev| == NumTags && j < NumTags && p < NumWords
    ensures SumAcc(prev, j, p, NumTags) == Carry(prev, j, p) + Sum(InflowColumn(prev, j))
  {
    SumAccPrefix(prev, j, p, NumTags);
    assert InflowColumn(prev, j)[..NumTags] == InflowColumn(prev, j);
  }

  // ---------------------------------------------------------------------
  // The Viterbi combination is a maximum over the candidates

  /**
   * m is the maximum of the candidate set { prev[j] * emission[j][p] } and
   * { transMat[k][j] * prev[k] | k != j }: an upper bound that is a member.
   */
  ghost predicate IsMaxOfCandidates(prev: seq<real>, j: nat, p: nat, m: real)
    requires |prev| == NumTags && j < NumTags && p < NumWords
  {
    && Carry(prev, j, p) <= m
    && (forall k :: 0 <= k < NumTags && k != j ==> Inflow(prev, k, j) <= m)
    && (m == Carry(prev, j, p) || exists k :: 0 <= k < NumTags && k != j && m == Inflow(prev, k, j))
  }

  lemma {:induction false} MaxAccBounds(prev: seq<real>, j: nat, p: nat, n: nat)
    requires |prev| == NumTags && j < NumTags && p < NumWords && n <= NumTags
    ensures Carry(prev, j, p) <= MaxAcc(prev, j, p, n)
    ensures forall k :: 0 <= k < n && k != j ==> Inflow(prev, k, j) <= MaxAcc(prev, j, p, n)
    ensures MaxAcc(prev, j, p, n) == Carry(prev, j, p)
      || exists k :: 0 <= k < n && k != j && MaxAcc(prev, j, p, n) == Inflow(prev, k, j)
  {
    if n > 0 {
      MaxAccBounds(prev, j, p, n - 1);
    }
  }

  /**
   * Entry j of the Viterbi row at position p (built from row prev and the
   * word w observed at p) is the maximum of the candidates for j, times the
   * emission of w.
   */
  lemma ViterbiEntryIsMax(prev: seq<real>, p: nat, w: Word, j: nat)
    requires |prev| == NumTags && p < NumWords && j < NumTags
    ensures IsMaxOfCandidates(prev, j, p, MaxAcc(prev, j, p, NumTags))
    ensures NextRow(Viterbi, prev, p, w)[j] == MaxAcc(prev, j, p, NumTags) * EmissionMat(j, WordIndex(w))
  {
    NextRowAt(Viterbi, prev, p, w, j);
    MaxAccBounds(prev, j, p, NumTags);
  }

  // ---------------------------------------------------------------------
  // Positivity

  ghost predicate AllPositive(row: seq<real>)
  {
    forall i :: 0 <= i < |row| ==> 0.0 < row[i]
  }

  lemma {:induction false} SumAccPositive(prev: seq<real>, j: nat, p: nat, n: nat)
    requires |prev| == NumTags && j < NumTags && p < NumWords && n <= NumTags
    requires AllPositive(prev)
    ensures 0.0 < SumAcc(prev, j, p, n)
  {
    if n > 0 {
      SumAccPositive(prev, j, p, n - 1);
    }
  }

  lemma NextRowPositive(mode: Mode, prev: seq<real>, p: nat, w: Word)
    requires |prev| == NumTags && p < NumWords
    requires AllPositive(prev)
    ensures AllPositive(NextRow(mode, prev, p, w))
  {
    forall j | 0 <= j < NumTags
      ensures 0.0 < Entry(mode, prev, p, j, w)
    {
      if mode == Forward {
        SumAccPositive(prev, j, p, NumTags);
      } else {
        MaxAccBounds(prev, j, p, NumTags);
      }
    }
  }

  /**
   * Every entry of either trace is strictly positive (so in particular
   * non-negative): the tables are positive and only *, + and max are used.
   */
  lemma {:induction false} TracePositive(mode: Mode, obs: seq<Word>)
    requires 0 < |obs| <= NumWords
    ensures forall p :: 0 <= p < |obs| ==> AllPositive(TraceOf(mode, obs)[p])
    decreases |obs|
  {
    if |obs| > 1 {
      var init := obs[..|obs| - 1];
      TracePositive(mode, init);
      var t := TraceOf(mode, init);
      NextRowPositive(mode, t[|t| - 1], |obs| - 1, obs[|obs| - 1]);
    }
  }

  lemma {:induction false} SumPositive(s: seq<real>)
    requires |s| > 0 && AllPositive(s)
    ensures 0.0 < Sum(s)
  {
    if |s| > 1 {
      SumPositive(s[..|s| - 1]);
    }
  }

  /** An entry of a row of positive reals is at most the row's sum. */
  lemma {:induction false} EntryAtMostSum(s: seq<real>, i: nat)
    requires i < |s| && AllPositive(s)
    ensures s[i] <= Sum(s)
  {
    var init := s[..|s| - 1];
    if i < |s| - 1 {
      EntryAtMostSum(init, i);
    } else if |init| > 0 {
      SumPositive(init);
    }
  }

  /**
   * The sequence probability (the sum of the last forward row) is never
   * zero, so the posterior step after it never divides by zero.
   */
  lemma SequenceProbabilityPositive(obs: seq<Word>)
    requires 0 < |obs| <= NumWords
    ensures 0.0 < Sum(TraceOf(Forward, obs)[|obs| - 1])
  {
    TracePositive(Forward, obs);
    SumPositive(TraceOf(Forward, obs)[|obs| - 1]);
  }
}
