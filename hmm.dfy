/**
 * The fixed Hidden Markov Model of hw4.cpp: four hidden tags, five observable
 * words, and the three constant tables (initial distribution, transitions
 * between tags, emission of words by tags). Probabilities are exact reals.
 */
module Hmm {

  /** Hidden states, numbered 0..3 as in the source's enum. */
  datatype Tag = Conjunction | Noun | Verb | Adjective

  /** Observable symbols, numbered 0..4 as in the source's enum. */
  datatype Word = That | Is | Not | It | Good

  const NumTags: nat := 4
  const NumWords: nat := 5

  function TagIndex(t: Tag): (i: nat)
    ensures i < NumTags
  {
    match t
    case Conjunction => 0
    case Noun => 1
    case Verb => 2
    case Adjective => 3
  }

  /** The enum value with number i (the source's static_cast<Tag>). */
  function TagAt(i: nat): (t: Tag)
    requires i < NumTags
    ensures TagIndex(t) == i
  {
    if i == 0 then Conjunction
    else if i == 1 then Noun
    else if i == 2 then Verb
    else Adjective
  }

  function WordIndex(w: Word): (c: nat)
    ensures c < NumWords
  {
    match w
    case That => 0
    case Is => 1
    case Not => 2
    case It => 3
    case Good => 4
  }

  /** probVector[i]: probability that a sequence starts in tag i. */
  function ProbVector(i: nat): (p: real)
    requires i < NumTags
    ensures 0.0 < p < 1.0
  {
    if i == 0 then 1.0 / 7.0
    else if i == 1 then 1.0 / 3.0
    else if i == 2 then 3.0 / 7.0
    else 2.0 / 21.0
  }

  /** transMat[k][j]: weight of moving from tag k to tag j. */
  function TransMat(k: nat, j: nat): (p: real)
    requires k < NumTags && j < NumTags
    ensures 0.0 < p < 1.0
  {
    if k == 0 then
      (if j == 1 then 1.0 / 2.0 else 1.0 / 6.0)
    else if k == 1 then
      (if j == 0 then 1.0 / 9.0 else if j == 2 then 4.0 / 9.0 else 2.0 / 9.0)
    else if k == 2 then
      (if j == 0 || j == 3 then 1.0 / 10.0 else 4.0 / 10.0)
    else 1.0 / 4.0
  }

  /**
   * emissionMat[j][c]: probability that tag j emits word number c. The column
   * is a plain number because the recurrences also index it by a position.
   */
  function EmissionMat(j: nat, c: nat): (p: real)
    requires j < NumTags && c < NumWords
    ensures 0.0 < p < 1.0
  {
    if j == 0 then
      (if c == 0 then 3.0 / 7.0 else 1.0 / 7.0)
    else if j == 1 then
      (if c == 0 then 4.0 / 11.0 else if c == 2 then 2.0 / 11.0
       else if c == 3 then 3.0 / 11.0 else 1.0 / 11.0)
    else if j == 2 then
      (if c == 0 || c == 2 then 2.0 / 13.0 else if c == 1 then 7.0 / 13.0 else 1.0 / 13.0)
    else
      (if c == 4 then 2.0 / 6.0 else 1.0 / 6.0)
  }

  /** Over exact reals, the initial vector and every table row sum to one. */
  lemma TablesAreStochastic()
    ensures ProbVector(0) + ProbVector(1) + ProbVector(2) + ProbVector(3) == 1.0
    ensures forall k :: 0 <= k < NumTags ==>
      TransMat(k, 0) + TransMat(k, 1) + TransMat(k, 2) + TransMat(k, 3) == 1.0
    ensures forall j :: 0 <= j < NumTags ==>
      EmissionMat(j, 0) + EmissionMat(j, 1) + EmissionMat(j, 2) + EmissionMat(j, 3) + EmissionMat(j, 4) == 1.0
  {
  }
}
