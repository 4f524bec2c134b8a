/**
 * The one input main runs, the words Not, That, Good: the exact scores of
 * its Viterbi trace and the tags the decoder reads from them.
 */
module Demo {
  import opened Hmm
  import opened Recurrence
  import opened Evaluator

  const NotThatGood: seq<Word> := [Not, That, Good]

  /** Row by row, the Viterbi trace of Not, That, Good over exact reals. */
  lemma DemoViterbiTrace()
    ensures TraceOf(Viterbi, NotThatGood) == [
      [1.0 / 49.0, 2.0 / 33.0, 6.0 / 91.0, 1.0 / 63.0],
      [2.0 / 693.0, 48.0 / 5005.0, 12.0 / 2197.0, 2.0 / 891.0],
      [16.0 / 105105.0, 24.0 / 120835.0, 64.0 / 195195.0, 32.0 / 45045.0]]
  {
    var t := TraceOf(Viterbi, NotThatGood);
    TraceRowZero(Viterbi, NotThatGood);
    assert t[0] == [1.0 / 49.0, 2.0 / 33.0, 6.0 / 91.0, 1.0 / 63.0];
    TraceStep(Viterbi, NotThatGood, 1);
    MaxAccBounds(t[0], 0, 1, NumTags);
    assert Inflow(t[0], 1, 0) == 2.0 / 297.0;
    assert MaxAcc(t[0], 0, 1, NumTags) == 2.0 / 297.0;
    MaxAccBounds(t[0], 1, 1, NumTags);
    assert MaxAcc(t[0], 1, 1, NumTags) == 12.0 / 455.0;
    MaxAccBounds(t[0], 2, 1, NumTags);
    assert MaxAcc(t[0], 2, 1, NumTags) == 6.0 / 169.0;
    MaxAccBounds(t[0], 3, 1, NumTags);
    assert Inflow(t[0], 1, 3) == 4.0 / 297.0;
    assert MaxAcc(t[0], 3, 1, NumTags) == 4.0 / 297.0;
    assert t[1] == [2.0 / 693.0, 48.0 / 5005.0, 12.0 / 2197.0, 2.0 / 891.0];
    TraceStep(Viterbi, NotThatGood, 2);
    MaxAccBounds(t[1], 0, 2, NumTags);
    assert Inflow(t[1], 1, 0) == 16.0 / 15015.0;
    assert MaxAcc(t[1], 0, 2, NumTags) == 16.0 / 15015.0;
    MaxAccBounds(t[1], 1, 2, NumTags);
    assert MaxAcc(t[1], 1, 2, NumTags) == 24.0 / 10985.0;
    MaxAccBounds(t[1], 2, 2, NumTags);
    assert Inflow(t[1], 1, 2) == 64.0 / 15015.0;
    assert MaxAcc(t[1], 2, 2, NumTags) == 64.0 / 15015.0;
    MaxAccBounds(t[1], 3, 2, NumTags);
    assert Inflow(t[1], 1, 3) == 32.0 / 15015.0;
    assert MaxAcc(t[1], 3, 2, NumTags) == 32.0 / 15015.0;
    assert t[2] == [16.0 / 105105.0, 24.0 / 120835.0, 64.0 / 195195.0, 32.0 / 45045.0];
  }

  /** The decoder reads Verb, Noun, Adjective from that trace. */
  lemma DemoMostLikelyTags()
    ensures var t := TraceOf(Viterbi, NotThatGood);
      && IsFirstMax(t[0], TagIndex(Verb))
      && IsFirstMax(t[1], TagIndex(Noun))
      && IsFirstMax(t[2], TagIndex(Adjective))
  {
    DemoViterbiTrace();
  }

  /**
   * The tags main prints: any three tags that are the first argmax of the
   * rows of that trace are exactly Verb, Noun, Adjective.
   */
  lemma DemoDecodedTags(tags: seq<Tag>)
    requires |tags| == |NotThatGood|
    requires forall i :: 0 <= i < |tags| ==>
      IsFirstMax(TraceOf(Viterbi, NotThatGood)[i], TagIndex(tags[i]))
    ensures tags == [Verb, Noun, Adjective]
  {
    var t := TraceOf(Viterbi, NotThatGood);
    DemoMostLikelyTags();
    FirstMaxUnique(t[0], TagIndex(tags[0]), TagIndex(Verb));
    FirstMaxUnique(t[1], TagIndex(tags[1]), TagIndex(Noun));
    FirstMaxUnique(t[2], TagIndex(tags[2]), TagIndex(Adjective));
  }
}
