/**
 * The name rendering of hw4.cpp (tags_to_string, words_to_string): each value
 * contributes a space followed by its name, in order. The partner of each
 * renderer is a parser; because no name is a prefix of another, parsing the
 * rendering gives back the original sequence, so the rendering loses nothing.
 */
module Render {
  import opened Hmm

  datatype Option<T> = None | Some(value: T)

  function TagName(t: Tag): string
  {
    match t
    case Conjunction => " Conjunction"
    case Noun => " Noun"
    case Verb => " Verb"
    case Adjective => " Adjective"
  }

  function WordName(w: Word): string
  {
    match w
    case That => " That"
    case Is => " Is"
    case Not => " Not"
    case It => " It"
    case Good => " Good"
  }

  /** The names of xs, concatenated in order; the empty sequence gives "". */
  function Concat<T>(xs: seq<T>, name: T -> string): string
  {
    if xs == [] then "" else name(xs[0]) + Concat(xs[1..], name)
  }

  lemma {:induction false} ConcatAppend<T>(xs: seq<T>, x: T, name: T -> string)
    ensures Concat(xs + [x], name) == Concat(xs, name) + name(x)
  {
    if xs == [] {
      assert [x][1..] == [];
    } else {
      assert (xs + [x])[1..] == xs[1..] + [x];
      ConcatAppend(xs[1..], x, name);
    }
  }

  /** The loop of tags_to_string: appends the name of every tag in turn. */
  method TagsToString(tags: seq<Tag>) returns (ret: string)
    ensures ret == Concat(tags, TagName)
  {
    ret := "";
    for i := 0 to |tags|
      invariant ret == Concat(tags[..i], TagName)
    {
      ConcatAppend(tags[..i], tags[i], TagName);
      assert tags[..i + 1] == tags[..i] + [tags[i]];
      ret := ret + TagName(tags[i]);
    }
    assert tags[..|tags|] == tags;
  }

  /** The loop of words_to_string: appends the name of every word in turn. */
  method WordsToString(words: seq<Word>) returns (ret: string)
    ensures ret == Concat(words, WordName)
  {
    ret := "";
    for i := 0 to |words|
      invariant ret == Concat(words[..i], WordName)
    {
      ConcatAppend(words[..i], words[i], WordName);
      assert words[..i + 1] == words[..i] + [words[i]];
      ret := ret + WordName(words[i]);
    }
    assert words[..|words|] == words;
  }

  // ---------------------------------------------------------------------
  // Parsing a rendering back

  /** Over the values in all, no name is empty and no name is a prefix of a different one. */
  predicate PrefixFree<T(==)>(all: seq<T>, name: T -> string)
  {
    && (forall a :: a in all ==> |name(a)| > 0)
    && (forall a, b :: a in all && b in all && name(a) <= name(b) ==> a == b)
  }

  /** The first value of all whose name starts s, if any. */
  function NameAtStart<T>(all: seq<T>, name: T -> string, s: string): (r: Option<T>)
    ensures r.Some? ==> r.value in all && name(r.value) <= s
  {
    if all == [] then None
    else if name(all[0]) <= s then Some(all[0])
    else NameAtStart(all[1..], name, s)
  }

  /**
   * Splits s into consecutive names of values of all, reading from the left;
   * None when some part of s is not a (non-empty) name.
   */
  function Parse<T>(all: seq<T>, name: T -> string, s: string): Option<seq<T>>
    decreases |s|
  {
    if s == [] then Some([])
    else
      match NameAtStart(all, name, s)
      case None => None
      case Some(x) =>
        if name(x) == [] then None
        else match Parse(all, name, s[|name(x)|..])
        case None => None
        case Some(rest) => Some([x] + rest)
  }

  /** Two prefixes of one string: the shorter is a prefix of the longer. */
  lemma PrefixesAreOrdered(a: string, b: string, s: string)
    requires a <= s && b <= s && |a| <= |b|
    ensures a <= b
  {
    assert a == s[..|a|] == s[..|b|][..|a|] == b[..|a|];
  }

  lemma {:induction false} NameAtStartOfRendering<T>(all: seq<T>, name: T -> string, x: T, rest: string)
    requires PrefixFree(all, name) && x in all
    ensures NameAtStart(all, name, name(x) + rest) == Some(x)
  {
    var s := name(x) + rest;
    assert name(x) <= s;
    if all[0] != x {
      var y := all[0];
      if name(y) <= s {
        if |name(y)| <= |name(x)| {
          PrefixesAreOrdered(name(y), name(x), s);
        } else {
          PrefixesAreOrdered(name(x), name(y), s);
        }
        assert false;
      }
      assert x in all[1..];
      NameAtStartOfRendering(all[1..], name, x, rest);
    }
  }

  /** Parsing the concatenated names of xs gives xs back. */
  lemma {:induction false} ParseConcat<T>(all: seq<T>, name: T -> string, xs: seq<T>)
    requires PrefixFree(all, name)
    requires forall x :: x in xs ==> x in all
    ensures Parse(all, name, Concat(xs, name)) == Some(xs)
    decreases |xs|
  {
    if xs != [] {
      var rest := Concat(xs[1..], name);
      NameAtStartOfRendering(all, name, xs[0], rest);
      assert (name(xs[0]) + rest)[|name(xs[0])|..] == rest;
      ParseConcat(all, name, xs[1..]);
      assert [xs[0]] + xs[1..] == xs;
    }
  }

  const AllTags: seq<Tag> := [Conjunction, Noun, Verb, Adjective]
  const AllWords: seq<Word> := [That, Is, Not, It, Good]

  lemma TagNamesPrefixFree()
    ensures PrefixFree(AllTags, TagName)
  {
    forall a, b | a in AllTags && b in AllTags && TagName(a) <= TagName(b)
      ensures a == b
    {
      assert TagName(a)[1] == TagName(b)[1];
    }
  }

  lemma WordNamesPrefixFree()
    ensures PrefixFree(AllWords, WordName)
  {
    forall a, b | a in AllWords && b in AllWords && WordName(a) <= WordName(b)
      ensures a == b
    {
      assert WordName(a)[1] == WordName(b)[1] && WordName(a)[2] == WordName(b)[2];
    }
  }

  /** tags_to_string loses nothing: its output parses back to the same tags. */
  lemma TagsToStringRoundTrip(tags: seq<Tag>)
    ensures Parse(AllTags, TagName, Concat(tags, TagName)) == Some(tags)
  {
    TagNamesPrefixFree();
    forall t | t in tags
      ensures t in AllTags
    {
      match t
      case Conjunction => assert AllTags[0] == t;
      case Noun => assert AllTags[1] == t;
      case Verb => assert AllTags[2] == t;
      case Adjective => assert AllTags[3] == t;
    }
    ParseConcat(AllTags, TagName, tags);
  }

  /** words_to_string loses nothing: its output parses back to the same words. */
  lemma WordsToStringRoundTrip(words: seq<Word>)
    ensures Parse(AllWords, WordName, Concat(words, WordName)) == Some(words)
  {
    WordNamesPrefixFree();
    forall w | w in words
      ensures w in AllWords
    {
      match w
      case That => assert AllWords[0] == w;
      case Is => assert AllWords[1] == w;
      case Not => assert AllWords[2] == w;
      case It => assert AllWords[3] == w;
      case Good => assert AllWords[4] == w;
    }
    ParseConcat(AllWords, WordName, words);
  }
}
