/** Keyword relevance used by queryContext in both memory services: the query is
    lower-cased and split on runs of white space, and a memory scores one point per
    non-empty term, repeated terms counted again, that occurs in its lower-cased
    content. */
module Scoring {
  import opened Wrappers
  import opened Text
  import opened Seqs

  /** query.toLowerCase().split("\\s+") */
  function Terms(query: string): seq<string> {
    Split(ToLower(query))
  }

  /** A term scores against lower-cased content when it is non-empty and occurs in it. */
  predicate Matches(lower: string, term: string) {
    term != [] && Contains(lower, term)
  }

  function Matcher(lower: string): string -> bool {
    t => Matches(lower, t)
  }

  /** The score of a memory's content: the number of query terms, counted with
      multiplicity, that score against it; no content scores nothing. */
  function ScoreOf(content: Option<string>, terms: seq<string>): nat {
    match content
    case None => 0
    case Some(c) => |Filter(terms, Matcher(ToLower(c)))|
  }

  /** The counting loop of score. */
  method Score(content: Option<string>, terms: seq<string>) returns (score: nat)
    ensures score == ScoreOf(content, terms)
  {
    if content.None? {
      return 0;
    }
    var lower := ToLower(content.value);
    score := 0;
    for i := 0 to |terms|
      invariant score == |Filter(terms[..i], Matcher(lower))|
    {
      assert terms[..i + 1] == terms[..i] + [terms[i]];
      FilterSnoc(terms[..i], terms[i], Matcher(lower));
      if terms[i] != [] && Contains(lower, terms[i]) {
        score := score + 1;
      }
    }
    assert terms[..|terms|] == terms;
  }

  /** A score never exceeds the number of terms, and null content scores 0. */
  lemma ScoreBounds(content: Option<string>, terms: seq<string>)
    ensures 0 <= ScoreOf(content, terms) <= |terms|
    ensures content.None? ==> ScoreOf(content, terms) == 0
  {
  }

  /** Scores add up over the parts of the term list: a term given twice counts twice. */
  lemma ScoreConcat(content: Option<string>, a: seq<string>, b: seq<string>)
    ensures ScoreOf(content, a + b) == ScoreOf(content, a) + ScoreOf(content, b)
  {
    if content.Some? {
      FilterConcat(a, b, Matcher(ToLower(content.value)));
    }
  }

  /** Repeating the query doubles every score. */
  lemma ScoreRepeated(content: Option<string>, terms: seq<string>)
    ensures ScoreOf(content, terms + terms) == 2 * ScoreOf(content, terms)
  {
    ScoreConcat(content, terms, terms);
  }

  /** The empty leading term that split yields for a query starting with white
      space scores nothing. */
  lemma EmptyTermIgnored(content: Option<string>, terms: seq<string>)
    ensures ScoreOf(content, [[]] + terms) == ScoreOf(content, terms)
  {
    ScoreConcat(content, [[]], terms);
  }

  /** Full marks exactly when every term is non-empty and occurs in the lower-cased content. */
  lemma FullScore(c: string, terms: seq<string>)
    ensures ScoreOf(Some(c), terms) == |terms| <==>
      forall i :: 0 <= i < |terms| ==> terms[i] != [] && Contains(ToLower(c), terms[i])
  {
    FilterKeepsAll(terms, Matcher(ToLower(c)));
  }
}
