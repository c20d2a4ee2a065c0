/** The client-side sentiment heuristic (`src/services/nlp/sentimentAnalysis.ts`):
    count the words of the lower-cased text that are exactly one of ten
    negative words, scale the count into a score in [-1, 0], and read the
    urgency off the score. */
module SentimentAnalysis {
  import opened Text

  datatype Urgency = Low | Medium | High

  datatype SentimentResult = SentimentResult(score: real, magnitude: real, urgency: Urgency)

  const NegativeWords: seq<string> :=
    ["issue", "problem", "broken", "terrible", "bad",
     "urgent", "emergency", "dangerous", "unsafe", "critical"]

  /** The number of entries of `words` that are in `vocab`, counted with
      repetition, in list order. */
  function CountIn(words: seq<string>, vocab: seq<string>): (n: nat)
    ensures n <= |words|
    decreases |words|
  {
    if words == [] then 0
    else CountIn(words[..|words| - 1], vocab) + (if words[|words| - 1] in vocab then 1 else 0)
  }

  /** The positions of `words` holding an entry of `vocab`. */
  ghost function PositionsIn(words: seq<string>, vocab: seq<string>): set<nat> {
    set k: nat | k < |words| && words[k] in vocab
  }

  lemma {:induction false} CountInIsPositions(words: seq<string>, vocab: seq<string>)
    ensures CountIn(words, vocab) == |PositionsIn(words, vocab)|
    decreases |words|
  {
    if words != [] {
      var m := |words| - 1;
      CountInIsPositions(words[..m], vocab);
      PositionsSnoc(words, vocab);
    } else {
      assert PositionsIn(words, vocab) == {};
    }
  }

  /** The last position is added to those of the shorter list exactly when it
      holds an entry of `vocab`. */
  lemma PositionsSnoc(words: seq<string>, vocab: seq<string>)
    requires words != []
    ensures var m := |words| - 1;
      |PositionsIn(words, vocab)| == |PositionsIn(words[..m], vocab)| + (if words[m] in vocab then 1 else 0)
  {
    var m := |words| - 1;
    var before := PositionsIn(words[..m], vocab);
    assert m !in before;
    if words[m] in vocab {
      assert PositionsIn(words, vocab) == before + {m};
    } else {
      assert PositionsIn(words, vocab) == before;
    }
  }

  /** The loop's counter over the tokens. */
  function CountNegative(words: seq<string>): nat {
    CountIn(words, NegativeWords)
  }

  /** The loop's counter is the number of positions that hold a negative word. */
  lemma CountNegativeIsPositions(words: seq<string>)
    ensures CountNegative(words) == |set k: nat | k < |words| && words[k] in NegativeWords|
  {
    CountInIsPositions(words, NegativeWords);
    assert PositionsIn(words, NegativeWords) == set k: nat | k < |words| && words[k] in NegativeWords;
  }

  /** `negativeCount` after the loop over `text.toLowerCase().split(/\s+/)`. */
  function NegativeHits(text: string): nat {
    CountNegative(Split(Lower(text)))
  }

  function Max(a: real, b: real): real { if a < b then b else a }

  function Min(a: real, b: real): real { if a < b then a else b }

  function Abs(a: real): real { if a < 0.0 then -a else a }

  /** `analyzeSentiment(text)` on its normal path. */
  function AnalyzeSentiment(text: string): (r: SentimentResult)
    ensures -1.0 <= r.score <= 0.0
    ensures NegativeHits(text) < 10 ==> r.score * 10.0 == -(NegativeHits(text) as real)
    ensures r.score == -1.0 <==> NegativeHits(text) >= 10
    ensures r.magnitude == -2.0 * r.score
    ensures r.urgency == High <==> NegativeHits(text) >= 6
    ensures r.urgency == Medium <==> 1 <= NegativeHits(text) <= 5
    ensures r.urgency == Low <==> NegativeHits(text) == 0
  {
    var n := NegativeHits(text);
    var score := Max(-1.0, Min(1.0, -(n as real / 10.0)));
    var magnitude := Abs(score) * 2.0;
    var urgency := if score < -0.5 then High else if score < 0.0 then Medium else Low;
    SentimentResult(score, magnitude, urgency)
  }

  /** What the `catch` branch returns. */
  const SentimentFallback := SentimentResult(0.0, 0.0, Low)

  function UrgencyRank(u: Urgency): nat {
    match u
    case Low => 0
    case Medium => 1
    case High => 2
  }

  // ---------------------------------------------------------------------------
  // Appending a word
  // ---------------------------------------------------------------------------

  lemma CountNegativeSnoc(ps: seq<string>, w: string)
    ensures CountNegative(ps + [w]) == CountNegative(ps) + (if w in NegativeWords then 1 else 0)
  {
    assert (ps + [w])[..|ps|] == ps;
  }

  lemma CountNegativeDropEmptyLast(ps: seq<string>)
    ensures CountNegative(DropEmptyLast(ps)) == CountNegative(ps)
  {
    assert [] !in NegativeWords;
  }

  /** Writing one more word after a blank adds one hit exactly when the word,
      lower-cased, is a negative word; what was written before is unaffected. */
  lemma AppendWordHits(text: string, w: string)
    requires |w| > 0 && NoWhitespace(w)
    ensures NegativeHits(text + " " + w) == NegativeHits(text) + (if Lower(w) in NegativeWords then 1 else 0)
  {
    LowerAppendWord(text, w);
    var lw := Lower(w);
    assert NoWhitespace(lw) by {
      forall k | 0 <= k < |lw| ensures !IsWhitespace(lw[k]) {
        assert !IsWhitespace(w[k]);
      }
    }
    SplitAppendWord(Lower(text), lw);
    CountNegativeSnoc(DropEmptyLast(Split(Lower(text))), lw);
    CountNegativeDropEmptyLast(Split(Lower(text)));
  }

  /** More text never lowers the urgency. */
  lemma AppendWordUrgencyMonotone(text: string, w: string)
    requires |w| > 0 && NoWhitespace(w)
    ensures UrgencyRank(AnalyzeSentiment(text).urgency) <= UrgencyRank(AnalyzeSentiment(text + " " + w).urgency)
    ensures AnalyzeSentiment(text + " " + w).score <= AnalyzeSentiment(text).score
  {
    AppendWordHits(text, w);
  }

  /** Words are compared whole: trailing punctuation keeps a negative word from counting. */
  lemma PunctuationDefeatsMatch()
    ensures NegativeHits("Broken") == 1
    ensures NegativeHits("broken.") == 0
  {
    BrokenCounts();
    PunctuatedBrokenDoesNot();
  }

  lemma BrokenCounts()
    ensures NegativeHits("Broken") == 1
  {
    assert Lower("Broken") == "broken" by {
      assert LowerChar('B') == 'b';
    }
    SplitNoWhitespace("broken");
    assert "broken" in NegativeWords;
    assert CountNegative(["broken"]) == CountNegative([]) + 1;
  }

  lemma PunctuatedBrokenDoesNot()
    ensures NegativeHits("broken.") == 0
  {
    assert Lower("broken.") == "broken.";
    SplitNoWhitespace("broken.");
    assert "broken." !in NegativeWords;
    assert CountNegative(["broken."]) == CountNegative([]);
  }
}
