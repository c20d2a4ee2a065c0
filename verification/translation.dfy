/**
 * Language detection by Unicode block and the phrase-table translator
 * (src/services/nlp/translationService.ts).
 */
module TranslationService {
  import opened Wrappers
  import opened Text

  datatype Language = En | Hi | Ta

  datatype LanguageDetection = LanguageDetection(detectedLanguage: Language, confidence: real)

  datatype TranslationResult = TranslationResult(
    originalText: string,
    translatedText: string,
    sourceLanguage: Language,
    targetLanguage: Language)

  predicate IsDevanagari(c: char) { '\U{0900}' <= c <= '\U{097F}' }

  predicate IsTamil(c: char) { '\U{0B80}' <= c <= '\U{0BFF}' }

  /** `/[lo-hi]/.test(s)`: does some character of `s` lie in the range? */
  function HasCharIn(s: string, lo: char, hi: char): (b: bool)
    ensures b <==> exists k :: 0 <= k < |s| && lo <= s[k] <= hi
    decreases |s|
  {
    if s == [] then false
    else if lo <= s[|s| - 1] <= hi then true
    else HasCharIn(s[..|s| - 1], lo, hi)
  }

  /** Devanagari is checked before Tamil, and English is what remains. */
  function DetectLanguage(text: string): (r: LanguageDetection)
    ensures (exists k :: 0 <= k < |text| && IsDevanagari(text[k])) ==>
      r == LanguageDetection(Hi, 0.9)
    ensures ((forall k :: 0 <= k < |text| ==> !IsDevanagari(text[k]))
             && (exists k :: 0 <= k < |text| && IsTamil(text[k]))) ==>
      r == LanguageDetection(Ta, 0.9)
    ensures (forall k :: 0 <= k < |text| ==> !IsDevanagari(text[k]) && !IsTamil(text[k])) ==>
      r == LanguageDetection(En, 0.8)
  {
    if HasCharIn(text, '\U{0900}', '\U{097F}') then LanguageDetection(Hi, 0.9)
    else if HasCharIn(text, '\U{0B80}', '\U{0BFF}') then LanguageDetection(Ta, 0.9)
    else LanguageDetection(En, 0.8)
  }

  /** The result of the `catch` branch of `detectLanguage`. */
  const DetectionFallback := LanguageDetection(En, 0.5)

  /** One entry of the phrase table: the English key and its variants. */
  datatype Phrase = Phrase(en: string, hi: string, ta: string)

  function Variant(ph: Phrase, l: Language): string {
    match l
    case En => ph.en
    case Hi => ph.hi
    case Ta => ph.ta
  }

  const Phrases: seq<Phrase> := [
    Phrase("water problem", "पानी की समस्या", "தண்ணீர் பிரச்சனை"),
    Phrase("electricity issue", "बिजली की समस्या", "மின்சார பிரச்சனை"),
    Phrase("road maintenance", "सड़क रखरखाव", "சாலை பராமரிப்பு")
  ]

  /** The body of the `forEach` over the phrase table for one entry: `text`
      is the input (searched), `current` the text translated so far (rewritten). */
  function ApplyPhrase(text: string, current: string, source: Language, target: Language, ph: Phrase): string
    requires |ph.en| > 0
  {
    if source == En && Contains(Lower(text), ph.en) then
      ReplaceAllCI(current, ph.en, Variant(ph, target))
    else if source != En then
      if Contains(text, Variant(ph, source)) then
        ReplaceFirst(current, Variant(ph, source), if target == En then ph.en else Variant(ph, target))
      else current
    else current
  }

  function ApplyPhrases(text: string, current: string, source: Language, target: Language, phs: seq<Phrase>): string
    requires forall k :: 0 <= k < |phs| ==> |phs[k].en| > 0
    decreases |phs|
  {
    if phs == [] then current
    else ApplyPhrases(text, ApplyPhrase(text, current, source, target, phs[0]), source, target, phs[1..])
  }

  /** `translateText(text, targetLanguage, sourceLanguage?)`. */
  function TranslateText(text: string, target: Language, source: Option<Language>): (r: TranslationResult)
    ensures r.originalText == text && r.targetLanguage == target
    ensures source.Some? ==> r.sourceLanguage == source.value
    ensures source.None? ==> r.sourceLanguage == DetectLanguage(text).detectedLanguage
    ensures r.sourceLanguage == target ==> r.translatedText == text
  {
    var src := if source.Some? then source.value else DetectLanguage(text).detectedLanguage;
    if src == target then TranslationResult(text, text, src, target)
    else TranslationResult(text, ApplyPhrases(text, text, src, target, Phrases), src, target)
  }

  /** The result of the `catch` branch of `translateText`. */
  function TranslationFallback(text: string, target: Language, source: Option<Language>): (r: TranslationResult)
    ensures r.translatedText == r.originalText == text
  {
    TranslationResult(text, text, if source.Some? then source.value else En, target)
  }

  // ---------------------------------------------------------------------------
  // Properties of the phrase substitution
  // ---------------------------------------------------------------------------

  predicate NoAsciiLetter(s: string) {
    forall k :: 0 <= k < |s| ==> !IsAsciiLetter(s[k])
  }

  predicate LowerAsciiPhrase(s: string) {
    forall k :: 0 <= k < |s| ==> 'a' <= s[k] <= 'z' || s[k] == ' '
  }

  lemma LowerAsciiPhraseMeans(s: string)
    requires LowerAsciiPhrase(s)
    ensures Lower(s) == s
    ensures forall i :: 0 <= i < |s| ==> IsAscii(s[i])
  {
  }

  predicate KeyShape(e: string) {
    && |e| > 0 && IsAsciiLetter(e[0]) && Lower(e) == e
    && (forall i :: 0 <= i < |e| ==> IsAscii(e[i]))
  }

  predicate VariantShape(v: string) {
    |v| > 0 && !IsAscii(v[0]) && NoAsciiLetter(v)
  }

  lemma PhraseShape(ph: Phrase)
    requires |ph.en| > 0 && IsAsciiLetter(ph.en[0]) && LowerAsciiPhrase(ph.en)
    requires VariantShape(ph.hi) && VariantShape(ph.ta)
    ensures KeyShape(ph.en) && VariantShape(ph.hi) && VariantShape(ph.ta)
  {
    LowerAsciiPhraseMeans(ph.en);
  }

  /** The table facts the substitution relies on: English keys are non-empty
      lower-case ASCII starting with a letter; Hindi and Tamil variants begin
      with a non-ASCII character and hold no ASCII letter. */
  lemma PhraseTableShape()
    ensures forall k :: 0 <= k < |Phrases| ==>
      KeyShape(Phrases[k].en) && VariantShape(Phrases[k].hi) && VariantShape(Phrases[k].ta)
  {
    EntryShape(0);
    EntryShape(1);
    EntryShape(2);
  }

  lemma EntryShape(k: nat)
    requires k < |Phrases|
    ensures KeyShape(Phrases[k].en) && VariantShape(Phrases[k].hi) && VariantShape(Phrases[k].ta)
  {
    var ph := Phrases[k];
    KeyIsLowerAscii(k);
    HindiShape(k);
    TamilShape(k);
    PhraseShape(ph);
  }

  lemma KeyIsLowerAscii(k: nat)
    requires k < |Phrases|
    ensures LowerAsciiPhrase(Phrases[k].en)
  {
    if k == 0 {
      assert LowerAsciiPhrase(Phrases[0].en);
    } else if k == 1 {
      assert LowerAsciiPhrase(Phrases[1].en);
    } else {
      assert LowerAsciiPhrase(Phrases[2].en);
    }
  }

  lemma HindiShape(k: nat)
    requires k < |Phrases|
    ensures VariantShape(Phrases[k].hi)
  {
    if k == 0 {
      assert VariantShape(Phrases[0].hi);
    } else if k == 1 {
      assert VariantShape(Phrases[1].hi);
    } else {
      assert VariantShape(Phrases[2].hi);
    }
  }

  lemma TamilShape(k: nat)
    requires k < |Phrases|
    ensures VariantShape(Phrases[k].ta)
  {
    if k == 0 {
      assert VariantShape(Phrases[0].ta);
    } else if k == 1 {
      assert VariantShape(Phrases[1].ta);
    } else {
      assert VariantShape(Phrases[2].ta);
    }
  }

  /** No Hindi or Tamil variant can take part in a match of an English key. */
  lemma VariantsInsulate(target: Language)
    requires target != En
    ensures forall k, m :: 0 <= k < |Phrases| && 0 <= m < |Phrases| ==>
      Insulates(Variant(Phrases[k], target), Phrases[m].en)
  {
    PhraseTableShape();
    forall k, m | 0 <= k < |Phrases| && 0 <= m < |Phrases|
      ensures Insulates(Variant(Phrases[k], target), Phrases[m].en)
    {
      var r, q := Variant(Phrases[k], target), Phrases[m].en;
      assert IsAsciiLetter(q[0]);
      forall i | 0 <= i < |r| ensures LowerChar(r[i]) != LowerChar(q[0]) {
        assert !IsAsciiLetter(r[i]);
      }
    }
  }

  /** What holds of the text translated so far while the entries `todo` are
      still to be applied: an English key occurs in it only if it occurred in
      the input and its entry is still to come. */
  ghost predicate EnglishInvariant(text: string, current: string, todo: seq<Phrase>) {
    forall k :: 0 <= k < |Phrases| && ContainsCI(current, Phrases[k].en) ==>
      ContainsCI(text, Phrases[k].en) && Phrases[k] in todo
  }

  /** Applying the next entry removes its key and brings in no other. */
  lemma ApplyPhraseEnglish(text: string, current: string, target: Language, todo: seq<Phrase>)
    requires target != En
    requires todo != [] && todo[0] in Phrases && |todo[0].en| > 0
    requires EnglishInvariant(text, current, todo)
    ensures EnglishInvariant(text, ApplyPhrase(text, current, En, target, todo[0]), todo[1..])
  {
    PhraseTableShape();
    VariantsInsulate(target);
    var ph := todo[0];
    var rep := Variant(ph, target);
    var next := ApplyPhrase(text, current, En, target, ph);
    ContainsLowerIsContainsCI(text, ph.en);
    assert todo == [ph] + todo[1..];
    if ContainsCI(text, ph.en) {
      assert next == ReplaceAllCI(current, ph.en, rep);
      ReplaceAllCIRemoves(current, ph.en, rep);
      forall m | 0 <= m < |Phrases| && ContainsCI(next, Phrases[m].en)
        ensures ContainsCI(current, Phrases[m].en)
      {
        if !ContainsCI(current, Phrases[m].en) {
          ReplaceAllCIPreservesAbsence(current, ph.en, rep, Phrases[m].en);
        }
      }
    } else {
      assert next == current;
    }
  }

  lemma {:induction false} ApplyPhrasesEnglish(text: string, current: string, target: Language, todo: seq<Phrase>)
    requires target != En
    requires forall k :: 0 <= k < |todo| ==> todo[k] in Phrases && |todo[k].en| > 0
    requires EnglishInvariant(text, current, todo)
    ensures EnglishInvariant(text, ApplyPhrases(text, current, En, target, todo), [])
    decreases |todo|
  {
    if todo != [] {
      ApplyPhraseEnglish(text, current, target, todo);
      ApplyPhrasesEnglish(text, ApplyPhrase(text, current, En, target, todo[0]), target, todo[1..]);
    }
  }

  /** Translating English text replaces every occurrence of every table key,
      in any letter case: none is left in the result. */
  lemma EnglishTranslationRemovesKeys(text: string, target: Language)
    requires target != En
    ensures forall k :: 0 <= k < |Phrases| ==>
      !ContainsCI(TranslateText(text, target, Some(En)).translatedText, Phrases[k].en)
  {
    PhraseTableShape();
    ApplyPhrasesEnglish(text, text, target, Phrases);
  }

  /** Whether the entry's test in the `forEach` body succeeds on the input. */
  predicate Fires(text: string, source: Language, ph: Phrase) {
    if source == En then Contains(Lower(text), ph.en) else Contains(text, Variant(ph, source))
  }

  /** Text that contains no table phrase in the source language comes back unchanged. */
  lemma {:induction false} NoPhraseNoChange(text: string, target: Language, source: Language)
    requires source == En ==> forall k :: 0 <= k < |Phrases| ==> !ContainsCI(text, Phrases[k].en)
    requires source != En ==> forall k :: 0 <= k < |Phrases| ==> !Contains(text, Variant(Phrases[k], source))
    ensures TranslateText(text, target, Some(source)).translatedText == text
  {
    PhraseTableShape();
    if source != target {
      forall k | 0 <= k < |Phrases| ensures !Fires(text, source, Phrases[k]) {
        ContainsLowerIsContainsCI(text, Phrases[k].en);
      }
      SilentEntriesKeep(text, text, source, target, Phrases);
    }
  }

  /** Entries whose test fails on the input leave the running text as it is. */
  lemma {:induction false} SilentEntriesKeep(text: string, current: string, source: Language, target: Language, phs: seq<Phrase>)
    requires forall k :: 0 <= k < |phs| ==> |phs[k].en| > 0 && !Fires(text, source, phs[k])
    ensures ApplyPhrases(text, current, source, target, phs) == current
    decreases |phs|
  {
    if phs != [] {
      assert ApplyPhrase(text, current, source, target, phs[0]) == current;
      SilentEntriesKeep(text, current, source, target, phs[1..]);
    }
  }

  /** The table walk over `xs + ys` is the walk over `xs` followed by the walk over `ys`. */
  lemma {:induction false} ApplyPhrasesAppend(text: string, current: string, source: Language, target: Language,
                                               xs: seq<Phrase>, ys: seq<Phrase>)
    requires forall k :: 0 <= k < |xs| ==> |xs[k].en| > 0
    requires forall k :: 0 <= k < |ys| ==> |ys[k].en| > 0
    ensures ApplyPhrases(text, current, source, target, xs + ys)
         == ApplyPhrases(text, ApplyPhrases(text, current, source, target, xs), source, target, ys)
    decreases |xs|
  {
    if xs == [] {
      assert xs + ys == ys;
    } else {
      assert (xs + ys)[0] == xs[0];
      assert (xs + ys)[1..] == xs[1..] + ys;
      ApplyPhrasesAppend(text, ApplyPhrase(text, current, source, target, xs[0]), source, target, xs[1..], ys);
    }
  }

  /** When only entry `k` fires on the input, the walk is that one entry's step. */
  lemma OnlyEntryApplies(text: string, current: string, source: Language, target: Language, phs: seq<Phrase>, k: nat)
    requires k < |phs| && forall m :: 0 <= m < |phs| ==> |phs[m].en| > 0
    requires forall m :: 0 <= m < |phs| && m != k ==> !Fires(text, source, phs[m])
    ensures ApplyPhrases(text, current, source, target, phs) == ApplyPhrase(text, current, source, target, phs[k])
  {
    var before, here, after := phs[..k], phs[k], phs[k + 1..];
    assert phs == before + ([here] + after);
    ApplyPhrasesAppend(text, current, source, target, before, [here] + after);
    SilentEntriesKeep(text, current, source, target, before);
    var next := ApplyPhrase(text, current, source, target, here);
    assert ApplyPhrases(text, current, source, target, [here] + after) == ApplyPhrases(text, next, source, target, after);
    SilentEntriesKeep(text, next, source, target, after);
  }

  /** Global replacement changes nothing when the pattern does not occur. */
  lemma ReplaceAllCINoMatch(s: string, p: string, r: string)
    requires |p| > 0 && !ContainsCI(s, p)
    ensures ReplaceAllCI(s, p, r) == s
  {
    NoMatchAnywhere(s, p);
  }

  /** English text holding one table key once, in any letter case, and no
      other key: the translation puts that key's variant in its place and
      keeps everything around it. */
  lemma EnglishPhraseTranslated(a: string, p: string, b: string, k: nat, target: Language)
    requires target != En && k < |Phrases|
    requires |p| == |Phrases[k].en| && MatchCI(a + p + b, Phrases[k].en, |a|)
    requires forall m, j :: 0 <= m < |Phrases| && MatchCI(a + p + b, Phrases[m].en, j) ==> m == k && j == |a|
    ensures TranslateText(a + p + b, target, Some(En)).translatedText == a + Variant(Phrases[k], target) + b
  {
    var s := a + p + b;
    PhraseTableShape();
    forall m | 0 <= m < |Phrases| && m != k ensures !Fires(s, En, Phrases[m]) {
      ContainsLowerIsContainsCI(s, Phrases[m].en);
    }
    OnlyEntryApplies(s, s, En, target, Phrases, k);
    EnglishEntryStep(a, p, b, Phrases[k], target);
  }

  /** The step of an entry whose key occurs once, in any letter case. */
  lemma EnglishEntryStep(a: string, p: string, b: string, ph: Phrase, target: Language)
    requires |ph.en| > 0 && Lower(ph.en) == ph.en
    requires |p| == |ph.en| && MatchCI(a + p + b, ph.en, |a|)
    requires forall j :: MatchCI(a + p + b, ph.en, j) ==> j == |a|
    ensures ApplyPhrase(a + p + b, a + p + b, En, target, ph) == a + Variant(ph, target) + b
  {
    var s, key, v := a + p + b, ph.en, Variant(ph, target);
    ContainsLowerIsContainsCI(s, key);
    assert ApplyPhrase(s, s, En, target, ph) == ReplaceAllCI(s, key, v);
    ReplaceAllCIAt(s, key, v);
    assert FindCIFrom(s, key, 0).value == |a|;
    assert s[..|a|] == a && s[|a| + |key|..] == b;
    forall j | MatchCI(b, key, j) ensures false {
      MatchInSuffix(s, |a| + |key|, key, j);
    }
    ReplaceAllCINoMatch(b, key, v);
  }

  /** Hindi or Tamil text holding one table phrase of its language and no
      other: the translation rewrites the leftmost occurrence of that phrase
      and keeps everything else, later occurrences included. */
  lemma FirstVariantTranslated(a: string, b: string, k: nat, source: Language, target: Language)
    requires source != En && source != target && k < |Phrases|
    requires forall j :: 0 <= j < |a| ==> !OccursAt(a + Variant(Phrases[k], source) + b, Variant(Phrases[k], source), j)
    requires forall m :: 0 <= m < |Phrases| && m != k ==>
      !Contains(a + Variant(Phrases[k], source) + b, Variant(Phrases[m], source))
    ensures TranslateText(a + Variant(Phrases[k], source) + b, target, Some(source)).translatedText
         == a + (if target == En then Phrases[k].en else Variant(Phrases[k], target)) + b
  {
    var s := a + Variant(Phrases[k], source) + b;
    PhraseTableShape();
    OnlyEntryApplies(s, s, source, target, Phrases, k);
    VariantEntryStep(a, b, Phrases[k], source, target);
  }

  /** The step of an entry whose variant first occurs right after `a`. */
  lemma VariantEntryStep(a: string, b: string, ph: Phrase, source: Language, target: Language)
    requires source != En && |ph.en| > 0
    requires forall j :: 0 <= j < |a| ==> !OccursAt(a + Variant(ph, source) + b, Variant(ph, source), j)
    ensures ApplyPhrase(a + Variant(ph, source) + b, a + Variant(ph, source) + b, source, target, ph)
         == a + (if target == En then ph.en else Variant(ph, target)) + b
  {
    var v := Variant(ph, source);
    var s, r := a + v + b, if target == En then ph.en else Variant(ph, target);
    assert s[|a|..|a| + |v|] == v;
    assert OccursAt(s, v, |a|);
    assert Find(s, v) == Some(|a|);
    assert s[..|a|] == a && s[|a| + |v|..] == b;
    assert ApplyPhrase(s, s, source, target, ph) == ReplaceFirst(s, v, r);
  }

  lemma MissingCharNotContained(s: string, p: string, c: char)
    requires c in p
    requires forall k :: 0 <= k < |s| ==> s[k] != c
    ensures !Contains(s, p)
  {
    var j :| 0 <= j < |p| && p[j] == c;
    forall i | 0 <= i <= |s| - |p|
      ensures !OccursAt(s, p, i)
    {
      assert s[i..i + |p|][j] != c;
    }
  }

  const HindiTwice: string := "पानी की समस्या, पानी की समस्या"

  lemma HindiTwiceLacks()
    ensures forall k :: 0 <= k < |HindiTwice| ==> HindiTwice[k] != 'ब' && HindiTwice[k] != 'ख'
  {
  }

  lemma HindiTwiceSplit()
    ensures |Phrases[0].hi| <= |HindiTwice|
    ensures HindiTwice[..|Phrases[0].hi|] == Phrases[0].hi
    ensures HindiTwice[|Phrases[0].hi|..] == ", " + Phrases[0].hi
  {
  }

  lemma HindiTwiceFirstEntry()
    ensures ApplyPhrase(HindiTwice, HindiTwice, Hi, En, Phrases[0]) == Phrases[0].en + ", " + Phrases[0].hi
  {
    var p := Phrases[0].hi;
    HindiTwiceSplit();
    assert OccursAt(HindiTwice, p, 0);
    ReplaceFirstAtStart(HindiTwice, p, Phrases[0].en);
  }

  lemma HindiTwiceOtherEntries(current: string)
    ensures ApplyPhrase(HindiTwice, current, Hi, En, Phrases[1]) == current
    ensures ApplyPhrase(HindiTwice, current, Hi, En, Phrases[2]) == current
  {
    HindiTwiceLacks();
    assert Phrases[1].hi[0] == 'ब';
    MissingCharNotContained(HindiTwice, Phrases[1].hi, 'ब');
    assert Phrases[2].hi[6] == 'ख';
    MissingCharNotContained(HindiTwice, Phrases[2].hi, 'ख');
  }

  /** A Hindi phrase that occurs twice is translated only at its first occurrence. */
  lemma OnlyFirstOccurrenceTranslated()
    ensures TranslateText(HindiTwice, En, Some(Hi)).translatedText == Phrases[0].en + ", " + Phrases[0].hi
  {
    var once := ApplyPhrase(HindiTwice, HindiTwice, Hi, En, Phrases[0]);
    HindiTwiceFirstEntry();
    HindiTwiceOtherEntries(once);
    assert ApplyPhrases(HindiTwice, once, Hi, En, Phrases[2..]) == once;
    assert ApplyPhrases(HindiTwice, once, Hi, En, Phrases[1..]) == once;
  }
}
