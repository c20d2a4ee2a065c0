/** The analysis pipeline of `useNlpAnalysis` (`src/hooks/useNlpAnalysis.ts`):
    detect the language, translate to English only when the text is not
    English, then run sentiment, classification and similarity on the same
    text. The React state plumbing is reduced to the returned record. */
module NlpAnalysis {
  import opened Wrappers
  import T = TranslationService
  import S = SentimentAnalysis
  import C = ComplaintClassification
  import Sim = SimilarityDetection

  /** `NlpAnalysisResult`: the hook state plus an optional error message;
      `None` stands for an absent (`undefined`) field. */
  datatype AnalysisState = AnalysisState(
    isAnalyzing: bool,
    sentiment: Option<S.SentimentResult>,
    classification: Option<C.ClassificationResult>,
    languageDetection: Option<T.LanguageDetection>,
    translation: Option<T.TranslationResult>,
    similarity: Option<Sim.SimilarityResult>,
    error: Option<string>)

  /** The hook's initial state, `{ isAnalyzing: false }`. */
  const InitialState := AnalysisState(false, None, None, None, None, None, None)

  /** The text the three analysis stages receive. */
  function StageInput(text: string, translation: Option<T.TranslationResult>): string {
    if translation.Some? then translation.value.translatedText else text
  }

  /** `analyzeComplaint(text, existingComplaints)` on its normal path. */
  function AnalyzeComplaint(text: string, existing: seq<Sim.ComplaintSummary>): (r: AnalysisState)
    ensures !r.isAnalyzing && r.error.None?
    ensures r.languageDetection == Some(T.DetectLanguage(text))
    ensures r.translation.Some? <==> T.DetectLanguage(text).detectedLanguage != T.En
    ensures r.translation.Some? ==>
      r.translation.value.originalText == text
      && r.translation.value.sourceLanguage == T.DetectLanguage(text).detectedLanguage
      && r.translation.value.targetLanguage == T.En
    ensures r.translation.Some? ==>
      r.translation.value == T.TranslateText(text, T.En, Some(T.DetectLanguage(text).detectedLanguage))
    ensures r.sentiment == Some(S.AnalyzeSentiment(StageInput(text, r.translation)))
    ensures r.classification == Some(C.ClassifyComplaint(StageInput(text, r.translation)))
    ensures r.similarity == Some(Sim.FindSimilarComplaints(StageInput(text, r.translation), existing))
  {
    var languageDetection := T.DetectLanguage(text);
    var translation :=
      if languageDetection.detectedLanguage != T.En
      then Some(T.TranslateText(text, T.En, Some(languageDetection.detectedLanguage)))
      else None;
    var translatedText := if translation.Some? then translation.value.translatedText else text;
    AnalysisState(
      false,
      Some(S.AnalyzeSentiment(translatedText)),
      Some(C.ClassifyComplaint(translatedText)),
      Some(languageDetection),
      translation,
      Some(Sim.FindSimilarComplaints(translatedText, existing)),
      None)
  }

  /** `analyzeComplaint(text)`: `existingComplaints` defaults to `[]`. */
  function AnalyzeComplaintDefault(text: string): (r: AnalysisState)
    ensures r.similarity == Some(Sim.SimilarityResult([], 0.0))
    ensures r.sentiment == AnalyzeComplaint(text, []).sentiment
    ensures r.classification == AnalyzeComplaint(text, []).classification
  {
    Sim.EmptyCorpus(StageInput(text, AnalyzeComplaint(text, []).translation));
    AnalyzeComplaint(text, [])
  }

  /** English text is analysed as written: nothing is translated. */
  lemma EnglishAnalyzedAsIs(text: string, existing: seq<Sim.ComplaintSummary>)
    requires forall k :: 0 <= k < |text| ==> !T.IsDevanagari(text[k]) && !T.IsTamil(text[k])
    ensures AnalyzeComplaint(text, existing).translation.None?
    ensures AnalyzeComplaint(text, existing).sentiment == Some(S.AnalyzeSentiment(text))
    ensures AnalyzeComplaint(text, existing).classification == Some(C.ClassifyComplaint(text))
  {
  }

  /** Hindi or Tamil text is translated from the detected language into
      English, and the stages see the translation. */
  lemma NonEnglishTranslated(text: string, existing: seq<Sim.ComplaintSummary>)
    requires exists k :: 0 <= k < |text| && (T.IsDevanagari(text[k]) || T.IsTamil(text[k]))
    ensures AnalyzeComplaint(text, existing).translation.Some?
    ensures AnalyzeComplaint(text, existing).translation.value.sourceLanguage in {T.Hi, T.Ta}
    ensures AnalyzeComplaint(text, existing).sentiment
      == Some(S.AnalyzeSentiment(AnalyzeComplaint(text, existing).translation.value.translatedText))
  {
  }

  /** The text the stages see is `translateText(text, 'en')` with the source
      left to detection: English text comes back as it is. */
  lemma StageInputIsTranslation(text: string, existing: seq<Sim.ComplaintSummary>)
    ensures StageInput(text, AnalyzeComplaint(text, existing).translation)
      == T.TranslateText(text, T.En, None).translatedText
  {
  }

  /** When the translation into English holds no Devanagari or Tamil
      character, running the pipeline on it translates nothing and gives the
      same three analyses as running it on the original text. */
  lemma ReanalysisAgrees(text: string, existing: seq<Sim.ComplaintSummary>)
    requires var english := T.TranslateText(text, T.En, None).translatedText;
      forall k :: 0 <= k < |english| ==> !T.IsDevanagari(english[k]) && !T.IsTamil(english[k])
    ensures var first := AnalyzeComplaint(text, existing);
      var again := AnalyzeComplaint(T.TranslateText(text, T.En, None).translatedText, existing);
      && again.translation.None?
      && again.sentiment == first.sentiment
      && again.classification == first.classification
      && again.similarity == first.similarity
  {
    StageInputIsTranslation(text, existing);
  }

  /** What was thrown into the `catch` branch. */
  datatype Thrown = ErrorObject(message: string) | OtherValue

  const DefaultErrorMessage := "Unknown error during NLP analysis"

  /** The `catch` branch: the previous hook state, no longer analysing, with
      the error's message, or the default message for a non-`Error` value. */
  function AnalysisFailed(state: AnalysisState, thrown: Thrown): (r: AnalysisState)
    ensures !r.isAnalyzing && r.error.Some?
    ensures thrown.OtherValue? ==> r.error.value == DefaultErrorMessage
    ensures thrown.ErrorObject? ==> r.error.value == thrown.message
    ensures r.error.value != [] <==> thrown.OtherValue? || thrown.message != []
    ensures r.(isAnalyzing := state.isAnalyzing, error := state.error) == state
  {
    var errorMsg := if thrown.ErrorObject? then thrown.message else DefaultErrorMessage;
    state.(isAnalyzing := false, error := Some(errorMsg))
  }
}
