# Grievance portal: the complaint-analysis core in Dafny

This project models the rule-based complaint-analysis pipeline of a citizen
grievance portal, together with the small record, validation and listing rules
around it. Each part is a pure function over strings, small enumerations and
sequences, and each carries a contract with the properties proved about it.

- **Language detection and phrase translation** (`TranslationService`). Detection
  checks the Devanagari range first, then the Tamil range, and otherwise answers
  English. Translation returns the text unchanged when source and target agree.
  Otherwise it substitutes phrases from a three-entry table. From English, every
  occurrence is replaced case-insensitively. From Hindi or Tamil, only the first
  occurrence of each phrase is replaced, whatever the target.
- **Client sentiment** (`SentimentAnalysis`). The text is lower-cased, split on
  whitespace, and the tokens that exactly equal one of ten negative words are
  counted. That count gives the score, the magnitude and the urgency.
- **Department classification** (`ComplaintClassification`, and the server's copy
  in `AiModel`). For each department, the classifier counts the keywords that
  occur as substrings. It collects the occurring keywords as tags, deduplicated
  and in first-seen order. The strictly highest count wins, and ties go to the
  earlier department. Confidence is `min(1, count/5)`, or 0.3 when nothing matched.
  The model first computes each department's matched keywords, then runs the
  source's loop over those lists. Each department's matches depend only on the
  text, so this is the same computation.
- **Server sentiment** (`AiModel`). Counts *distinct* urgent and negative keywords
  by substring and applies its own urgency rule.
- **Similarity** (`SimilarityDetection`). Builds word sets of the tokens longer
  than three characters and computes Jaccard similarity. It keeps the corpus
  items above 0.3, tracks the best score, and sorts newest first.
- **Pipeline** (`NlpAnalysis`). Detect, then translate only non-English text,
  then run the three analyses on the same text. The error path is modelled too.
- **Grievance records and routes** (`GrievanceRecords`, `GrievanceRoutes`):
  - how a record is built when a complaint is submitted, and when the
    schema's required strings reject it;
  - the owner-or-admin access rule;
  - the admin-only status update, with history append and a frame;
  - comment append, with a frame.
- **Tracking identifiers** (`TrackingIds`). The server's
  `GR` + timestamp digits + random digits generator, the submission page's
  `GR` + six digits, and the `^GR\d{6}$` format.
- **Tracking page** (`TrackGrievancePage`). Form validation, the demo lookup and
  error clearing on edit.
- **Dashboard** (`Dashboard`). The four-field case-insensitive search, the status
  tallies and the status tabs.

Text is `seq<char>`. JavaScript's `\s` and `trim()` whitespace set is modelled
exactly. `toLowerCase` is modelled as ASCII lowering, and `includes` as a
substring predicate. `split(/\s+/)` is modelled exactly, including the empty
first or last piece produced by leading or trailing whitespace. Ratios are Dafny
`real`s and counts are integers. The clock and the random numbers are parameters.

Where the design description and the code disagree, the model follows the code.
The description says that five or more negative words give urgency `high`.
The code tests `score < -0.5`, and five words give exactly -0.5, so only six or
more give `high`. `SentimentAnalysis.AnalyzeSentiment` states the code's rule.
The description also has the submission route store the form's location fields.
The route passes `state`, `district` and `address` to the model constructor,
but the grievance schema declares no such paths. Mongoose's default strict mode
drops them, so the stored record has no location (`GrievanceRoutes.CategoryIgnored`).

## Model

| member | source | states |
|---|---|---|
| Text.LowerChar | src/services/nlp/sentimentAnalysis.ts:28 | `A`-`Z` move up by 32 to `a`-`z`, and every other character, lower-case letters included, stays as it is |
| Text.Lower | src/services/nlp/sentimentAnalysis.ts:28 | lower-casing keeps the length and lower-cases each character on its own |
| Text.LowerIdempotent | src/services/nlp/sentimentAnalysis.ts:28 | lower-casing twice is lower-casing once |
| Text.Split | src/services/nlp/sentimentAnalysis.ts:28 | `split(/\s+/)` yields at least one piece and no piece contains whitespace |
| Text.SplitInterleave | src/services/nlp/sentimentAnalysis.ts:28 | the input is the pieces interleaved with the maximal whitespace runs between them, one run fewer than pieces; every piece except the first and the last is non-empty, so the cut points are exactly the whitespace runs |
| Text.SplitOfLower | src/services/nlp/sentimentAnalysis.ts:28 | the pieces of lower-cased text are themselves lower-case |
| Text.SplitAppendWord | src/services/nlp/sentimentAnalysis.ts:28 | appending a space and a word adds that word as the last piece, after dropping a trailing empty piece |
| Text.SplitJoin | src/services/nlp/sentimentAnalysis.ts:28 | the pieces, joined back, are exactly the input with its whitespace removed, so splitting loses nothing but whitespace |
| Text.TrimEmptyIffBlank | src/pages/TrackGrievance.tsx:70 | `trim()` gives the empty string exactly when every character is whitespace |
| Text.ContainsLowerIsContainsCI | src/services/nlp/translationService.ts:102-104 | testing `text.toLowerCase().includes(p)` for a lower-case phrase is the same as a case-insensitive match anywhere in the text |
| Text.ReplaceFirstSpec | src/services/nlp/translationService.ts:110-114 | `String.replace` with a string pattern changes nothing when the pattern is absent, and otherwise replaces exactly its leftmost occurrence |
| Text.ReplaceAllCIRemoves | src/services/nlp/translationService.ts:103-106 | after a global case-insensitive replacement by a replacement that cannot form a new match, the pattern no longer occurs |
| Text.ReplaceAllCIPreservesAbsence | src/services/nlp/translationService.ts:101-106 | a global replacement whose replacement cannot form a match of another phrase does not create that phrase |
| TranslationService.HasCharIn | src/services/nlp/translationService.ts:32-33 | a character-class regex test holds iff some character lies in the range |
| TranslationService.DetectLanguage | src/services/nlp/translationService.ts:26-41 | any Devanagari character gives (hi, 0.9) even when Tamil is also present; Tamil without Devanagari gives (ta, 0.9); neither gives (en, 0.8) |
| TranslationService.TranslateText | src/services/nlp/translationService.ts:55-124 | `originalText` is the input and `targetLanguage` the argument; a given source is kept, an omitted one is the detected language; equal source and target leave the text unchanged |
| TranslationService.TranslationFallback | src/services/nlp/translationService.ts:125-133 | the failure result leaves the text untranslated |
| TranslationService.PhraseTableShape | src/services/nlp/translationService.ts:79-95 | every English key is a non-empty lower-case ASCII phrase and every Hindi and Tamil variant is non-empty and free of ASCII letters |
| TranslationService.VariantsInsulate | src/services/nlp/translationService.ts:79-95 | no Hindi or Tamil variant can take part in a match of an English key |
| TranslationService.ApplyPhrasesEnglish | src/services/nlp/translationService.ts:101-106 | across the table walk from English, every processed key is absent from the running text |
| TranslationService.EnglishTranslationRemovesKeys | src/services/nlp/translationService.ts:101-106 | translating English into Hindi or Tamil leaves no table key anywhere in the result, in any letter case |
| TranslationService.NoPhraseNoChange | src/services/nlp/translationService.ts:98-117 | text containing no table phrase of its source language comes back unchanged |
| TranslationService.ApplyPhrasesAppend | src/services/nlp/translationService.ts:100-116 | walking the table in two parts is the same as walking it whole, because each entry tests the input and rewrites the running text |
| TranslationService.OnlyEntryApplies | src/services/nlp/translationService.ts:100-116 | when only one entry's test succeeds on the input, the translation is that entry's rewrite alone |
| TranslationService.EnglishPhraseTranslated | src/services/nlp/translationService.ts:101-106 | English text holding one table key once, in any letter case, and no other key, becomes the text before it, the target variant, and the text after it |
| TranslationService.FirstVariantTranslated | src/services/nlp/translationService.ts:107-114 | Hindi or Tamil text holding one phrase of its language and no other becomes the text before the leftmost occurrence, the English key or target variant, and the rest unchanged, later occurrences included |
| TranslationService.MissingCharNotContained | src/services/nlp/translationService.ts:110 | a text lacking some character of a phrase does not contain the phrase |
| TranslationService.HindiTwiceFirstEntry | src/services/nlp/translationService.ts:107-114 | for a text holding the first Hindi phrase twice, that table entry replaces only its first occurrence |
| TranslationService.OnlyFirstOccurrenceTranslated | src/services/nlp/translationService.ts:107-116 | translating that text from Hindi to English leaves its second occurrence in Hindi |
| SentimentAnalysis.CountIn | src/services/nlp/sentimentAnalysis.ts:27-34 | the count of negative tokens never exceeds the number of tokens |
| SentimentAnalysis.CountNegativeIsPositions | src/services/nlp/sentimentAnalysis.ts:30-34 | the count equals the number of token positions whose token is one of the ten words |
| SentimentAnalysis.AnalyzeSentiment | src/services/nlp/sentimentAnalysis.ts:24-47 | score is in [-1, 0], equals -count/10 below ten hits and -1 from ten hits on; magnitude is twice the score's size; urgency is high iff at least 6 hits, medium iff 1 to 5, low iff none |
| SentimentAnalysis.AppendWordHits | src/services/nlp/sentimentAnalysis.ts:28-34 | appending a word raises the hit count by one iff the lower-cased word is a negative word, and leaves it unchanged otherwise |
| SentimentAnalysis.AppendWordUrgencyMonotone | src/services/nlp/sentimentAnalysis.ts:30-47 | appending a word never lowers urgency and never raises the score |
| SentimentAnalysis.PunctuationDefeatsMatch | src/services/nlp/sentimentAnalysis.ts:28-31 | "Broken" counts after lower-casing, while "broken." does not, because tokens must equal a word exactly |
| ComplaintClassification.Index | src/services/nlp/complaintClassification.ts:35-46 | every department has a position in the iteration order |
| ComplaintClassification.Matched | src/services/nlp/complaintClassification.ts:57-64 | the keywords counted for a department are exactly those of its list that occur in the lower-cased text |
| ComplaintClassification.AddTags | src/services/nlp/complaintClassification.ts:60-62 | tags only grow at the end, gain exactly the new keywords, and stay free of duplicates |
| ComplaintClassification.KeepFirst | src/services/nlp/complaintClassification.ts:60-62 | keeping each element at its first occurrence gives a duplicate-free list with the same elements |
| ComplaintClassification.KeepFirstOrdered | src/services/nlp/complaintClassification.ts:60-62 | the kept elements appear in the order of their first occurrences |
| ComplaintClassification.AddTagsIsKeepFirst | src/services/nlp/complaintClassification.ts:60-62 | adding keywords to the tags of a list gives the first occurrences of the longer list, in order |
| ComplaintClassification.TagsUpToIsKeepFirst | src/services/nlp/complaintClassification.ts:54-64 | after the first n departments the tags are the first occurrences among their matched keywords, taken department by department in list order |
| ComplaintClassification.ScanBest | src/services/nlp/complaintClassification.ts:54-70 | after the loop the winner's count is maximal, every earlier department has a strictly smaller count, and with no match the default stays |
| ComplaintClassification.ScanTags | src/services/nlp/complaintClassification.ts:54-64 | after the loop the tags hold each occurring keyword of the scanned lists, once each |
| ComplaintClassification.NoMatchNoTags | src/services/nlp/complaintClassification.ts:54-70 | when no department's count rose above zero, no tag was collected either |
| ComplaintClassification.ClassifyComplaint | src/services/nlp/complaintClassification.ts:30-79 | the department has the highest count, and ties go to the earlier one in the order water, electricity, roads, sanitation, public_health, education, transport, housing, land, general; no match gives (general, 0.3, []); confidence is min(1, count/5) and lies in (0, 1]; tags are exactly the occurring keywords, without duplicates, in first-seen order over the departments and their lists |
| ComplaintClassification.SharedKeyword | src/services/nlp/complaintClassification.ts:38-62 | "construction" counts for both roads and housing but appears in the tags exactly once |
| ComplaintClassification.MatchedCountsDistinct | src/services/nlp/complaintClassification.ts:57-64 | a department's count is the number of distinct keywords of its list that occur |
| ComplaintClassification.WinnerCountAtMostTags | src/services/nlp/complaintClassification.ts:57-69 | the winning department's count is at most the number of tags |
| ComplaintClassification.SubstringsMatch | src/services/nlp/complaintClassification.ts:58 | matching is by substring: "Watering" counts for water |
| AiModel.ClassifyComplaint | server/services/aiModel.js:59-110 | the server gives the client's department, confidence and tags, and the code and name that the department mapping lists for that department |
| AiModel.SameTable | server/services/aiModel.js:64-75 | the server's keyword table equals the client's, list by list and in the same order |
| AiModel.ClassificationFallbackIsGeneral | server/services/aiModel.js:113-119 | the failure result names general with the mapping's code GEN and name General Administration |
| AiModel.CodesDistinct | server/services/aiModel.js:11-52 | different departments have different codes |
| AiModel.AccumulateIsCount | server/services/aiModel.js:140-153 | a `forEach` that adds a step for each keyword occurring in the text totals step times the number of occurring keywords |
| AiModel.AnalyzeSentiment | server/services/aiModel.js:124-166 | the score is -0.1 times the number of distinct negative keywords present; urgency is high iff at least two distinct urgent keywords occur, low iff none occurs and at most one negative keyword does, and medium otherwise |
| AiModel.FallbacksDiffer | server/services/aiModel.js:167-170 | the server's failure urgency (medium) differs from the client's (low) |
| AiModel.OnlyDistinctKeywordsMatter | server/services/aiModel.js:140-153 | repeating a keyword changes nothing: texts with the same occurring keywords get the same result |
| AiModel.DangerInDangerous | server/services/aiModel.js:141-143 | "dangerous" counts as the urgent keyword "danger" |
| SimilarityDetection.WordSet | src/services/nlp/similarityDetection.ts:34-41 | every word in a word set is longer than three characters, holds no whitespace and is lower-case |
| SimilarityDetection.WordSetAppendWord | src/services/nlp/similarityDetection.ts:34-41 | appending a space and a word adds the lower-cased word to the set iff it is longer than three characters, and adds nothing else |
| SimilarityDetection.Jaccard | src/services/nlp/similarityDetection.ts:43-53 | similarity is the size of the intersection over the size of the union, and 0 when both sets are empty; it is in [0, 1], is 1 iff the sets are equal and non-empty, and is positive iff they share a word |
| SimilarityDetection.ScanKeeps | src/services/nlp/similarityDetection.ts:38-56 | the loop keeps each corpus item, with its multiplicity, iff its similarity exceeds 0.3 |
| SimilarityDetection.ScanHighest | src/services/nlp/similarityDetection.ts:36-57 | the running best is 0 iff nothing was kept; otherwise it is attained by a kept item, bounds every kept item, and lies in (0.3, 1] |
| SimilarityDetection.SortNewestFirst | src/services/nlp/similarityDetection.ts:62 | sorting by `createdAt` descending is a permutation and its result is ordered |
| SimilarityDetection.SortIsStable | src/services/nlp/similarityDetection.ts:62 | items with equal `createdAt` keep their relative order |
| SimilarityDetection.FindSimilarComplaints | src/services/nlp/similarityDetection.ts:26-64 | the result is the sub-multiset of the corpus above 0.3, newest first; the highest score is 0 iff none is kept, is attained and never exceeded, and is 0 or in (0.3, 1] |
| SimilarityDetection.EmptyCorpus | src/services/nlp/similarityDetection.ts:35-64 | an empty corpus gives ([], 0) |
| SimilarityDetection.IdenticalWordsKept | src/services/nlp/similarityDetection.ts:44-57 | an item with the same non-empty word set has similarity 1, is kept, and makes the highest score 1 |
| NlpAnalysis.AnalyzeComplaint | src/hooks/useNlpAnalysis.ts:43-85 | detection always runs; a translation exists iff the detected language is not English, and it is from that language into English; the translation is exactly `translateText(text, 'en', detected)`; all three analyses receive the translated text, or the input when English; the result is not analysing and has no error |
| NlpAnalysis.StageInputIsTranslation | src/hooks/useNlpAnalysis.ts:54-64 | the stages see `translateText(text, 'en')` with the source detected, which is the text itself when it reads as English |
| NlpAnalysis.ReanalysisAgrees | src/hooks/useNlpAnalysis.ts:54-73 | when the English translation holds no Devanagari or Tamil character, analysing it translates nothing and gives the same three analyses as analysing the original |
| NlpAnalysis.AnalyzeComplaintDefault | src/hooks/useNlpAnalysis.ts:45-73 | omitting the corpus gives the similarity result ([], 0) |
| NlpAnalysis.EnglishAnalyzedAsIs | src/hooks/useNlpAnalysis.ts:54-64 | text without Devanagari or Tamil characters is not translated, and sentiment and classification see it as written |
| NlpAnalysis.NonEnglishTranslated | src/hooks/useNlpAnalysis.ts:57-67 | Hindi or Tamil text is translated from its detected language, and sentiment sees the translation |
| NlpAnalysis.AnalysisFailed | src/hooks/useNlpAnalysis.ts:86-91 | on failure the state is no longer analysing and carries the error's message, or the default message for a non-Error value; the message is empty only for an Error with an empty message; nothing else changes |
| GrievanceRoutes.CreateGrievance | server/routes/grievanceRoutes.js:12-47 | the submission fails validation, with nothing saved, iff the tracking id, subject or description is empty; otherwise the new record is pending, medium urgency and English, copies subject and description from the body and department, tags and confidence from the server classifier, and has no comments and no history |
| GrievanceRoutes.CategoryIgnored | server/routes/grievanceRoutes.js:12-35 | the submitted category, state, district and address do not affect the response, because the schema has no path for them |
| GrievanceRoutes.Track | server/routes/grievanceRoutes.js:64-82 | a missing record gives 404 before any ownership check; otherwise the record is returned iff the caller owns it or is an admin, and 403 results otherwise |
| GrievanceRoutes.AddComment | server/routes/grievanceRoutes.js:90-119 | 404 for a missing record, then 403 unless owner or admin, then a validation failure with the store unchanged for an empty text; on success exactly one comment with the caller's id, role, text and time is appended, and no other field or record changes |
| GrievanceRoutes.UpdateStatus | server/routes/grievanceRoutes.js:127-158 | 403 for a non-admin before any lookup, then 404; on success the status is the new one, the history grows by exactly one entry at the end naming the status, updater and role, `updatedAt` is set, and nothing else changes |
| GrievanceRoutes.AnyTransitionAllowed | server/routes/grievanceRoutes.js:142-143 | there is no transition guard: an admin may set any status on any record |
| GrievanceRoutes.HistoryWrittenByAdmins | server/routes/grievanceRoutes.js:133-152 | a history whose entries all name admin roles keeps that property across a status update |
| GrievanceRoutes.CommentNeedsAccess | server/routes/grievanceRoutes.js:74-107 | viewing and commenting use the same access rule |
| TrackingIds.Decimal | server/utils/helpers.js:4 | `toString()` of a non-negative integer is a non-empty digit string without a leading zero |
| TrackingIds.ParseDecimalOfDecimal | server/utils/helpers.js:4 | reading the decimal string back gives the number |
| TrackingIds.DecimalLength | server/utils/helpers.js:4 | the decimal string has at most k digits iff the number is below 10^k |
| TrackingIds.PadStart | server/utils/helpers.js:5 | `padStart(width, '0')` keeps the string as a suffix, fills with zeros and reaches the width |
| TrackingIds.PadStartValue | server/utils/helpers.js:5 | zero padding does not change the value |
| TrackingIds.SliceLast | server/utils/helpers.js:4 | `slice(-k)` is the last k characters, or the whole string when it is shorter |
| TrackingIds.FloorScaled | server/utils/helpers.js:5 | `Math.floor(random * scale)` for random in [0, 1) lies in [0, scale) |
| TrackingIds.GeneratedIdLayout | server/utils/helpers.js:3-6 | the generated id is "GR", then the last (up to) six timestamp digits, then four digits whose value is the random number; everything after "GR" is a digit |
| TrackingIds.GeneratedIdTwelveChars | server/utils/helpers.js:4-6 | for a timestamp of six or more digits the id has twelve characters and its middle six digits are the timestamp modulo 10^6 |
| TrackingIds.GeneratedIdFormat | server/utils/helpers.js:3-6 | a generated id matches `^GR\d{6}$` iff the timestamp has exactly two digits |
| TrackingIds.GeneratedIdNeverValid | server/utils/helpers.js:6 | for any timestamp of six or more digits, which covers every real clock reading, the generated id never passes the tracking page's format check |
| TrackingIds.ClientTrackingIdValid | src/pages/NewGrievance.tsx:55 | the submission page's id always passes the format check and its digits are the random value |
| TrackGrievancePage.FieldError | src/pages/TrackGrievance.tsx:70-79 | a field's error is "required" iff it is blank, a format error iff it is non-blank and malformed, and absent otherwise |
| TrackGrievancePage.Validate | src/pages/TrackGrievance.tsx:66-80 | the id has an error iff it is blank or fails `^GR\d{6}$` on the untrimmed value; the phone has an error iff it is blank or not ten digits; each message matches the case |
| TrackGrievancePage.ValidIdIsNotBlank | src/pages/TrackGrievance.tsx:70-73 | a well-formed id is never blank |
| TrackGrievancePage.PaddedIdRejected | src/pages/TrackGrievance.tsx:72-73 | " GR123456" gets the format error, because the pattern is applied to the untrimmed value |
| TrackGrievancePage.ErrorsIndependent | src/pages/TrackGrievance.tsx:68-80 | each field's error depends only on that field |
| TrackGrievancePage.BothErrorsAtOnce | src/pages/TrackGrievance.tsx:68-80 | two empty inputs report both "required" errors together |
| TrackGrievancePage.DemoLookup | src/pages/TrackGrievance.tsx:155-161 | a record is found iff the id is GR123456 or GR654321, and it carries that id |
| TrackGrievancePage.DemoIdWellFormed | src/pages/TrackGrievance.tsx:94-122 | both demo ids pass the format check |
| TrackGrievancePage.SearchGrievance | src/pages/TrackGrievance.tsx:66-162 | with any error the errors are shown and the shown record is unchanged; otherwise the errors are left as they were and the record shown is the demo lookup of the id |
| TrackGrievancePage.NoSearchOnError | src/pages/TrackGrievance.tsx:82-85 | if a search changed the shown record, both inputs were well formed |
| TrackGrievancePage.OtherIdsNotFound | src/pages/TrackGrievance.tsx:155-161 | a well-formed id other than the two demo ids finds nothing |
| TrackGrievancePage.HandleInputChange | src/pages/TrackGrievance.tsx:205-220 | the edited field takes the value; its error, if present, becomes empty; the other field's error and the error keys are unchanged |
| TrackGrievancePage.EditClearsOwnError | src/pages/TrackGrievance.tsx:213-219 | after an edit the edited field shows no error message |
| Dashboard.SearchKeeps | src/pages/Dashboard.tsx:105-111 | the filter keeps each grievance, with its multiplicity, iff the lower-cased query occurs in the lower-cased id, subject, department or category, and the result is an order-preserving subsequence of the input |
| Dashboard.EmptyQueryKeepsAll | src/pages/Dashboard.tsx:105-111 | an empty query keeps the whole list |
| Dashboard.WithStatusKeeps | src/pages/Dashboard.tsx:114-117 | a status filter keeps each grievance, with its multiplicity, iff it has that status, and keeps the order |
| Dashboard.CountsSumToTotal | src/pages/Dashboard.tsx:114-118 | the pending, in-progress, resolved and rejected tallies add up to the total |
| Dashboard.SearchCommutesWithStatus | src/pages/Dashboard.tsx:105-423 | filtering by status and by the search query commute |
| Dashboard.TabRows | src/pages/Dashboard.tsx:345-527 | "All" lists the search result; every other tab lists exactly the searched grievances with its status, in order |
| Dashboard.RejectedOnlyUnderAll | src/pages/Dashboard.tsx:345-348 | rejected grievances appear only under "All", since no tab is for them |

## Left out

- Only ASCII letters are lower-cased. JavaScript's `toLowerCase` folds all of Unicode. The phrase tables, keywords and Devanagari and Tamil text have no other cased letters.
- String lengths count Dafny characters, where JavaScript counts UTF-16 code units. Only the `length > 3` test in the word sets could differ, and only for characters outside the Basic Multilingual Plane.
- Ratios are exact reals, not IEEE doubles. For the counts involved, the thresholds (0.3, -0.5, 0.4, 0.1, -0.2) decide the same way, but sums such as 0.1 + 0.2 are not rounded as in JavaScript.
- Asynchronous calls, `console.error` and the `try`/`catch` branches of the services are out of scope. The failure results are modelled as their own members: `SentimentFallback`, `ClassificationFallback` and `SimilarityFallback` are constants, and `TranslationFallback` is a function of its arguments, since the `catch` result echoes the text, the target and the given source. Nothing in the model throws.
- The hook's `setState` calls and the tracking page's spinner, delay and toasts are left out. React rendering, charts and page chrome are left out too.
- Database access, Express request parsing, JWT authentication and the 500 responses of database and server failures are left out. The 500 of a failed schema validation is modelled as `Invalid`. The store is a map from record id to record. The route's lookup by tracking id is its result, passed to `Track`.
- The `my-grievances` listing route is a database query with a sort, and has no rule of its own to state.
- GrievanceRoutes.UpdateStatus: the route reads the clock twice, for the history entry and for `updatedAt`; the model uses one time for both.
- Record fields the routes never write are not modelled: `translatedDescription`, `sentimentScore`, `similarGrievances`, `assignedTo` and `attachments`.
- GrievanceRoutes.AddComment: records already in the store are taken to satisfy the schema, since each was saved through it; only the new comment is checked. A body field that is missing altogether also fails `required`, but the model's body fields are always strings.
- GrievanceRoutes.CreateGrievance: the user id is a database object id and is never empty, so its `required` check cannot fail.
- Mongoose rejects a status or role outside its enumeration when saving. The model's `Status` and `Role` types exclude such values from the start.
- The tracking page's demo records are literal data. Only their identifiers, statuses and histories appear in the lemmas.
