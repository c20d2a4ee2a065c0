/** The server-side rule model (`server/services/aiModel.js`): a copy of the
    client's keyword classifier that also reports the department's code and
    display name, and a second sentiment model that counts distinct urgent and
    negative keywords occurring as substrings. */
module AiModel {
  import opened Text
  import C = ComplaintClassification
  import S = SentimentAnalysis

  datatype DepartmentInfo = DepartmentInfo(code: string, name: string)

  /** `departmentMapping` */
  function Mapping(d: C.Department): DepartmentInfo {
    match d
    case Water => DepartmentInfo("WATER", "Water Department")
    case Electricity => DepartmentInfo("ELEC", "Electricity Department")
    case Roads => DepartmentInfo("ROADS", "Roads & Infrastructure")
    case Sanitation => DepartmentInfo("SANIT", "Sanitation Department")
    case PublicHealth => DepartmentInfo("HEALTH", "Public Health Department")
    case Education => DepartmentInfo("EDU", "Education Department")
    case Transport => DepartmentInfo("TRANS", "Transport Department")
    case General => DepartmentInfo("GEN", "General Administration")
    case Housing => DepartmentInfo("HOUSE", "Housing Department")
    case Land => DepartmentInfo("LAND", "Land & Revenue Department")
  }

  /** The server's own copy of the keyword table, in its declaration order. */
  const ServerKeywordTable: seq<seq<string>> := [
    ["water", "pipe", "leak", "tap", "supply", "drainage", "sewage", "flood"],
    ["electricity", "power", "outage", "blackout", "voltage", "electric", "light", "transformer"],
    ["road", "street", "pothole", "highway", "traffic", "signal", "construction", "bridge"],
    ["garbage", "waste", "trash", "clean", "sanitation", "dump", "collection"],
    ["hospital", "clinic", "health", "medical", "doctor", "disease", "treatment"],
    ["school", "college", "education", "university", "teacher", "student", "classroom"],
    ["bus", "train", "transport", "metro", "vehicle", "schedule", "delay"],
    ["house", "apartment", "building", "lease", "rent", "construction", "roof"],
    ["land", "property", "ownership", "survey", "title", "deed", "encroachment"],
    ["general", "administration", "complaint", "government", "official", "corruption"]
  ]

  datatype ServerClassification = ServerClassification(
    department: C.Department,
    departmentCode: string,
    departmentName: string,
    confidence: real,
    tags: seq<string>)

  /** The server's `classifyComplaint(text)` on its normal path: it gives the
      client's department, confidence and tags, and the code and name that
      `departmentMapping` lists for that department. */
  function ClassifyComplaint(text: string): (r: ServerClassification)
    ensures r.department == C.ClassifyComplaint(text).department
    ensures r.confidence == C.ClassifyComplaint(text).confidence
    ensures r.tags == C.ClassifyComplaint(text).tags
    ensures DepartmentInfo(r.departmentCode, r.departmentName) == Mapping(r.department)
  {
    var ms := C.MatchedLists(Lower(text), ServerKeywordTable);
    var st := C.BestUpTo(ms, C.Index(C.General), |ms|);
    var tags := C.TagsUpTo(ms, |ms|);
    var confidence := C.Confidence(st.highest);
    SameTable();
    C.ScanBest(ms, C.Index(C.General), |ms|);
    var d := C.Departments[st.best];
    ServerClassification(d, Mapping(d).code, Mapping(d).name, confidence, tags)
  }

  lemma SameTable()
    ensures ServerKeywordTable == C.KeywordTable
  {
  }

  /** What the `catch` branch of `classifyComplaint` returns. */
  const ClassificationFallback := ServerClassification(C.General, "GEN", "General Administration", 0.0, [])

  /** The fallback names the general department consistently with the mapping. */
  lemma ClassificationFallbackIsGeneral()
    ensures DepartmentInfo(ClassificationFallback.departmentCode, ClassificationFallback.departmentName)
      == Mapping(ClassificationFallback.department)
  {
  }

  /** Distinct departments have distinct codes. */
  lemma CodesDistinct(a: C.Department, b: C.Department)
    requires a != b
    ensures Mapping(a).code != Mapping(b).code
  {
  }

  // ---------------------------------------------------------------------------
  // The server's `analyzeSentiment`
  // ---------------------------------------------------------------------------

  const UrgentKeywords: seq<string> :=
    ["urgent", "emergency", "immediately", "danger", "critical", "life-threatening",
     "severe", "serious", "dying", "death", "fatal", "collapse", "accident"]

  const NegativeKeywords: seq<string> :=
    ["bad", "poor", "terrible", "awful", "horrible", "disgusting",
     "broken", "faulty", "useless", "damaged", "corrupt", "failed"]

  datatype ServerSentiment = ServerSentiment(score: real, urgency: S.Urgency)

  /** Running sum of a `forEach` that adds `step` for every keyword of `ks`
      occurring in `lower`. */
  function Accumulate(lower: string, ks: seq<string>, step: real): real
    decreases |ks|
  {
    if ks == [] then 0.0
    else Accumulate(lower, ks[..|ks| - 1], step) + (if Contains(lower, ks[|ks| - 1]) then step else 0.0)
  }

  /** `step` added to zero `n` times. */
  function Times(step: real, n: nat): real {
    if n == 0 then 0.0 else Times(step, n - 1) + step
  }

  lemma {:induction false} TimesIsProduct(step: real, n: nat)
    ensures Times(step, n) == step * n as real
  {
    if n > 0 {
      TimesIsProduct(step, n - 1);
    }
  }

  /** The accumulated score is `step` times the number of matching keywords. */
  lemma {:induction false} AccumulateIsCount(lower: string, ks: seq<string>, step: real)
    ensures Accumulate(lower, ks, step) == step * C.Count(lower, ks) as real
  {
    AccumulateIsTimes(lower, ks, step);
    TimesIsProduct(step, C.Count(lower, ks));
  }

  lemma {:induction false} AccumulateIsTimes(lower: string, ks: seq<string>, step: real)
    ensures Accumulate(lower, ks, step) == Times(step, C.Count(lower, ks))
    decreases |ks|
  {
    if ks == [] {
      assert C.Count(lower, ks) == 0;
    } else {
      AccumulateIsTimes(lower, ks[..|ks| - 1], step);
      CountSnoc(lower, ks);
    }
  }

  /** Counting the keywords of a list one at a time from the front. */
  lemma CountSnoc(lower: string, ks: seq<string>)
    requires ks != []
    ensures C.Count(lower, ks) == C.Count(lower, ks[..|ks| - 1]) + (if Contains(lower, ks[|ks| - 1]) then 1 else 0)
  {
    var init, last := ks[..|ks| - 1], ks[|ks| - 1];
    MatchedSnoc(lower, init, last);
    assert ks == init + [last];
  }

  lemma {:induction false} MatchedSnoc(lower: string, ks: seq<string>, k: string)
    ensures C.Matched(lower, ks + [k]) == C.Matched(lower, ks) + (if Contains(lower, k) then [k] else [])
    decreases |ks|
  {
    if ks == [] {
      assert [k][1..] == [];
    } else {
      assert (ks + [k])[1..] == ks[1..] + [k];
      MatchedSnoc(lower, ks[1..], k);
    }
  }

  /** The urgent keywords occurring in the lower-cased text. */
  function UrgentFound(text: string): set<string> {
    C.Occurring(Lower(text), UrgentKeywords)
  }

  /** The negative keywords occurring in the lower-cased text. */
  function NegativeFound(text: string): set<string> {
    C.Occurring(Lower(text), NegativeKeywords)
  }

  lemma KeywordListsDistinct()
    ensures C.NoDuplicates(UrgentKeywords) && C.NoDuplicates(NegativeKeywords)
  {
    UrgentKeywordsDistinct();
    NegativeKeywordsDistinct();
  }

  lemma UrgentKeywordsDistinct()
    ensures C.NoDuplicates(UrgentKeywords)
  {
  }

  lemma NegativeKeywordsDistinct()
    ensures C.NoDuplicates(NegativeKeywords)
  {
  }

  /** The server's `analyzeSentiment(text)` on its normal path. */
  function AnalyzeSentiment(text: string): (r: ServerSentiment)
    ensures r.score == -0.1 * |NegativeFound(text)| as real
    ensures r.urgency == S.High <==> |UrgentFound(text)| >= 2
    ensures r.urgency == S.Low <==> |UrgentFound(text)| == 0 && |NegativeFound(text)| <= 1
    ensures r.urgency == S.Medium <==>
      |UrgentFound(text)| == 1 || (|UrgentFound(text)| == 0 && |NegativeFound(text)| >= 2)
  {
    var lower := Lower(text);
    var urgencyScore := Accumulate(lower, UrgentKeywords, 0.2);
    var sentimentScore := Accumulate(lower, NegativeKeywords, -0.1);
    var urgency :=
      if urgencyScore >= 0.4 then S.High
      else if urgencyScore < 0.1 && sentimentScore > -0.2 then S.Low
      else S.Medium;
    AccumulateIsCount(lower, UrgentKeywords, 0.2);
    AccumulateIsCount(lower, NegativeKeywords, -0.1);
    KeywordListsDistinct();
    C.MatchedCountsDistinct(lower, UrgentKeywords);
    C.MatchedCountsDistinct(lower, NegativeKeywords);
    ServerSentiment(sentimentScore, urgency)
  }

  /** What the `catch` branch of `analyzeSentiment` returns; unlike the
      client's fallback its urgency is medium. */
  const SentimentFallback := ServerSentiment(0.0, S.Medium)

  lemma FallbacksDiffer()
    ensures SentimentFallback.urgency != S.SentimentFallback.urgency
  {
  }

  /** Repeating a keyword adds nothing: the counts only see which keywords
      occur, so texts with the same occurring keywords get the same result. */
  lemma OnlyDistinctKeywordsMatter(a: string, b: string)
    requires UrgentFound(a) == UrgentFound(b) && NegativeFound(a) == NegativeFound(b)
    ensures AnalyzeSentiment(a) == AnalyzeSentiment(b)
  {
  }

  /** Keywords match as substrings: "dangerous" contains the urgent keyword "danger". */
  lemma DangerInDangerous(text: string)
    requires Contains(Lower(text), "dangerous")
    ensures "danger" in UrgentFound(text)
  {
    var i :| 0 <= i <= |Lower(text)| - |"dangerous"| && OccursAt(Lower(text), "dangerous", i);
    assert Lower(text)[i..i + 6] == Lower(text)[i..i + 9][..6];
    assert OccursAt(Lower(text), "danger", i);
    assert "danger" in UrgentKeywords;
  }
}
