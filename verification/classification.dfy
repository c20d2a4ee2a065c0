/** The client-side keyword classifier (`src/services/nlp/complaintClassification.ts`):
    every department has a keyword list; the department with the most keywords
    occurring in the lower-cased text wins, the first one in table order on a
    tie, and every matched keyword becomes a tag. */
module ComplaintClassification {
  import opened Text

  /** The departments, declared in the order of the keyword table. */
  datatype Department =
    | Water | Electricity | Roads | Sanitation | PublicHealth
    | Education | Transport | Housing | Land | General

  datatype ClassificationResult = ClassificationResult(department: Department, confidence: real, tags: seq<string>)

  /** The keyword table's iteration order (`Object.entries` follows insertion order). */
  const Departments: seq<Department> :=
    [Water, Electricity, Roads, Sanitation, PublicHealth, Education, Transport, Housing, Land, General]

  function Index(d: Department): (i: nat)
    ensures i < |Departments| && Departments[i] == d
  {
    match d
    case Water => 0
    case Electricity => 1
    case Roads => 2
    case Sanitation => 3
    case PublicHealth => 4
    case Education => 5
    case Transport => 6
    case Housing => 7
    case Land => 8
    case General => 9
  }

  /** The keyword lists, in the order of `Departments`. */
  const KeywordTable: seq<seq<string>> := [
    ["water", "pipe", "leak", "tap", "supply", "drainage", "sewage", "flood"],
    ["electricity", "power", "outage", "blackout", "voltage", "electric", "light", "transformer"],
    ["road", "street", "pothole", "highway", "traffic", "signal", "construction", "bridge"],
    ["garbage", "waste", "trash", "clean", "sanitation", "dump", "collection"],
    ["hospital", "clinic", "health", "medical", "doctor", "disease", "treatment"],
    ["school", "college", "education", "university", "teacher", "student", "classroom"],
    ["bus", "train", "transport", "metro", "vehicle", "schedule", "delay"],
    ["house", "apartment", "building", "lease", "rent", "construction", "roof"],
    ["land", "property", "ownership", "survey", "title", "deed", "encroachment"],
    ["general", "administration", "complaint", "government", "official", "corruption"]
  ]

  function Keywords(d: Department): seq<string> {
    KeywordTable[Index(d)]
  }

  lemma IndexOfDepartments(i: nat)
    requires i < |Departments|
    ensures Index(Departments[i]) == i
  {
  }

  predicate NoDuplicates(xs: seq<string>) {
    forall a, b :: 0 <= a < b < |xs| ==> xs[a] != xs[b]
  }

  /** The keywords of `ks` that occur in `lower`, in list order. */
  function Matched(lower: string, ks: seq<string>): (r: seq<string>)
    ensures |r| <= |ks|
    ensures forall x :: x in r <==> x in ks && Contains(lower, x)
  {
    if ks == [] then []
    else (if Contains(lower, ks[0]) then [ks[0]] else []) + Matched(lower, ks[1..])
  }

  /** `count` after the inner `forEach` over the keyword list `ks`. */
  function Count(lower: string, ks: seq<string>): nat {
    |Matched(lower, ks)|
  }

  function KeywordCount(lower: string, d: Department): nat {
    Count(lower, Keywords(d))
  }

  /** The tag list after pushing each of `xs` that is not already present. */
  function AddTags(tags: seq<string>, xs: seq<string>): (r: seq<string>)
    ensures |tags| <= |r| && r[..|tags|] == tags
    ensures forall x :: x in r <==> x in tags || x in xs
    ensures NoDuplicates(tags) ==> NoDuplicates(r)
    decreases |xs|
  {
    if xs == [] then tags
    else AddTags(if xs[0] in tags then tags else tags + [xs[0]], xs[1..])
  }

  /** The position of the first occurrence of `x` in `xs`. */
  function FirstIndex(xs: seq<string>, x: string): (r: nat)
    requires x in xs
    ensures r < |xs| && xs[r] == x
    ensures forall k :: 0 <= k < r ==> xs[k] != x
  {
    if xs[0] == x then 0 else 1 + FirstIndex(xs[1..], x)
  }

  /** Each element of `xs` once, at its first occurrence, in order: an
      ordering of the tags stated without reference to the loop. */
  function KeepFirst(xs: seq<string>): (r: seq<string>)
    ensures NoDuplicates(r)
    ensures forall x :: x in r <==> x in xs
    decreases |xs|
  {
    if xs == [] then []
    else
      var init, last := xs[..|xs| - 1], xs[|xs| - 1];
      assert xs == init + [last];
      KeepFirst(init) + (if last in init then [] else [last])
  }

  /** The kept elements follow the order of their first occurrences. */
  lemma {:induction false} KeepFirstOrdered(xs: seq<string>)
    ensures forall i, j :: 0 <= i < j < |KeepFirst(xs)| ==>
      FirstIndex(xs, KeepFirst(xs)[i]) < FirstIndex(xs, KeepFirst(xs)[j])
    decreases |xs|
  {
    if xs != [] {
      var init, last := xs[..|xs| - 1], xs[|xs| - 1];
      var p := KeepFirst(init);
      KeepFirstOrdered(init);
      assert xs == init + [last];
      forall i | 0 <= i < |p| ensures FirstIndex(xs, p[i]) == FirstIndex(init, p[i]) {
        FirstIndexSnoc(init, last, p[i]);
      }
      if last !in init {
        FirstIndexNew(init, last);
      }
    }
  }

  lemma FirstIndexSnoc(init: seq<string>, last: string, x: string)
    requires x in init
    ensures FirstIndex(init + [last], x) == FirstIndex(init, x)
  {
    assert (init + [last])[FirstIndex(init, x)] == x;
  }

  lemma FirstIndexNew(init: seq<string>, last: string)
    requires last !in init
    ensures FirstIndex(init + [last], last) == |init|
  {
  }

  /** Adding `xs` to the tags of a list gives the tags of the longer list. */
  lemma {:induction false} AddTagsIsKeepFirst(ys: seq<string>, xs: seq<string>)
    ensures AddTags(KeepFirst(ys), xs) == KeepFirst(ys + xs)
    decreases |xs|
  {
    if xs == [] {
      assert ys + xs == ys;
    } else {
      var x := xs[0];
      calc {
        AddTags(KeepFirst(ys), xs);
        { AddTagsCons(KeepFirst(ys), xs); }
        AddTags(if x in KeepFirst(ys) then KeepFirst(ys) else KeepFirst(ys) + [x], xs[1..]);
        { KeepFirstSnoc(ys, x); }
        AddTags(KeepFirst(ys + [x]), xs[1..]);
        { AddTagsIsKeepFirst(ys + [x], xs[1..]); }
        KeepFirst(ys + [x] + xs[1..]);
        { assert ys + [x] + xs[1..] == ys + xs; }
        KeepFirst(ys + xs);
      }
    }
  }

  lemma AddTagsCons(tags: seq<string>, xs: seq<string>)
    requires xs != []
    ensures AddTags(tags, xs) == AddTags(if xs[0] in tags then tags else tags + [xs[0]], xs[1..])
  {
  }

  lemma KeepFirstSnoc(ys: seq<string>, x: string)
    ensures KeepFirst(ys + [x]) == if x in KeepFirst(ys) then KeepFirst(ys) else KeepFirst(ys) + [x]
  {
    assert (ys + [x])[..|ys|] == ys;
    assert KeepFirst(ys) + [] == KeepFirst(ys);
  }

  /** The tags of all the lists are the first occurrences in their
      concatenation. */
  lemma TagsAreKeepFirst(ms: seq<seq<string>>)
    ensures TagsUpTo(ms, |ms|) == KeepFirst(Flatten(ms))
  {
    TagsUpToIsKeepFirst(ms, |ms|);
    assert ms[..|ms|] == ms;
  }

  /** The lists of `ms` one after another. */
  function Flatten(ms: seq<seq<string>>): seq<string>
    decreases |ms|
  {
    if ms == [] then [] else Flatten(ms[..|ms| - 1]) + ms[|ms| - 1]
  }

  /** The tags after `n` departments are the first occurrences in their
      matched keywords taken in department order. */
  lemma {:induction false} TagsUpToIsKeepFirst(ms: seq<seq<string>>, n: nat)
    requires n <= |ms|
    ensures TagsUpTo(ms, n) == KeepFirst(Flatten(ms[..n]))
  {
    if n > 0 {
      TagsUpToIsKeepFirst(ms, n - 1);
      assert ms[..n][..n - 1] == ms[..n - 1];
      assert Flatten(ms[..n]) == Flatten(ms[..n - 1]) + ms[n - 1];
      AddTagsIsKeepFirst(Flatten(ms[..n - 1]), ms[n - 1]);
    }
  }

  /** The keywords of each list of `table` that occur in `lower`. Whether a
      keyword matches depends only on the text and the keyword, so the
      matches of every department can be taken before the scan over them. */
  function MatchedLists(lower: string, table: seq<seq<string>>): (ms: seq<seq<string>>)
    ensures |ms| == |table|
    ensures forall i :: 0 <= i < |table| ==> ms[i] == Matched(lower, table[i])
  {
    seq(|table|, i requires 0 <= i < |table| => Matched(lower, table[i]))
  }

  /** The outer `forEach` keeps `bestMatch` and `highestCount` on one side and
      `tags` on the other; neither influences the other, so each is given as
      a function of the number of departments processed, over the matched
      keywords `ms` of each department. */
  datatype Best = Best(best: nat, highest: nat)

  /** `bestMatch` (as an index) and `highestCount` after the first `n`
      departments, starting from the department `fallback`. */
  function BestUpTo(ms: seq<seq<string>>, fallback: nat, n: nat): Best
    requires n <= |ms|
  {
    if n == 0 then Best(fallback, 0)
    else
      var prev := BestUpTo(ms, fallback, n - 1);
      var count := |ms[n - 1]|;
      if count > prev.highest then Best(n - 1, count) else prev
  }

  /** `tags` after the first `n` departments. */
  function TagsUpTo(ms: seq<seq<string>>, n: nat): seq<string>
    requires n <= |ms|
  {
    if n == 0 then [] else AddTags(TagsUpTo(ms, n - 1), ms[n - 1])
  }

  /** What the loop keeps about the first `n` departments: `best` is the first
      one with the highest count, that count bounds all of theirs, and with
      no match the starting department is kept. */
  predicate IsBest(ms: seq<seq<string>>, fallback: nat, n: nat, st: Best)
    requires n <= |ms|
  {
    && (forall i :: 0 <= i < n ==> |ms[i]| <= st.highest)
    && (st.highest == 0 ==> st.best == fallback)
    && (st.highest > 0 ==>
          st.best < n && |ms[st.best]| == st.highest
          && forall i :: 0 <= i < st.best ==> |ms[i]| < st.highest)
  }

  lemma {:induction false} ScanIsBest(ms: seq<seq<string>>, fallback: nat, n: nat)
    requires n <= |ms|
    ensures IsBest(ms, fallback, n, BestUpTo(ms, fallback, n))
  {
    if n > 0 {
      ScanIsBest(ms, fallback, n - 1);
      var prev := BestUpTo(ms, fallback, n - 1);
      if |ms[n - 1]| > prev.highest {
        assert BestUpTo(ms, fallback, n) == Best(n - 1, |ms[n - 1]|);
      } else {
        assert BestUpTo(ms, fallback, n) == prev;
      }
    }
  }

  /** After the first `n` departments, the best one is the first among them
      with the highest count, and that count bounds all of theirs. */
  lemma ScanBest(ms: seq<seq<string>>, fallback: nat, n: nat)
    requires n <= |ms|
    ensures forall i :: 0 <= i < n ==> |ms[i]| <= BestUpTo(ms, fallback, n).highest
    ensures BestUpTo(ms, fallback, n).highest == 0 ==> BestUpTo(ms, fallback, n).best == fallback
    ensures BestUpTo(ms, fallback, n).highest > 0 ==>
      BestUpTo(ms, fallback, n).best < n
      && |ms[BestUpTo(ms, fallback, n).best]| == BestUpTo(ms, fallback, n).highest
      && forall i :: 0 <= i < BestUpTo(ms, fallback, n).best ==> |ms[i]| < BestUpTo(ms, fallback, n).highest
  {
    ScanIsBest(ms, fallback, n);
  }

  /** `t` is among the matched keywords of one of the first `n` departments. */
  predicate OccursInFirst(ms: seq<seq<string>>, n: nat, t: string)
    requires n <= |ms|
  {
    n > 0 && (t in ms[n - 1] || OccursInFirst(ms, n - 1, t))
  }

  lemma {:induction false} OccursInFirstMeans(ms: seq<seq<string>>, n: nat, t: string)
    requires n <= |ms|
    ensures OccursInFirst(ms, n, t) <==> exists i :: 0 <= i < n && t in ms[i]
  {
    if n > 0 {
      OccursInFirstMeans(ms, n - 1, t);
      if t in ms[n - 1] {
        assert 0 <= n - 1 < n && t in ms[n - 1];
      }
    }
  }

  lemma {:induction false} TagsAreOccurring(ms: seq<seq<string>>, n: nat)
    requires n <= |ms|
    ensures NoDuplicates(TagsUpTo(ms, n))
    ensures forall t :: t in TagsUpTo(ms, n) <==> OccursInFirst(ms, n, t)
  {
    if n > 0 {
      TagsAreOccurring(ms, n - 1);
    }
  }

  /** After the first `n` departments, the tags are exactly their matched
      keywords, each once. */
  lemma ScanTags(ms: seq<seq<string>>, n: nat)
    requires n <= |ms|
    ensures NoDuplicates(TagsUpTo(ms, n))
    ensures forall t :: t in TagsUpTo(ms, n) <==> exists i :: 0 <= i < n && t in ms[i]
  {
    TagsAreOccurring(ms, n);
    forall t ensures OccursInFirst(ms, n, t) <==> exists i :: 0 <= i < n && t in ms[i] {
      OccursInFirstMeans(ms, n, t);
    }
  }

  /** While no department has matched, no tag has been collected. */
  lemma NoMatchNoTags(ms: seq<seq<string>>, fallback: nat, n: nat)
    requires n <= |ms|
    ensures BestUpTo(ms, fallback, n).highest == 0 ==> TagsUpTo(ms, n) == []
  {
    ScanBest(ms, fallback, n);
    ScanTags(ms, n);
  }

  function Min(a: real, b: real): real { if a < b then a else b }

  /** `Math.min(highestCount / 5, 1)`, or 0.3 when nothing matched. */
  function Confidence(highest: nat): (c: real)
    ensures 0.0 < c <= 1.0
    ensures highest == 0 ==> c == 0.3
    ensures highest > 0 ==> c * 5.0 == Min(5.0, highest as real)
  {
    if highest > 0 then Min(1.0, highest as real / 5.0) else 0.3
  }

  /** `classifyComplaint(text)` on its normal path. */
  function ClassifyComplaint(text: string): (r: ClassificationResult)
    ensures forall d :: KeywordCount(Lower(text), d) <= KeywordCount(Lower(text), r.department)
    ensures KeywordCount(Lower(text), r.department) > 0 ==>
      forall i :: 0 <= i < Index(r.department) ==>
        KeywordCount(Lower(text), Departments[i]) < KeywordCount(Lower(text), r.department)
    ensures KeywordCount(Lower(text), r.department) == 0 ==> r == ClassificationResult(General, 0.3, [])
    ensures KeywordCount(Lower(text), r.department) > 0 ==>
      r.confidence * 5.0 == Min(5.0, KeywordCount(Lower(text), r.department) as real)
    ensures 0.0 < r.confidence <= 1.0
    ensures NoDuplicates(r.tags)
    ensures forall t :: t in r.tags <==> exists d :: t in Keywords(d) && Contains(Lower(text), t)
    ensures r.tags == KeepFirst(Flatten(MatchedLists(Lower(text), KeywordTable)))
  {
    var lower := Lower(text);
    var ms := MatchedLists(lower, KeywordTable);
    var st := BestUpTo(ms, Index(General), |ms|);
    var tags := TagsUpTo(ms, |ms|);
    var confidence := Confidence(st.highest);
    ScanBest(ms, Index(General), |ms|);
    ScanTags(ms, |ms|);
    NoMatchNoTags(ms, Index(General), |ms|);
    FullScanCounts(lower, ms, st);
    FullScanTags(lower, ms, tags);
    TagsAreKeepFirst(ms);
    ClassificationResult(Departments[st.best], confidence, tags)
  }

  /** The counts of the full scan, restated per department. */
  lemma FullScanCounts(lower: string, ms: seq<seq<string>>, st: Best)
    requires ms == MatchedLists(lower, KeywordTable)
    requires st.best < |Departments|
    requires forall i :: 0 <= i < |ms| ==> |ms[i]| <= st.highest
    requires st.highest > 0 ==> |ms[st.best]| == st.highest
    requires st.highest > 0 ==> forall i :: 0 <= i < st.best ==> |ms[i]| < st.highest
    ensures Index(Departments[st.best]) == st.best
    ensures forall d :: KeywordCount(lower, d) <= st.highest
    ensures st.highest > 0 ==> KeywordCount(lower, Departments[st.best]) == st.highest
    ensures st.highest > 0 ==> forall i :: 0 <= i < st.best ==> KeywordCount(lower, Departments[i]) < st.highest
  {
    IndexOfDepartments(st.best);
    forall i | 0 <= i < |Departments| ensures KeywordCount(lower, Departments[i]) == |ms[i]| {
      IndexOfDepartments(i);
    }
  }

  /** The tags of the full scan, restated per department. */
  lemma FullScanTags(lower: string, ms: seq<seq<string>>, tags: seq<string>)
    requires ms == MatchedLists(lower, KeywordTable)
    requires forall t :: t in tags <==> exists i :: 0 <= i < |ms| && t in ms[i]
    ensures forall t :: t in tags <==> exists d :: t in Keywords(d) && Contains(lower, t)
  {
    forall t ensures t in tags <==> exists d :: t in Keywords(d) && Contains(lower, t) {
      if t in tags {
        var i :| 0 <= i < |ms| && t in ms[i];
        IndexOfDepartments(i);
        assert t in Keywords(Departments[i]);
      }
      forall d | t in Keywords(d) && Contains(lower, t) ensures t in tags {
        assert t in ms[Index(d)];
      }
    }
  }

  /** What the `catch` branch returns. */
  const ClassificationFallback := ClassificationResult(General, 0.0, [])

  /** A keyword shared by two departments ("construction" is listed for both
      roads and housing) counts for both but is tagged once. */
  lemma SharedKeyword(text: string)
    requires Contains(Lower(text), "construction")
    ensures KeywordCount(Lower(text), Roads) > 0 && KeywordCount(Lower(text), Housing) > 0
    ensures "construction" in ClassifyComplaint(text).tags
    ensures multiset(ClassifyComplaint(text).tags)["construction"] == 1
  {
    var lower := Lower(text);
    assert "construction" in Keywords(Roads);
    assert "construction" in Matched(lower, Keywords(Roads));
    assert "construction" in Keywords(Housing);
    assert "construction" in Matched(lower, Keywords(Housing));
    NoDuplicatesOnce(ClassifyComplaint(text).tags, "construction");
  }

  lemma {:induction false} NoDuplicatesOnce(xs: seq<string>, x: string)
    requires NoDuplicates(xs) && x in xs
    ensures multiset(xs)[x] == 1
    decreases |xs|
  {
    assert xs == [xs[0]] + xs[1..];
    if xs[0] == x {
      assert x !in xs[1..];
    } else {
      NoDuplicatesOnce(xs[1..], x);
    }
  }

  /** The elements of a list, as a set. */
  function Elements(xs: seq<string>): set<string> {
    set x | x in xs
  }

  lemma {:induction false} DistinctListSize(xs: seq<string>)
    requires NoDuplicates(xs)
    ensures |Elements(xs)| == |xs|
    decreases |xs|
  {
    if xs != [] {
      DistinctListSize(xs[1..]);
      assert Elements(xs) == {xs[0]} + Elements(xs[1..]);
      assert xs[0] !in Elements(xs[1..]);
    } else {
      assert Elements(xs) == {};
    }
  }

  lemma {:induction false} MatchedKeepsDistinct(lower: string, ks: seq<string>)
    requires NoDuplicates(ks)
    ensures NoDuplicates(Matched(lower, ks))
    decreases |ks|
  {
    if ks != [] {
      MatchedKeepsDistinct(lower, ks[1..]);
      assert ks[0] !in ks[1..];
    }
  }

  /** The keywords of `ks` that occur in `lower`. */
  function Occurring(lower: string, ks: seq<string>): set<string> {
    set k | k in ks && Contains(lower, k)
  }

  /** Counting over a list without repeats counts distinct occurring keywords. */
  lemma MatchedCountsDistinct(lower: string, ks: seq<string>)
    requires NoDuplicates(ks)
    ensures Count(lower, ks) == |Occurring(lower, ks)|
  {
    MatchedKeepsDistinct(lower, ks);
    DistinctListSize(Matched(lower, ks));
    assert Elements(Matched(lower, ks)) == Occurring(lower, ks);
  }

  /** No keyword list repeats a keyword. */
  lemma KeywordListsDistinct(d: Department)
    ensures NoDuplicates(Keywords(d))
  {
    match d
    case Water => assert NoDuplicates(KeywordTable[0]);
    case Electricity => assert NoDuplicates(KeywordTable[1]);
    case Roads => assert NoDuplicates(KeywordTable[2]);
    case Sanitation => assert NoDuplicates(KeywordTable[3]);
    case PublicHealth => assert NoDuplicates(KeywordTable[4]);
    case Education => assert NoDuplicates(KeywordTable[5]);
    case Transport => assert NoDuplicates(KeywordTable[6]);
    case Housing => assert NoDuplicates(KeywordTable[7]);
    case Land => assert NoDuplicates(KeywordTable[8]);
    case General => assert NoDuplicates(KeywordTable[9]);
  }

  lemma CountAtMostCovering(lower: string, ks: seq<string>, tags: seq<string>)
    requires NoDuplicates(ks) && NoDuplicates(tags)
    requires forall k :: k in ks && Contains(lower, k) ==> k in tags
    ensures Count(lower, ks) <= |tags|
  {
    MatchedCountsDistinct(lower, ks);
    DistinctListSize(tags);
    var a, b := Occurring(lower, ks), Elements(tags);
    assert a <= b;
    assert b == a + (b - a);
    assert a * (b - a) == {};
  }

  /** The winner's keywords are all among the tags, so its count is at most
      the number of tags. */
  lemma WinnerCountAtMostTags(text: string)
    ensures KeywordCount(Lower(text), ClassifyComplaint(text).department) <= |ClassifyComplaint(text).tags|
  {
    var r := ClassifyComplaint(text);
    var ks := Keywords(r.department);
    KeywordListsDistinct(r.department);
    forall k | k in ks && Contains(Lower(text), k) ensures k in r.tags {
      assert k in Keywords(r.department);
    }
    CountAtMostCovering(Lower(text), ks, r.tags);
  }

  /** Keywords match as substrings: "watering" counts for water. */
  lemma SubstringsMatch()
    ensures KeywordCount(Lower("Watering"), Water) > 0
  {
    LowerWatering();
    assert OccursAt("watering", "water", 0);
    assert "water" in Keywords(Water);
    assert "water" in Matched("watering", Keywords(Water));
  }

  lemma LowerWatering()
    ensures Lower("Watering") == "watering"
  {
    assert LowerChar('W') == 'w';
  }
}
