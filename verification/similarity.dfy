/** Duplicate detection (`src/services/nlp/similarityDetection.ts`): the
    Jaccard similarity of word sets (lower-cased whitespace-separated tokens
    longer than three characters) between the new text and each existing
    complaint; complaints more than 30% similar are kept, newest first. */
module SimilarityDetection {
  import opened Text

  /** `ComplaintSummary`; `createdAt` is the date's millisecond time value. */
  datatype ComplaintSummary = ComplaintSummary(id: string, text: string, department: string, status: string, createdAt: int)

  datatype SimilarityResult = SimilarityResult(similarComplaints: seq<ComplaintSummary>, highestSimilarityScore: real)

  /** `new Set(text.toLowerCase().split(/\s+/).filter(word => word.length > 3))` */
  function WordSet(text: string): (r: set<string>)
    ensures forall w :: w in r ==> |w| > 3 && NoWhitespace(w) && Lower(w) == w
  {
    LowerIdempotent(text);
    SplitOfLower(Lower(text));
    set w | w in Split(Lower(text)) && |w| > 3
  }

  /** Writing one more word after a blank adds its lower-cased form to the
      word set when it is longer than three characters, and nothing else. */
  lemma WordSetAppendWord(text: string, w: string)
    requires |w| > 0 && NoWhitespace(w)
    ensures WordSet(text + " " + w) == WordSet(text) + (if |w| > 3 then {Lower(w)} else {})
  {
    var lw := Lower(w);
    LowerAppendWord(text, w);
    assert NoWhitespace(lw) by {
      forall k | 0 <= k < |lw| ensures !IsWhitespace(lw[k]) {
        assert !IsWhitespace(w[k]);
      }
    }
    var ps := Split(Lower(text));
    SplitAppendWord(Lower(text), lw);
    var qs := Split(Lower(text + " " + w));
    assert qs == DropEmptyLast(ps) + [lw];
    DropEmptyLastKeeps(ps);
    var extra := if |w| > 3 then {lw} else {};
    forall x ensures x in WordSet(text + " " + w) <==> x in WordSet(text) + extra {
      InWordSet(text + " " + w, x);
      InWordSet(text, x);
      assert x in qs <==> x in DropEmptyLast(ps) || x == lw;
    }
  }

  lemma InWordSet(text: string, x: string)
    ensures x in WordSet(text) <==> x in Split(Lower(text)) && |x| > 3
  {
  }

  /** Dropping a trailing empty piece keeps every non-empty piece. */
  lemma DropEmptyLastKeeps(ps: seq<string>)
    ensures forall x :: x != [] ==> (x in DropEmptyLast(ps) <==> x in ps)
  {
    if |ps| > 1 && ps[|ps| - 1] == [] {
      assert ps == ps[..|ps| - 1] + [[]];
    }
  }

  /** `commonWords / totalUniqueWords`, or 0 when both sets are empty. The loop
      counting `commonWords` counts the words of `a` that are also in `b`. */
  function Jaccard(a: set<string>, b: set<string>): (r: real)
    ensures 0.0 <= r <= 1.0
    ensures r == 1.0 <==> a == b && a != {}
    ensures r > 0.0 <==> a * b != {}
    ensures a + b != {} ==> r * (|a + b| as real) == |a * b| as real
    ensures a + b == {} ==> r == 0.0
  {
    var common := |a * b|;
    var total := |a + b|;
    JaccardBounds(a, b);
    RatioFacts(common, total);
    EmptyUnionSize(a, b);
    Ratio(common, total)
  }

  /** `c / t` for `t > 0`, and 0 otherwise. */
  function Ratio(c: nat, t: nat): real {
    if t > 0 then c as real / t as real else 0.0
  }

  lemma RatioFacts(c: nat, t: nat)
    requires c <= t
    ensures 0.0 <= Ratio(c, t) <= 1.0
    ensures Ratio(c, t) == 1.0 <==> t > 0 && c == t
    ensures Ratio(c, t) > 0.0 <==> c > 0
    ensures t > 0 ==> Ratio(c, t) * t as real == c as real
    ensures t == 0 ==> Ratio(c, t) == 0.0
  {
    if t > 0 {
      var r := c as real / t as real;
      assert r * t as real == c as real;
      if r == 1.0 {
        assert c as real == t as real;
      }
    }
  }

  lemma EmptyUnionSize(a: set<string>, b: set<string>)
    ensures |a + b| == 0 <==> a + b == {}
  {
  }

  lemma SubsetSize(x: set<string>, y: set<string>)
    requires x <= y
    ensures |x| <= |y|
    ensures |x| == |y| ==> x == y
  {
    assert y == x + (y - x);
    assert x * (y - x) == {};
    if |x| == |y| {
      assert |y - x| == 0;
    }
  }

  lemma JaccardBounds(a: set<string>, b: set<string>)
    ensures |a * b| <= |a + b|
    ensures |a * b| == |a + b| && a + b != {} <==> a == b && a != {}
    ensures a * b != {} ==> |a * b| > 0
  {
    SubsetSize(a * b, a + b);
    if a == b && a != {} {
      assert a * b == a + b;
    }
    if |a * b| == |a + b| && a + b != {} {
      assert a * b == a + b;
      assert a <= b && b <= a;
    }
    if a * b != {} {
      var w :| w in a * b;
      assert w in a * b;
    }
  }

  /** The similarity of the new text's words to one existing complaint. */
  function Similarity(words: set<string>, c: ComplaintSummary): real {
    Jaccard(words, WordSet(c.text))
  }

  /** The comparison is strict: a similarity of exactly 0.3 is not kept. */
  predicate IsSimilar(words: set<string>, c: ComplaintSummary) {
    Similarity(words, c) > 0.3
  }

  function Max(a: real, b: real): real { if a < b then b else a }

  /** The state of the `for` loop over the first complaints: the complaints
      pushed so far, in corpus order, and the running maximum. */
  datatype ScanState = ScanState(kept: seq<ComplaintSummary>, highest: real)

  function Scan(words: set<string>, cs: seq<ComplaintSummary>): ScanState
    decreases |cs|
  {
    if cs == [] then ScanState([], 0.0)
    else
      var prev := Scan(words, cs[..|cs| - 1]);
      var c := cs[|cs| - 1];
      if IsSimilar(words, c) then ScanState(prev.kept + [c], Max(prev.highest, Similarity(words, c)))
      else prev
  }

  /** The loop keeps exactly the similar complaints, each as often as the corpus holds it. */
  lemma {:induction false} ScanKeeps(words: set<string>, cs: seq<ComplaintSummary>)
    ensures forall c :: multiset(Scan(words, cs).kept)[c] == (if IsSimilar(words, c) then multiset(cs)[c] else 0)
    decreases |cs|
  {
    if cs != [] {
      var init, last := cs[..|cs| - 1], cs[|cs| - 1];
      ScanKeeps(words, init);
      assert cs == init + [last];
    }
  }

  /** The running maximum is the largest similarity among the kept complaints,
      or 0 when none is kept. */
  lemma {:induction false} ScanHighest(words: set<string>, cs: seq<ComplaintSummary>)
    ensures Scan(words, cs).kept == [] <==> Scan(words, cs).highest == 0.0
    ensures forall c :: c in Scan(words, cs).kept ==> Similarity(words, c) <= Scan(words, cs).highest
    ensures Scan(words, cs).kept != [] ==>
      exists c :: c in Scan(words, cs).kept && Similarity(words, c) == Scan(words, cs).highest
    ensures Scan(words, cs).highest == 0.0 || 0.3 < Scan(words, cs).highest <= 1.0
    decreases |cs|
  {
    if cs != [] {
      var init, last := cs[..|cs| - 1], cs[|cs| - 1];
      ScanHighest(words, init);
      var prev, r := Scan(words, init), Scan(words, cs);
      if IsSimilar(words, last) {
        assert r.kept == prev.kept + [last];
        assert last in r.kept;
        forall c | c in r.kept ensures Similarity(words, c) <= r.highest {
          if c != last {
            assert c in prev.kept;
          }
        }
        if Similarity(words, last) < prev.highest {
          var c :| c in prev.kept && Similarity(words, c) == prev.highest;
          assert c in r.kept;
        }
      }
    }
  }

  // ---------------------------------------------------------------------------
  // `sort((a, b) => b.createdAt.getTime() - a.createdAt.getTime())`
  // ---------------------------------------------------------------------------

  /** Newest first. */
  predicate SortedNewestFirst(s: seq<ComplaintSummary>) {
    forall i, j :: 0 <= i < j < |s| ==> s[i].createdAt >= s[j].createdAt
  }

  /** Places `x` after every element at least as new, before the first older one. */
  function Insert(x: ComplaintSummary, s: seq<ComplaintSummary>): (r: seq<ComplaintSummary>)
    ensures multiset(r) == multiset(s) + multiset{x}
  {
    if s == [] || s[0].createdAt < x.createdAt then [x] + s
    else
      assert s == [s[0]] + s[1..];
      [s[0]] + Insert(x, s[1..])
  }

  /** Everything in `s` is at most as new as `t`. */
  predicate NoNewerThan(s: seq<ComplaintSummary>, t: int) {
    forall k :: 0 <= k < |s| ==> s[k].createdAt <= t
  }

  lemma {:induction false} InsertSorted(x: ComplaintSummary, s: seq<ComplaintSummary>, t: int)
    requires SortedNewestFirst(s)
    ensures SortedNewestFirst(Insert(x, s))
    ensures NoNewerThan(s, t) && x.createdAt <= t ==> NoNewerThan(Insert(x, s), t)
    decreases |s|
  {
    if s == [] || s[0].createdAt < x.createdAt {
      assert Insert(x, s) == [x] + s;
    } else {
      var rest := Insert(x, s[1..]);
      assert SortedNewestFirst(s[1..]);
      InsertSorted(x, s[1..], s[0].createdAt);
      InsertSorted(x, s[1..], t);
      assert NoNewerThan(s[1..], s[0].createdAt);
      assert Insert(x, s) == [s[0]] + rest;
    }
  }

  /** Insertion sort, taking the elements in list order; the comparator
      orders by time only, and `Array.prototype.sort` is stable. */
  function SortNewestFirst(xs: seq<ComplaintSummary>): (r: seq<ComplaintSummary>)
    ensures multiset(r) == multiset(xs)
    ensures SortedNewestFirst(r)
    decreases |xs|
  {
    if xs == [] then []
    else
      var init, last := xs[..|xs| - 1], xs[|xs| - 1];
      assert xs == init + [last];
      InsertSorted(last, SortNewestFirst(init), last.createdAt);
      Insert(last, SortNewestFirst(init))
  }

  /** The elements of `s` created at time `t`, in order. */
  function CreatedAt(s: seq<ComplaintSummary>, t: int): seq<ComplaintSummary>
    decreases |s|
  {
    if s == [] then []
    else (if s[0].createdAt == t then [s[0]] else []) + CreatedAt(s[1..], t)
  }

  lemma {:induction false} CreatedAtAppend(a: seq<ComplaintSummary>, b: seq<ComplaintSummary>, t: int)
    ensures CreatedAt(a + b, t) == CreatedAt(a, t) + CreatedAt(b, t)
    decreases |a|
  {
    if a == [] {
      assert a + b == b;
    } else {
      var head := if a[0].createdAt == t then [a[0]] else [];
      assert (a + b)[0] == a[0] && (a + b)[1..] == a[1..] + b;
      CreatedAtAppend(a[1..], b, t);
      assert head + (CreatedAt(a[1..], t) + CreatedAt(b, t))
          == (head + CreatedAt(a[1..], t)) + CreatedAt(b, t);
    }
  }

  /** In a sorted list, inserting `x` puts it after every element of its own time. */
  lemma {:induction false} InsertCreatedAt(x: ComplaintSummary, s: seq<ComplaintSummary>, t: int)
    requires SortedNewestFirst(s)
    ensures CreatedAt(Insert(x, s), t) == CreatedAt(s, t) + (if x.createdAt == t then [x] else [])
    decreases |s|
  {
    var tail := if x.createdAt == t then [x] else [];
    if s == [] || s[0].createdAt < x.createdAt {
      InsertFrontCreatedAt(x, s, t);
    } else {
      var head := if s[0].createdAt == t then [s[0]] else [];
      SortedTail(s);
      InsertCreatedAt(x, s[1..], t);
      InsertBehind(x, s);
      CreatedAtCons(s[0], Insert(x, s[1..]), t);
      AppendAssoc(head, CreatedAt(s[1..], t), tail);
    }
  }

  lemma InsertFrontCreatedAt(x: ComplaintSummary, s: seq<ComplaintSummary>, t: int)
    requires SortedNewestFirst(s)
    requires s == [] || s[0].createdAt < x.createdAt
    ensures CreatedAt(Insert(x, s), t) == CreatedAt(s, t) + (if x.createdAt == t then [x] else [])
  {
    var tail := if x.createdAt == t then [x] else [];
    assert Insert(x, s) == [x] + s;
    CreatedAtCons(x, s, t);
    if x.createdAt == t {
      NoneCreatedAt(s, t);
    }
    assert tail + CreatedAt(s, t) == CreatedAt(s, t) + tail;
  }

  lemma InsertBehind(x: ComplaintSummary, s: seq<ComplaintSummary>)
    requires s != [] && s[0].createdAt >= x.createdAt
    ensures Insert(x, s) == [s[0]] + Insert(x, s[1..])
  {
  }

  lemma AppendAssoc<T>(a: seq<T>, b: seq<T>, c: seq<T>)
    ensures a + (b + c) == (a + b) + c
  {
  }

  lemma CreatedAtCons(h: ComplaintSummary, s: seq<ComplaintSummary>, t: int)
    ensures CreatedAt([h] + s, t) == (if h.createdAt == t then [h] else []) + CreatedAt(s, t)
  {
    assert ([h] + s)[1..] == s;
  }

  lemma SortedTail(s: seq<ComplaintSummary>)
    requires SortedNewestFirst(s) && s != []
    ensures SortedNewestFirst(s[1..])
  {
  }

  /** A sorted list whose first element is older than `t` holds nothing from time `t`. */
  lemma {:induction false} NoneCreatedAt(s: seq<ComplaintSummary>, t: int)
    requires SortedNewestFirst(s)
    requires s != [] ==> s[0].createdAt < t
    ensures CreatedAt(s, t) == []
    decreases |s|
  {
    if s != [] {
      assert SortedNewestFirst(s[1..]);
      assert s[1..] != [] ==> s[1..][0].createdAt <= s[0].createdAt;
      NoneCreatedAt(s[1..], t);
    }
  }

  /** The sort is stable: complaints created at the same time keep their order. */
  lemma {:induction false} SortIsStable(xs: seq<ComplaintSummary>, t: int)
    ensures CreatedAt(SortNewestFirst(xs), t) == CreatedAt(xs, t)
    decreases |xs|
  {
    if xs != [] {
      var init, last := xs[..|xs| - 1], xs[|xs| - 1];
      SortIsStable(init, t);
      InsertCreatedAt(last, SortNewestFirst(init), t);
      assert xs == init + [last];
      CreatedAtAppend(init, [last], t);
    }
  }

  /** `findSimilarComplaints(text, existingComplaints)` on its normal path. */
  function FindSimilarComplaints(text: string, existing: seq<ComplaintSummary>): (r: SimilarityResult)
    ensures forall c ::
      multiset(r.similarComplaints)[c] == (if IsSimilar(WordSet(text), c) then multiset(existing)[c] else 0)
    ensures SortedNewestFirst(r.similarComplaints)
    ensures r.similarComplaints == [] <==> r.highestSimilarityScore == 0.0
    ensures forall c :: c in r.similarComplaints ==> Similarity(WordSet(text), c) <= r.highestSimilarityScore
    ensures r.similarComplaints != [] ==>
      exists c :: c in r.similarComplaints && Similarity(WordSet(text), c) == r.highestSimilarityScore
    ensures r.highestSimilarityScore == 0.0 || 0.3 < r.highestSimilarityScore <= 1.0
  {
    var words := WordSet(text);
    var st := Scan(words, existing);
    ScanKeeps(words, existing);
    ScanHighest(words, existing);
    var sorted := SortNewestFirst(st.kept);
    SameElements(sorted, st.kept);
    SimilarityResult(sorted, st.highest)
  }

  lemma SameElements(a: seq<ComplaintSummary>, b: seq<ComplaintSummary>)
    requires multiset(a) == multiset(b)
    ensures a == [] <==> b == []
    ensures forall c :: c in a <==> c in b
  {
    assert |a| == |multiset(a)| == |multiset(b)| == |b|;
    forall c ensures c in a <==> c in b {
      assert c in a <==> c in multiset(a);
      assert c in b <==> c in multiset(b);
    }
  }

  /** What the `catch` branch returns. */
  const SimilarityFallback := SimilarityResult([], 0.0)

  /** With nothing to compare against, nothing is similar. */
  lemma EmptyCorpus(text: string)
    ensures FindSimilarComplaints(text, []) == SimilarityResult([], 0.0)
  {
  }

  /** A complaint with the same non-empty word set is fully similar and kept. */
  lemma IdenticalWordsKept(text: string, existing: seq<ComplaintSummary>, c: ComplaintSummary)
    requires c in existing && WordSet(c.text) == WordSet(text) && WordSet(text) != {}
    ensures Similarity(WordSet(text), c) == 1.0
    ensures c in FindSimilarComplaints(text, existing).similarComplaints
    ensures FindSimilarComplaints(text, existing).highestSimilarityScore == 1.0
  {
    var r := FindSimilarComplaints(text, existing);
    assert multiset(r.similarComplaints)[c] == multiset(existing)[c];
  }
}
