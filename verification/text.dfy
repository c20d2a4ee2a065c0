/**
 * The JavaScript string primitives the analysis code is built from, stated
 * over `string` (a sequence of characters): the regular-expression class `\s`,
 * lower-casing, `includes`, `indexOf`, `replace` with a string and with a
 * global case-insensitive pattern, `split(/\s+/)` and `trim()`.
 */
module Text {
  import opened Wrappers

  /** The characters `\s` matches in an ECMAScript regular expression
      (WhiteSpace and LineTerminator); `trim()` strips the same set. */
  predicate IsWhitespace(c: char) {
    || c == '\t' || c == '\n' || c == '\U{000B}' || c == '\U{000C}' || c == '\r'
    || c == ' ' || c == '\U{00A0}' || c == '\U{1680}'
    || ('\U{2000}' <= c <= '\U{200A}')
    || c == '\U{2028}' || c == '\U{2029}' || c == '\U{202F}' || c == '\U{205F}'
    || c == '\U{3000}' || c == '\U{FEFF}'
  }

  predicate IsAscii(c: char) { c <= '\U{007F}' }

  predicate IsAsciiDigit(c: char) { '0' <= c <= '9' }

  predicate IsAsciiLetter(c: char) { 'a' <= c <= 'z' || 'A' <= c <= 'Z' }

  predicate NoWhitespace(t: string) {
    forall k :: 0 <= k < |t| ==> !IsWhitespace(t[k])
  }

  /** Lower-casing of one character; only the ASCII letters change. */
  function LowerChar(c: char): (r: char)
    ensures IsAscii(r) <==> IsAscii(c)
    ensures !IsAsciiLetter(c) ==> r == c
    ensures IsAsciiLetter(c) ==> 'a' <= r <= 'z'
    ensures 'A' <= c <= 'Z' ==> r as int == c as int + 32
    ensures 'a' <= c <= 'z' ==> r == c
  {
    if 'A' <= c <= 'Z' then (c as int + 32) as char else c
  }

  /** `toLowerCase()`, character by character. */
  function Lower(s: string): (r: string)
    ensures |r| == |s|
    ensures forall k :: 0 <= k < |s| ==> r[k] == LowerChar(s[k])
  {
    seq(|s|, k requires 0 <= k < |s| => LowerChar(s[k]))
  }

  /** Lower-casing twice is lower-casing once. */
  lemma LowerIdempotent(s: string)
    ensures Lower(Lower(s)) == Lower(s)
  {
    forall k | 0 <= k < |s| ensures Lower(Lower(s))[k] == Lower(s)[k] {
      LowerCharIdempotent(s[k]);
    }
  }

  lemma LowerCharIdempotent(c: char)
    ensures LowerChar(LowerChar(c)) == LowerChar(c)
  {
  }

  // ---------------------------------------------------------------------------
  // Exact substring search: `includes`, `indexOf`, `replace(string, string)`
  // ---------------------------------------------------------------------------

  predicate OccursAt(s: string, p: string, i: int) {
    0 <= i && i + |p| <= |s| && s[i..i + |p|] == p
  }

  /** `s.includes(p)` */
  predicate Contains(s: string, p: string) {
    exists i | 0 <= i <= |s| - |p| :: OccursAt(s, p, i)
  }

  /** The first occurrence of `p` in `s` at or after `from`. */
  function FindFrom(s: string, p: string, from: nat): (r: Option<nat>)
    ensures r.Some? ==> from <= r.value && OccursAt(s, p, r.value)
    ensures r.Some? ==> forall k :: from <= k < r.value ==> !OccursAt(s, p, k)
    ensures r.None? ==> forall k :: from <= k ==> !OccursAt(s, p, k)
    decreases |s| - from
  {
    if from + |p| > |s| then None
    else if OccursAt(s, p, from) then Some(from)
    else FindFrom(s, p, from + 1)
  }

  /** `s.indexOf(p)`, with `None` for -1. */
  function Find(s: string, p: string): (r: Option<nat>)
    ensures r.Some? <==> Contains(s, p)
    ensures r.Some? ==> OccursAt(s, p, r.value)
    ensures r.Some? ==> forall k :: 0 <= k < r.value ==> !OccursAt(s, p, k)
  {
    FindFrom(s, p, 0)
  }

  /** `s.replace(p, r)` with a string pattern: only the first occurrence changes. */
  function ReplaceFirst(s: string, p: string, r: string): string {
    match Find(s, p)
    case None => s
    case Some(i) => s[..i] + r + s[i + |p|..]
  }

  /** A pattern that starts the string is the one `replace` rewrites. */
  lemma ReplaceFirstAtStart(s: string, p: string, r: string)
    requires |p| <= |s| && s[..|p|] == p
    ensures ReplaceFirst(s, p, r) == r + s[|p|..]
  {
    assert OccursAt(s, p, 0);
    assert FindFrom(s, p, 0) == Some(0);
  }

  /** The replacement touches exactly the first occurrence: what lies before
      it and everything after it (later occurrences included) is kept. */
  lemma ReplaceFirstSpec(s: string, p: string, r: string)
    ensures !Contains(s, p) ==> ReplaceFirst(s, p, r) == s
    ensures Contains(s, p) ==>
      exists i :: OccursAt(s, p, i) && (forall k :: 0 <= k < i ==> !OccursAt(s, p, k))
        && ReplaceFirst(s, p, r) == s[..i] + r + s[i + |p|..]
  {
    if Contains(s, p) {
      var i := Find(s, p).value;
      assert OccursAt(s, p, i);
    }
  }

  // ---------------------------------------------------------------------------
  // Case-insensitive search: the `gi` regular expression of a literal phrase
  // ---------------------------------------------------------------------------

  predicate MatchCI(s: string, p: string, i: int) {
    0 <= i && i + |p| <= |s|
    && forall k :: 0 <= k < |p| ==> LowerChar(s[i + k]) == LowerChar(p[k])
  }

  predicate ContainsCI(s: string, p: string) {
    exists i | 0 <= i <= |s| - |p| :: MatchCI(s, p, i)
  }

  function FindCIFrom(s: string, p: string, from: nat): (r: Option<nat>)
    ensures r.Some? ==> from <= r.value && MatchCI(s, p, r.value)
    ensures r.Some? ==> forall k :: from <= k < r.value ==> !MatchCI(s, p, k)
    ensures r.None? ==> forall k :: from <= k ==> !MatchCI(s, p, k)
    decreases |s| - from
  {
    if from + |p| > |s| then None
    else if MatchCI(s, p, from) then Some(from)
    else FindCIFrom(s, p, from + 1)
  }

  /** `s.replace(new RegExp(p, 'gi'), r)` for a pattern without metacharacters:
      left to right, each match replaced, the search resuming after it. */
  function ReplaceAllCI(s: string, p: string, r: string): string
    requires |p| > 0
    decreases |s|
  {
    match FindCIFrom(s, p, 0)
    case None => s
    case Some(i) => s[..i] + r + ReplaceAllCI(s[i + |p|..], p, r)
  }

  /** For a lower-case pattern, `s.toLowerCase().includes(p)` is the
      case-insensitive containment test. */
  lemma ContainsLowerIsContainsCI(s: string, p: string)
    requires Lower(p) == p
    ensures Contains(Lower(s), p) <==> ContainsCI(s, p)
  {
    var ls := Lower(s);
    if Contains(ls, p) {
      var i :| 0 <= i <= |ls| - |p| && OccursAt(ls, p, i);
      forall k | 0 <= k < |p| ensures LowerChar(s[i + k]) == LowerChar(p[k]) {
        assert ls[i..i + |p|][k] == p[k];
        assert p[k] == Lower(p)[k];
      }
      assert MatchCI(s, p, i);
    }
    if ContainsCI(s, p) {
      var i :| 0 <= i <= |s| - |p| && MatchCI(s, p, i);
      forall k | 0 <= k < |p| ensures ls[i..i + |p|][k] == p[k] {
        assert p[k] == Lower(p)[k];
      }
      assert OccursAt(ls, p, i);
    }
  }

  /** A replacement `r` cannot be part of a match of `q` when its first
      character is not ASCII (so no ASCII pattern character can meet it) and
      none of its characters can stand for the first character of `q`. */
  predicate Insulates(r: string, q: string) {
    && |r| > 0 && |q| > 0
    && !IsAscii(r[0])
    && (forall k :: 0 <= k < |q| ==> IsAscii(q[k]))
    && (forall k :: 0 <= k < |r| ==> LowerChar(r[k]) != LowerChar(q[0]))
  }

  lemma MatchCharAt(s: string, q: string, j: int, k: int)
    requires MatchCI(s, q, j) && 0 <= k < |q|
    ensures LowerChar(s[j + k]) == LowerChar(q[k])
  {
  }

  /** Every match of `q` in `a + r + b` lies wholly inside `a` or wholly inside `b`. */
  lemma {:induction false} MatchAvoidsInsulator(a: string, r: string, b: string, q: string, j: int)
    requires Insulates(r, q)
    requires MatchCI(a + r + b, q, j)
    ensures MatchCI(a, q, j) || MatchCI(b, q, j - |a| - |r|)
  {
    var s := a + r + b;
    if j + |q| <= |a| {
      forall k | 0 <= k < |q| ensures LowerChar(a[j + k]) == LowerChar(q[k]) {
        assert s[j + k] == a[j + k];
      }
    } else if j >= |a| + |r| {
      var j' := j - |a| - |r|;
      forall k | 0 <= k < |q| ensures LowerChar(b[j' + k]) == LowerChar(q[k]) {
        assert s[j + k] == b[j' + k];
      }
    } else if j < |a| {
      MatchCharAt(s, q, j, |a| - j);
      assert false;
    } else {
      MatchCharAt(s, q, j, 0);
      assert false;
    }
  }

  lemma MatchInPrefix(s: string, n: nat, q: string, j: int)
    requires n <= |s|
    requires MatchCI(s[..n], q, j)
    ensures MatchCI(s, q, j)
  {
    forall k | 0 <= k < |q| ensures LowerChar(s[j + k]) == LowerChar(q[k]) {
      assert s[..n][j + k] == s[j + k];
    }
  }

  lemma MatchInSuffix(s: string, n: nat, q: string, j: int)
    requires n <= |s|
    requires MatchCI(s[n..], q, j)
    ensures MatchCI(s, q, j + n)
  {
    forall k | 0 <= k < |q| ensures LowerChar(s[j + n + k]) == LowerChar(q[k]) {
      assert s[n..][j + k] == s[j + n + k];
    }
  }

  /** One step of a global replacement: `s[..i] + r + t` has no match of `q`
      when `s` has none before `i` and `t` has none at all. */
  lemma NoMatchAfterStep(s: string, i: nat, r: string, t: string, q: string)
    requires i <= |s|
    requires Insulates(r, q)
    requires forall k :: 0 <= k < i ==> !MatchCI(s, q, k)
    requires !ContainsCI(t, q)
    ensures !ContainsCI(s[..i] + r + t, q)
  {
    var u := s[..i] + r + t;
    forall j | 0 <= j <= |u| - |q| ensures !MatchCI(u, q, j) {
      if MatchCI(u, q, j) {
        MatchAvoidsInsulator(s[..i], r, t, q, j);
        if MatchCI(s[..i], q, j) {
          MatchInPrefix(s, i, q, j);
        }
        assert false;
      }
    }
  }

  /** Global replacement leaves no case-insensitive occurrence of its own
      pattern behind, provided the replacement cannot take part in one. */
  lemma {:induction false} ReplaceAllCIRemoves(s: string, p: string, r: string)
    requires |p| > 0
    requires Insulates(r, p)
    ensures !ContainsCI(ReplaceAllCI(s, p, r), p)
    decreases |s|
  {
    var found := FindCIFrom(s, p, 0);
    if found.Some? {
      var i := found.value;
      var rest := s[i + |p|..];
      ReplaceAllCIRemoves(rest, p, r);
      ReplaceAllCIAt(s, p, r);
      NoMatchAfterStep(s, i, r, ReplaceAllCI(rest, p, r), p);
    } else {
      assert ReplaceAllCI(s, p, r) == s;
    }
  }

  lemma NoMatchInSuffix(s: string, n: nat, q: string)
    requires n <= |s|
    requires !ContainsCI(s, q)
    ensures !ContainsCI(s[n..], q)
  {
    forall j | 0 <= j <= |s[n..]| - |q| ensures !MatchCI(s[n..], q, j) {
      if MatchCI(s[n..], q, j) {
        MatchInSuffix(s, n, q, j);
        assert false;
      }
    }
  }

  /** Global replacement of `p` creates no occurrence of another pattern `q`
      that the replacement cannot take part in. */
  lemma {:induction false} ReplaceAllCIPreservesAbsence(s: string, p: string, r: string, q: string)
    requires |p| > 0
    requires Insulates(r, q)
    requires !ContainsCI(s, q)
    ensures !ContainsCI(ReplaceAllCI(s, p, r), q)
    decreases |s|
  {
    var found := FindCIFrom(s, p, 0);
    if found.Some? {
      var i := found.value;
      var rest := s[i + |p|..];
      NoMatchInSuffix(s, i + |p|, q);
      ReplaceAllCIPreservesAbsence(rest, p, r, q);
      ReplaceAllCIAt(s, p, r);
      NoMatchAroundInsulator(s, i, r, ReplaceAllCI(rest, p, r), q);
    }
  }

  /** How `ReplaceAllCI` proceeds past the first match. */
  lemma ReplaceAllCIAt(s: string, p: string, r: string)
    requires |p| > 0 && FindCIFrom(s, p, 0).Some?
    ensures var i := FindCIFrom(s, p, 0).value;
      i + |p| <= |s| && ReplaceAllCI(s, p, r) == s[..i] + r + ReplaceAllCI(s[i + |p|..], p, r)
  {
  }

  /** A text without a match keeps none once a prefix of it is followed by
      an insulating replacement and a match-free rest. */
  lemma NoMatchAroundInsulator(s: string, i: nat, r: string, t: string, q: string)
    requires i <= |s| && Insulates(r, q)
    requires !ContainsCI(s, q) && !ContainsCI(t, q)
    ensures !ContainsCI(s[..i] + r + t, q)
  {
    NoMatchAnywhere(s, q);
    NoMatchAfterStep(s, i, r, t, q);
  }

  lemma NoMatchAnywhere(s: string, q: string)
    requires !ContainsCI(s, q)
    ensures forall k :: !MatchCI(s, q, k)
  {
  }

  // ---------------------------------------------------------------------------
  // `split(/\s+/)`, `trim()`
  // ---------------------------------------------------------------------------

  /** The first whitespace position at or after `from`, or `|s|`. */
  function NextWhitespace(s: string, from: nat): (r: nat)
    requires from <= |s|
    ensures from <= r <= |s|
    ensures forall k :: from <= k < r ==> !IsWhitespace(s[k])
    ensures r < |s| ==> IsWhitespace(s[r])
    decreases |s| - from
  {
    if from == |s| || IsWhitespace(s[from]) then from else NextWhitespace(s, from + 1)
  }

  /** The end of the run of whitespace starting at `from`. */
  function SkipWhitespace(s: string, from: nat): (r: nat)
    requires from <= |s|
    ensures from <= r <= |s|
    ensures forall k :: from <= k < r ==> IsWhitespace(s[k])
    ensures r < |s| ==> !IsWhitespace(s[r])
    decreases |s| - from
  {
    if from == |s| || !IsWhitespace(s[from]) then from else SkipWhitespace(s, from + 1)
  }

  /** `s.split(/\s+/)`: the pieces between maximal runs of whitespace,
      including the empty pieces before a leading and after a trailing run. */
  function Split(s: string): (r: seq<string>)
    ensures |r| >= 1
    ensures forall k :: 0 <= k < |r| ==> NoWhitespace(r[k])
    decreases |s|
  {
    var i := NextWhitespace(s, 0);
    if i == |s| then [s]
    else [s[..i]] + Split(s[SkipWhitespace(s, i)..])
  }

  function Concat(ts: seq<string>): string {
    if ts == [] then [] else ts[0] + Concat(ts[1..])
  }

  /** `s` with every whitespace character dropped. */
  function DropWhitespace(s: string): (r: string) {
    if s == [] then []
    else (if IsWhitespace(s[0]) then [] else [s[0]]) + DropWhitespace(s[1..])
  }

  lemma {:induction false} DropWhitespaceAppend(a: string, b: string)
    ensures DropWhitespace(a + b) == DropWhitespace(a) + DropWhitespace(b)
    decreases |a|
  {
    if a != [] {
      assert (a + b)[1..] == a[1..] + b;
      DropWhitespaceAppend(a[1..], b);
    } else {
      assert a + b == b;
    }
  }

  lemma {:induction false} DropWhitespaceKeeps(t: string)
    requires NoWhitespace(t)
    ensures DropWhitespace(t) == t
    decreases |t|
  {
    if t != [] {
      DropWhitespaceKeeps(t[1..]);
    }
  }

  lemma {:induction false} DropWhitespaceAll(t: string)
    requires forall k :: 0 <= k < |t| ==> IsWhitespace(t[k])
    ensures DropWhitespace(t) == []
    decreases |t|
  {
    if t != [] {
      DropWhitespaceAll(t[1..]);
    }
  }

  lemma ConcatCons(t: string, rest: seq<string>)
    ensures Concat([t] + rest) == t + Concat(rest)
  {
    assert ([t] + rest)[1..] == rest;
  }

  /** Dropping whitespace from `s` cut at `i <= j`, where `s[..i]` has none
      and `s[i..j]` is all whitespace. */
  lemma {:induction false} DropWhitespaceCut(s: string, i: nat, j: nat)
    requires i <= j <= |s|
    requires NoWhitespace(s[..i])
    requires forall k :: i <= k < j ==> IsWhitespace(s[k])
    ensures DropWhitespace(s) == s[..i] + DropWhitespace(s[j..])
  {
    var a, w, c := s[..i], s[i..j], s[j..];
    WhitespaceSlice(s, i, j);
    CutThree(s, i, j);
    DropWhitespaceAll(w);
    DropWhitespaceKeeps(a);
    DropWhitespaceAppend(w, c);
    DropWhitespaceAppend(a, w + c);
  }

  lemma WhitespaceSlice(s: string, i: nat, j: nat)
    requires i <= j <= |s|
    requires forall k :: i <= k < j ==> IsWhitespace(s[k])
    ensures forall k :: 0 <= k < |s[i..j]| ==> IsWhitespace(s[i..j][k])
  {
  }

  lemma CutThree(s: string, i: nat, j: nat)
    requires i <= j <= |s|
    ensures s == s[..i] + (s[i..j] + s[j..])
  {
  }

  /** Splitting loses exactly the whitespace: joining the pieces back gives
      the input without its whitespace characters. */
  lemma {:induction false} SplitJoin(s: string)
    ensures Concat(Split(s)) == DropWhitespace(s)
    decreases |s|
  {
    var i := NextWhitespace(s, 0);
    if i == |s| {
      DropWhitespaceKeeps(s);
      ConcatCons(s, []);
    } else {
      var j := SkipWhitespace(s, i);
      SplitJoin(s[j..]);
      ConcatCons(s[..i], Split(s[j..]));
      DropWhitespaceCut(s, i, j);
    }
  }

  /** Every piece of the split lies between two cuts: the input is the pieces
      interleaved with the whitespace runs, each run non-empty, and every piece
      but the first and the last is non-empty. Together with the pieces being
      whitespace-free, this fixes the cuts at the maximal whitespace runs. */
  lemma {:induction false} SplitInterleave(s: string)
    ensures |Separators(s)| == |Split(s)| - 1
    ensures forall k :: 1 <= k < |Split(s)| - 1 ==> Split(s)[k] != []
    ensures Interleave(Split(s), Separators(s)) == s
  {
    SeparatorsCount(s);
    SplitInteriorNonEmpty(s);
    InterleaveSplit(s);
  }

  lemma {:induction false} SeparatorsCount(s: string)
    ensures |Separators(s)| == |Split(s)| - 1
    decreases |s|
  {
    var i := NextWhitespace(s, 0);
    if i < |s| {
      var j := SkipWhitespace(s, i);
      SeparatorsCount(s[j..]);
      SplitUnfold(s, i, j);
      SeparatorsUnfold(s, i, j);
    }
  }

  lemma {:induction false} SplitInteriorNonEmpty(s: string)
    ensures forall k :: 1 <= k < |Split(s)| - 1 ==> Split(s)[k] != []
    decreases |s|
  {
    var i := NextWhitespace(s, 0);
    if i < |s| {
      var j := SkipWhitespace(s, i);
      SplitInteriorNonEmpty(s[j..]);
      SplitUnfold(s, i, j);
      SplitInteriorStep(s[..i], s[j..]);
    }
  }

  lemma {:induction false} InterleaveSplit(s: string)
    ensures |Separators(s)| == |Split(s)| - 1
    ensures Interleave(Split(s), Separators(s)) == s
    decreases |s|
  {
    SeparatorsCount(s);
    var i := NextWhitespace(s, 0);
    if i < |s| {
      var j := SkipWhitespace(s, i);
      var t := s[j..];
      InterleaveSplit(t);
      SplitUnfold(s, i, j);
      SeparatorsUnfold(s, i, j);
      InterleaveStep(s, i, j, Split(t), Separators(t));
    }
  }

  lemma InterleaveStep(s: string, i: nat, j: nat, ps: seq<string>, ws: seq<string>)
    requires i <= j <= |s| && |ps| == |ws| + 1
    requires Interleave(ps, ws) == s[j..]
    ensures Interleave([s[..i]] + ps, [s[i..j]] + ws) == s
  {
    InterleaveCons(s[..i], s[i..j], ps, ws);
    assert s == s[..i] + s[i..j] + s[j..];
  }

  lemma SeparatorsUnfold(s: string, i: nat, j: nat)
    requires NextWhitespace(s, 0) == i < |s| && SkipWhitespace(s, i) == j
    ensures Separators(s) == [s[i..j]] + Separators(s[j..])
  {
  }

  lemma InterleaveCons(p: string, w: string, ps: seq<string>, ws: seq<string>)
    requires |ps| == |ws| + 1
    ensures Interleave([p] + ps, [w] + ws) == p + w + Interleave(ps, ws)
  {
    assert ([p] + ps)[1..] == ps && ([w] + ws)[1..] == ws;
  }

  /** A piece in front of the split of a word-initial or empty rest adds no
      empty interior piece. */
  lemma SplitInteriorStep(a: string, t: string)
    requires t == [] || !IsWhitespace(t[0])
    requires forall k :: 1 <= k < |Split(t)| - 1 ==> Split(t)[k] != []
    ensures var ps := [a] + Split(t);
      forall k :: 1 <= k < |ps| - 1 ==> ps[k] != []
  {
    var ps := [a] + Split(t);
    if t != [] {
      SplitStartsWithWord(t);
    }
    forall k | 1 <= k < |ps| - 1 ensures ps[k] != [] {
      assert ps[k] == Split(t)[k - 1];
    }
  }

  /** The whitespace runs `split(/\s+/)` cuts at, in order. */
  function Separators(s: string): (ws: seq<string>)
    ensures forall k :: 0 <= k < |ws| ==> |ws[k]| > 0 && AllWhitespace(ws[k])
    decreases |s|
  {
    var i := NextWhitespace(s, 0);
    if i == |s| then []
    else
      var j := SkipWhitespace(s, i);
      [s[i..j]] + Separators(s[j..])
  }

  predicate AllWhitespace(t: string) {
    forall k :: 0 <= k < |t| ==> IsWhitespace(t[k])
  }

  /** `ps[0] + ws[0] + ps[1] + ... + ws[n - 1] + ps[n]` */
  function Interleave(ps: seq<string>, ws: seq<string>): string
    requires |ps| == |ws| + 1
    decreases |ws|
  {
    if ws == [] then ps[0] else ps[0] + ws[0] + Interleave(ps[1..], ws[1..])
  }

  /** The pieces of a lower-cased text are lower-case. */
  lemma {:induction false} SplitOfLower(s: string)
    requires Lower(s) == s
    ensures forall k :: 0 <= k < |Split(s)| ==> Lower(Split(s)[k]) == Split(s)[k]
    decreases |s|
  {
    var i := NextWhitespace(s, 0);
    if i < |s| {
      var j := SkipWhitespace(s, i);
      LowerSlice(s, 0, i);
      LowerSlice(s, j, |s|);
      assert s[0..i] == s[..i] && s[j..|s|] == s[j..];
      SplitOfLower(s[j..]);
      assert Split(s) == [s[..i]] + Split(s[j..]);
    }
  }

  lemma LowerSlice(s: string, i: nat, j: nat)
    requires Lower(s) == s && i <= j <= |s|
    ensures Lower(s[i..j]) == s[i..j]
  {
    forall k | 0 <= k < j - i ensures Lower(s[i..j])[k] == s[i..j][k] {
      assert LowerChar(s[i + k]) == Lower(s)[i + k];
    }
  }

  // ---------------------------------------------------------------------------
  // Appending a word to a split
  // ---------------------------------------------------------------------------

  /** The pieces of a split without a trailing empty piece (a lone empty
      piece, the split of the empty string, stays). */
  function DropEmptyLast(ps: seq<string>): seq<string> {
    if |ps| > 1 && ps[|ps| - 1] == [] then ps[..|ps| - 1] else ps
  }

  lemma AppendWordShape(s: string, w: string)
    requires |w| > 0
    ensures (s + " " + w)[..|s|] == s
    ensures (s + " " + w)[|s|] == ' '
    ensures (s + " " + w)[|s| + 1..] == w
    ensures (s + " " + w)[|s| + 1] == w[0]
  {
  }

  /** A word-only `s`: its split is `[s]`, and the blank cuts the new word off. */
  lemma SplitAppendToWord(s: string, w: string)
    requires |w| > 0 && NoWhitespace(w)
    requires NextWhitespace(s, 0) == |s|
    ensures Split(s + " " + w) == DropEmptyLast(Split(s)) + [w]
  {
    var t := s + " " + w;
    AppendWordShape(s, w);
    SplitNoWhitespace(w);
    NextWhitespaceExtends(s, t, 0);
    assert SkipWhitespace(t, |s| + 1) == |s| + 1;
    assert Split(t) == [s] + Split(w);
  }

  /** `s` ends in its first whitespace run: its split is `[s[..i], ""]`. */
  lemma SplitAppendToTrailing(s: string, w: string, i: nat)
    requires |w| > 0 && NoWhitespace(w)
    requires NextWhitespace(s, 0) == i < |s| && SkipWhitespace(s, i) == |s|
    ensures Split(s + " " + w) == DropEmptyLast(Split(s)) + [w]
  {
    var t := s + " " + w;
    AppendWordShape(s, w);
    SplitNoWhitespace(w);
    NextWhitespaceExtends(s, t, 0);
    SkipWhitespaceExtends(s, t, i);
    assert t[..i] == s[..i];
    assert Split(t) == [s[..i]] + Split(w);
    assert Split(s[|s|..]) == [[]];
    assert Split(s) == [s[..i]] + [[]];
  }

  /** Appending a blank and a word adds exactly that word as the last piece. */
  lemma {:induction false} SplitAppendWord(s: string, w: string)
    requires |w| > 0 && NoWhitespace(w)
    ensures Split(s + " " + w) == DropEmptyLast(Split(s)) + [w]
    decreases |s|
  {
    var i := NextWhitespace(s, 0);
    if i == |s| {
      SplitAppendToWord(s, w);
    } else if SkipWhitespace(s, i) == |s| {
      SplitAppendToTrailing(s, w, i);
    } else {
      var j := SkipWhitespace(s, i);
      SplitAppendWord(s[j..], w);
      SplitAppendInner(s, w, i, j);
    }
  }

  /** The step of `SplitAppendWord` when a word follows the first whitespace run. */
  lemma SplitAppendInner(s: string, w: string, i: nat, j: nat)
    requires |w| > 0 && NoWhitespace(w)
    requires NextWhitespace(s, 0) == i < |s| && SkipWhitespace(s, i) == j < |s|
    requires Split(s[j..] + " " + w) == DropEmptyLast(Split(s[j..])) + [w]
    ensures Split(s + " " + w) == DropEmptyLast(Split(s)) + [w]
  {
    var rest := Split(s[j..]);
    SplitAppendTail(s, w, i, j);
    SplitUnfold(s, i, j);
    SplitStartsWithWord(s[j..]);
    DropEmptyLastCons(s[..i], rest);
  }

  lemma DropEmptyLastCons(a: string, rest: seq<string>)
    requires |rest| >= 1 && rest[0] != []
    ensures DropEmptyLast([a] + rest) == [a] + DropEmptyLast(rest)
  {
    var n := |rest|;
    assert ([a] + rest)[n] == rest[n - 1];
    assert ([a] + rest)[..n] == [a] + rest[..n - 1];
  }

  /** Before the first whitespace run, appending changes nothing. */
  lemma SplitAppendTail(s: string, w: string, i: nat, j: nat)
    requires |w| > 0 && NoWhitespace(w)
    requires NextWhitespace(s, 0) == i < |s| && SkipWhitespace(s, i) == j < |s|
    ensures Split(s + " " + w) == [s[..i]] + Split(s[j..] + " " + w)
  {
    var t := s + " " + w;
    assert NextWhitespace(t, 0) == i && SkipWhitespace(t, i) == j by {
      AppendWordShape(s, w);
      NextWhitespaceExtends(s, t, 0);
      SkipWhitespaceExtends(s, t, i);
    }
    assert t[..i] == s[..i] by {
      AppendWordShape(s, w);
      assert t[..i] == t[..|s|][..i];
    }
    assert t[j..] == s[j..] + " " + w;
    SplitUnfold(t, i, j);
  }

  lemma SplitStartsWithWord(x: string)
    requires |x| > 0 && !IsWhitespace(x[0])
    ensures Split(x)[0] != []
  {
    var i := NextWhitespace(x, 0);
    assert i > 0;
    if i < |x| {
      assert Split(x)[0] == x[..i];
    }
  }

  lemma SplitUnfold(s: string, i: nat, j: nat)
    requires NextWhitespace(s, 0) == i < |s| && SkipWhitespace(s, i) == j
    ensures Split(s) == [s[..i]] + Split(s[j..])
  {
  }

  lemma SplitNoWhitespace(w: string)
    requires NoWhitespace(w)
    ensures Split(w) == [w]
  {
    assert NextWhitespace(w, 0) == |w|;
  }

  /** `NextWhitespace` only looks up to the first whitespace character. */
  lemma {:induction false} NextWhitespaceExtends(s: string, t: string, from: nat)
    requires from <= |s| < |t| && t[..|s|] == s[..] && IsWhitespace(t[|s|])
    ensures NextWhitespace(t, from) == NextWhitespace(s, from)
    decreases |s| - from
  {
    if from < |s| {
      assert t[from] == s[from] by { assert t[..|s|][from] == t[from]; }
      if !IsWhitespace(s[from]) {
        NextWhitespaceExtends(s, t, from + 1);
      }
    }
  }

  /** A whitespace run of `s` that reaches its end continues into the blank after it. */
  lemma {:induction false} SkipWhitespaceExtends(s: string, t: string, from: nat)
    requires from <= |s| && |s| + 1 < |t| && t[..|s|] == s[..]
    requires IsWhitespace(t[|s|]) && !IsWhitespace(t[|s| + 1])
    ensures SkipWhitespace(s, from) < |s| ==> SkipWhitespace(t, from) == SkipWhitespace(s, from)
    ensures SkipWhitespace(s, from) == |s| ==> SkipWhitespace(t, from) == |s| + 1
    decreases |s| - from
  {
    if from < |s| {
      assert t[from] == s[from] by { assert t[..|s|][from] == t[from]; }
      if IsWhitespace(s[from]) {
        SkipWhitespaceExtends(s, t, from + 1);
      }
    } else {
      assert SkipWhitespace(t, from + 1) == from + 1;
    }
  }

  lemma LowerAppendWord(s: string, w: string)
    ensures Lower(s + " " + w) == Lower(s) + " " + Lower(w)
  {
    assert |Lower(s + " " + w)| == |Lower(s) + " " + Lower(w)|;
    forall k | 0 <= k < |Lower(s + " " + w)|
      ensures Lower(s + " " + w)[k] == (Lower(s) + " " + Lower(w))[k]
    {
      if k < |s| {
        assert (s + " " + w)[k] == s[k];
      } else if k > |s| {
        assert (s + " " + w)[k] == w[k - |s| - 1];
      }
    }
  }


  function TrimEnd(s: string): (r: string)
    decreases |s|
  {
    if |s| > 0 && IsWhitespace(s[|s| - 1]) then TrimEnd(s[..|s| - 1]) else s
  }

  /** `s.trim()` */
  function Trim(s: string): string {
    TrimEnd(s[SkipWhitespace(s, 0)..])
  }

  lemma {:induction false} TrimEndKeepsNonWhitespace(s: string, k: nat)
    requires k < |s| && !IsWhitespace(s[k])
    ensures |TrimEnd(s)| > k
    decreases |s|
  {
    if |s| > 0 && IsWhitespace(s[|s| - 1]) {
      TrimEndKeepsNonWhitespace(s[..|s| - 1], k);
    }
  }

  /** `!s.trim()` holds exactly when `s` consists of whitespace only. */
  lemma TrimEmptyIffBlank(s: string)
    ensures Trim(s) == [] <==> forall k :: 0 <= k < |s| ==> IsWhitespace(s[k])
  {
    var j := SkipWhitespace(s, 0);
    if j < |s| {
      TrimEndKeepsNonWhitespace(s[j..], 0);
    }
  }
}
