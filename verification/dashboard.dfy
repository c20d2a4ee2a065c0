/** The citizen dashboard (`src/pages/Dashboard.tsx`): the search box's
    case-insensitive filter over four fields, the per-status tallies over the
    whole list, and the status tabs that narrow the filtered list. */
module Dashboard {
  import opened Text
  import R = GrievanceRecords

  /** A row of the dashboard's table. */
  datatype Entry = Entry(
    id: string,
    subject: string,
    department: string,
    category: string,
    status: R.Status,
    date: string)

  /** `a` occurs in `b` in the same order, possibly with gaps. */
  predicate IsSubsequence<T(==)>(a: seq<T>, b: seq<T>)
    decreases |b|
  {
    if a == [] then true
    else if b == [] then false
    else (a[0] == b[0] && IsSubsequence(a[1..], b[1..])) || IsSubsequence(a, b[1..])
  }

  /** The search predicate: the lower-cased query is a substring of the
      lower-cased id, subject, department or category. */
  predicate Matches(g: Entry, query: string) {
    || Contains(Lower(g.id), Lower(query))
    || Contains(Lower(g.subject), Lower(query))
    || Contains(Lower(g.department), Lower(query))
    || Contains(Lower(g.category), Lower(query))
  }

  /** `filteredGrievances` */
  function Search(gs: seq<Entry>, query: string): (r: seq<Entry>)
    ensures |r| <= |gs|
    decreases |gs|
  {
    if gs == [] then []
    else (if Matches(gs[0], query) then [gs[0]] else []) + Search(gs[1..], query)
  }

  /** The search keeps each row, with its multiplicity, exactly when it
      matches, and keeps the rows in order. */
  lemma {:induction false} SearchKeeps(gs: seq<Entry>, query: string)
    ensures forall g :: multiset(Search(gs, query))[g] == if Matches(g, query) then multiset(gs)[g] else 0
    ensures IsSubsequence(Search(gs, query), gs)
    decreases |gs|
  {
    if gs != [] {
      SearchKeeps(gs[1..], query);
      assert gs == [gs[0]] + gs[1..];
      var rest := Search(gs[1..], query);
      if Matches(gs[0], query) {
        assert ([gs[0]] + rest)[1..] == rest;
      } else {
        assert [] + rest == rest;
      }
    }
  }

  /** `gs.filter(g => g.status === s)` */
  function WithStatus(gs: seq<Entry>, s: R.Status): (r: seq<Entry>)
    ensures |r| <= |gs|
    decreases |gs|
  {
    if gs == [] then []
    else (if gs[0].status == s then [gs[0]] else []) + WithStatus(gs[1..], s)
  }

  /** The status filter keeps each row, with its multiplicity, exactly when
      it has that status, and keeps the rows in order. */
  lemma {:induction false} WithStatusKeeps(gs: seq<Entry>, s: R.Status)
    ensures forall g :: multiset(WithStatus(gs, s))[g] == if g.status == s then multiset(gs)[g] else 0
    ensures IsSubsequence(WithStatus(gs, s), gs)
    decreases |gs|
  {
    if gs != [] {
      WithStatusKeeps(gs[1..], s);
      assert gs == [gs[0]] + gs[1..];
      var rest := WithStatus(gs[1..], s);
      if gs[0].status == s {
        assert ([gs[0]] + rest)[1..] == rest;
      } else {
        assert [] + rest == rest;
      }
    }
  }

  /** Every string contains the empty string. */
  lemma ContainsEmpty(s: string)
    ensures Contains(s, [])
  {
    assert OccursAt(s, [], 0);
  }

  /** An empty query keeps every row, in order. */
  lemma {:induction false} EmptyQueryKeepsAll(gs: seq<Entry>)
    ensures Search(gs, "") == gs
    decreases |gs|
  {
    if gs != [] {
      ContainsEmpty(Lower(gs[0].id));
      EmptyQueryKeepsAll(gs[1..]);
      assert gs == [gs[0]] + gs[1..];
    }
  }

  /** The status of a grievance is one of four values, so the four tallies
      add up to the total. */
  lemma {:induction false} CountsSumToTotal(gs: seq<Entry>)
    ensures |WithStatus(gs, R.Pending)| + |WithStatus(gs, R.InProgress)|
          + |WithStatus(gs, R.Resolved)| + |WithStatus(gs, R.Rejected)| == |gs|
    decreases |gs|
  {
    if gs != [] {
      CountsSumToTotal(gs[1..]);
    }
  }

  /** Narrowing by status and searching commute. */
  lemma {:induction false} SearchCommutesWithStatus(gs: seq<Entry>, query: string, s: R.Status)
    ensures WithStatus(Search(gs, query), s) == Search(WithStatus(gs, s), query)
    decreases |gs|
  {
    if gs != [] {
      SearchCommutesWithStatus(gs[1..], query, s);
      var head := if Matches(gs[0], query) then [gs[0]] else [];
      WithStatusAppend(head, Search(gs[1..], query), s);
      var sHead := if gs[0].status == s then [gs[0]] else [];
      SearchAppend(sHead, WithStatus(gs[1..], s), query);
    }
  }

  lemma {:induction false} WithStatusAppend(a: seq<Entry>, b: seq<Entry>, s: R.Status)
    ensures WithStatus(a + b, s) == WithStatus(a, s) + WithStatus(b, s)
    decreases |a|
  {
    if a == [] {
      assert a + b == b;
    } else {
      var head := if a[0].status == s then [a[0]] else [];
      assert (a + b)[0] == a[0] && (a + b)[1..] == a[1..] + b;
      WithStatusAppend(a[1..], b, s);
      assert head + (WithStatus(a[1..], s) + WithStatus(b, s))
          == (head + WithStatus(a[1..], s)) + WithStatus(b, s);
    }
  }

  lemma {:induction false} SearchAppend(a: seq<Entry>, b: seq<Entry>, query: string)
    ensures Search(a + b, query) == Search(a, query) + Search(b, query)
    decreases |a|
  {
    if a == [] {
      assert a + b == b;
    } else {
      var head := if Matches(a[0], query) then [a[0]] else [];
      assert (a + b)[0] == a[0] && (a + b)[1..] == a[1..] + b;
      SearchAppend(a[1..], b, query);
      assert head + (Search(a[1..], query) + Search(b, query))
          == (head + Search(a[1..], query)) + Search(b, query);
    }
  }

  /** The tabs above the table; there is no tab for rejected grievances. */
  datatype Tab = AllTab | PendingTab | InProgressTab | ResolvedTab

  /** The rows a tab lists for the current query. */
  function TabRows(gs: seq<Entry>, query: string, tab: Tab): (r: seq<Entry>)
    ensures tab == AllTab ==> r == Search(gs, query)
    ensures tab != AllTab ==> r == Search(WithStatus(gs, TabStatus(tab)), query)
  {
    var filtered := Search(gs, query);
    match tab
    case AllTab => filtered
    case PendingTab =>
      SearchCommutesWithStatus(gs, query, R.Pending);
      WithStatus(filtered, R.Pending)
    case InProgressTab =>
      SearchCommutesWithStatus(gs, query, R.InProgress);
      WithStatus(filtered, R.InProgress)
    case ResolvedTab =>
      SearchCommutesWithStatus(gs, query, R.Resolved);
      WithStatus(filtered, R.Resolved)
  }

  function TabStatus(tab: Tab): R.Status
    requires tab != AllTab
  {
    match tab
    case PendingTab => R.Pending
    case InProgressTab => R.InProgress
    case ResolvedTab => R.Resolved
  }

  /** A rejected grievance is listed only under "All". */
  lemma RejectedOnlyUnderAll(gs: seq<Entry>, query: string, tab: Tab, g: Entry)
    requires g.status == R.Rejected && g in TabRows(gs, query, tab)
    ensures tab == AllTab
  {
    if tab != AllTab {
      var filtered := Search(gs, query);
      WithStatusKeeps(filtered, TabStatus(tab));
    }
  }
}
