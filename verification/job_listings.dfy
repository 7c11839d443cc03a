/**
 * The job-listing logic of `components/sections/Career/CareerJobListings.tsx`:
 * grouping positions by department, the department and location dropdown
 * lists, the department filter, the per-department position filter used when
 * rendering, and the expand/collapse state.
 *
 * The grouping object (`Record<string, JobPosition[]>`) is modelled as a
 * sequence of groups whose keys appear in the order they were first created.
 */
module JobListings {
  import opened Common

  const OtherDepartment: string := "Other"
  const RemoteLocation: string := "Remote"
  const AllCategories: string := "All categories"
  const AllLocations: string := "All locations"

  /** A job position as the CMS delivers it; every text field may be missing. */
  datatype Position = Position(
    id: int,
    title: Option<string>,
    department: Option<string>,
    location: Option<string>)

  /** `position.department || "Other"` */
  function DepartmentOf(p: Position): string {
    OrElse(p.department, OtherDepartment)
  }

  /** `position.location || "Remote"` */
  function LocationOf(p: Position): string {
    OrElse(p.location, RemoteLocation)
  }

  /** `position.title || ""` */
  function TitleOf(p: Position): string {
    OrElse(p.title, "")
  }

  // ---------------------------------------------------------------------------
  // Grouping by department
  // ---------------------------------------------------------------------------

  datatype Group = Group(department: string, positions: seq<Position>)

  function Keys(gs: seq<Group>): (ks: seq<string>)
    ensures |ks| == |gs|
  {
    seq(|gs|, i requires 0 <= i < |gs| => gs[i].department)
  }

  /** The positions of `ps` whose department is `d`, in input order. */
  function Bucket(ps: seq<Position>, d: string): (b: seq<Position>)
    ensures forall p :: p in b <==> p in ps && DepartmentOf(p) == d
    decreases |ps|
  {
    if |ps| == 0 then []
    else
      var init := ps[..|ps| - 1];
      var last := ps[|ps| - 1];
      assert ps == init + [last];
      Bucket(init, d) + if DepartmentOf(last) == d then [last] else []
  }

  /** One step of the `reduce`: append `p` to the group `d`, creating it if absent. */
  function Insert(gs: seq<Group>, d: string, p: Position): (r: seq<Group>)
    ensures Keys(r) == if d in Keys(gs) then Keys(gs) else Keys(gs) + [d]
  {
    if d in Keys(gs) then
      var i := FirstIndex(Keys(gs), d);
      gs[i := Group(d, gs[i].positions + [p])]
    else
      gs + [Group(d, [p])]
  }

  /** One `reduce` step adds at most one group and never leaves one empty. */
  lemma InsertKeepsGroupsNonEmpty(gs: seq<Group>, d: string, p: Position)
    requires forall g :: g in gs ==> |g.positions| > 0
    ensures |Insert(gs, d, p)| <= |gs| + 1
    ensures forall g :: g in Insert(gs, d, p) ==> |g.positions| > 0
  {
  }

  /** `positionsByDepartment`: the `reduce` over the positions, left to right. */
  function GroupByDepartment(ps: seq<Position>): (gs: seq<Group>)
    // At most one group per position, and no group is empty.
    ensures |gs| <= |ps|
    ensures forall g :: g in gs ==> |g.positions| > 0
    decreases |ps|
  {
    if |ps| == 0 then []
    else
      var last := ps[|ps| - 1];
      var init := GroupByDepartment(ps[..|ps| - 1]);
      InsertKeepsGroupsNonEmpty(init, DepartmentOf(last), last);
      Insert(init, DepartmentOf(last), last)
  }

  function DepartmentNames(ps: seq<Position>): seq<string> {
    seq(|ps|, i requires 0 <= i < |ps| => DepartmentOf(ps[i]))
  }

  function LocationNames(ps: seq<Position>): seq<string> {
    seq(|ps|, i requires 0 <= i < |ps| => LocationOf(ps[i]))
  }

  /** `departments`: each department name once, in order of first occurrence. */
  function Departments(ps: seq<Position>): (ds: seq<string>)
    ensures Distinct(ds)
    ensures forall d :: d in ds <==> exists k :: 0 <= k < |ps| && DepartmentOf(ps[k]) == d
  {
    var names := DepartmentNames(ps);
    assert forall d :: d in names <==> exists k :: 0 <= k < |ps| && DepartmentOf(ps[k]) == d by {
      forall d | d in names ensures exists k :: 0 <= k < |ps| && DepartmentOf(ps[k]) == d {
        var k :| 0 <= k < |names| && names[k] == d;
        assert DepartmentOf(ps[k]) == d;
      }
      forall k | 0 <= k < |ps| ensures DepartmentOf(ps[k]) in names {
        assert names[k] == DepartmentOf(ps[k]);
      }
    }
    Dedup(names)
  }

  /** `locations`: each location name once, in order of first occurrence. */
  function Locations(ps: seq<Position>): (ls: seq<string>)
    ensures Distinct(ls)
    ensures forall l :: l in ls <==> exists k :: 0 <= k < |ps| && LocationOf(ps[k]) == l
  {
    var names := LocationNames(ps);
    assert forall l :: l in names <==> exists k :: 0 <= k < |ps| && LocationOf(ps[k]) == l by {
      forall l | l in names ensures exists k :: 0 <= k < |ps| && LocationOf(ps[k]) == l {
        var k :| 0 <= k < |names| && names[k] == l;
        assert LocationOf(ps[k]) == l;
      }
      forall k | 0 <= k < |ps| ensures LocationOf(ps[k]) in names {
        assert names[k] == LocationOf(ps[k]);
      }
    }
    Dedup(names)
  }

  /** Both dropdown lists follow the order in which their entries first appear. */
  lemma DropdownOrder(ps: seq<Position>)
    ensures forall i, j :: 0 <= i < j < |Departments(ps)| ==>
      FirstIndex(DepartmentNames(ps), Departments(ps)[i]) < FirstIndex(DepartmentNames(ps), Departments(ps)[j])
    ensures forall i, j :: 0 <= i < j < |Locations(ps)| ==>
      FirstIndex(LocationNames(ps), Locations(ps)[i]) < FirstIndex(LocationNames(ps), Locations(ps)[j])
  {
    DedupFirstOccurrenceOrder(DepartmentNames(ps));
    DedupFirstOccurrenceOrder(LocationNames(ps));
  }

  /** The total size of all groups. */
  function TotalSize(gs: seq<Group>): nat
    decreases |gs|
  {
    if |gs| == 0 then 0 else TotalSize(gs[..|gs| - 1]) + |gs[|gs| - 1].positions|
  }

  lemma {:induction false} TotalSizeUpdate(gs: seq<Group>, i: nat, g: Group)
    requires i < |gs|
    ensures TotalSize(gs[i := g]) == TotalSize(gs) - |gs[i].positions| + |g.positions|
    decreases |gs|
  {
    var n := |gs| - 1;
    if i == n {
      assert gs[i := g][..n] == gs[..n];
    } else {
      assert gs[i := g][..n] == gs[..n][i := g];
      TotalSizeUpdate(gs[..n], i, g);
    }
  }

  lemma TotalSizeAppend(gs: seq<Group>, g: Group)
    ensures TotalSize(gs + [g]) == TotalSize(gs) + |g.positions|
  {
    assert (gs + [g])[..|gs|] == gs;
  }

  lemma DepartmentNamesSnoc(ps: seq<Position>)
    requires |ps| > 0
    ensures DepartmentNames(ps) == DepartmentNames(ps[..|ps| - 1]) + [DepartmentOf(ps[|ps| - 1])]
  {
  }

  lemma BucketSnoc(ps: seq<Position>, d: string)
    requires |ps| > 0
    ensures Bucket(ps, d) == Bucket(ps[..|ps| - 1], d) + if DepartmentOf(ps[|ps| - 1]) == d then [ps[|ps| - 1]] else []
  {
  }

  /** The group keys are exactly the department list, in the same order. */
  lemma {:induction false} GroupKeys(ps: seq<Position>)
    ensures Keys(GroupByDepartment(ps)) == Departments(ps)
    decreases |ps|
  {
    if |ps| > 0 {
      var n := |ps| - 1;
      GroupKeys(ps[..n]);
      DepartmentNamesSnoc(ps);
      DedupSnoc(DepartmentNames(ps[..n]), DepartmentOf(ps[n]));
    }
  }

  /** A department no position has gets an empty bucket. */
  lemma {:induction false} BucketEmpty(ps: seq<Position>, d: string)
    requires d !in DepartmentNames(ps)
    ensures Bucket(ps, d) == []
    decreases |ps|
  {
    if |ps| > 0 {
      DepartmentNamesSnoc(ps);
      BucketEmpty(ps[..|ps| - 1], d);
    }
  }

  /** A position of an existing department extends that department's group only. */
  lemma InsertExistingKeepsBuckets(ps: seq<Position>, gs: seq<Group>)
    requires |ps| > 0
    requires Distinct(Keys(gs))
    requires DepartmentOf(ps[|ps| - 1]) in Keys(gs)
    requires forall i :: 0 <= i < |gs| ==> gs[i].positions == Bucket(ps[..|ps| - 1], gs[i].department)
    ensures var r := Insert(gs, DepartmentOf(ps[|ps| - 1]), ps[|ps| - 1]);
      forall i :: 0 <= i < |r| ==> r[i].positions == Bucket(ps, r[i].department)
  {
    var last := ps[|ps| - 1];
    var d := DepartmentOf(last);
    var k := FirstIndex(Keys(gs), d);
    var r := Insert(gs, d, last);
    assert r == gs[k := Group(d, gs[k].positions + [last])];
    forall i | 0 <= i < |r|
      ensures r[i].positions == Bucket(ps, r[i].department)
    {
      BucketSnoc(ps, r[i].department);
      if i != k {
        assert Keys(gs)[i] != Keys(gs)[k];
      }
    }
  }

  /** A position of a new department opens a group of its own and leaves the others. */
  lemma InsertNewKeepsBuckets(ps: seq<Position>, gs: seq<Group>)
    requires |ps| > 0
    requires DepartmentOf(ps[|ps| - 1]) !in Keys(gs)
    requires DepartmentOf(ps[|ps| - 1]) !in DepartmentNames(ps[..|ps| - 1])
    requires forall i :: 0 <= i < |gs| ==> gs[i].positions == Bucket(ps[..|ps| - 1], gs[i].department)
    ensures var r := Insert(gs, DepartmentOf(ps[|ps| - 1]), ps[|ps| - 1]);
      forall i :: 0 <= i < |r| ==> r[i].positions == Bucket(ps, r[i].department)
  {
    var last := ps[|ps| - 1];
    var d := DepartmentOf(last);
    var r := Insert(gs, d, last);
    assert r == gs + [Group(d, [last])];
    BucketEmpty(ps[..|ps| - 1], d);
    forall i | 0 <= i < |r|
      ensures r[i].positions == Bucket(ps, r[i].department)
    {
      BucketSnoc(ps, r[i].department);
      if i < |gs| {
        assert Keys(gs)[i] != d;
      }
    }
  }

  /** Each group holds exactly the positions of its department, in input order. */
  lemma {:induction false} GroupContents(ps: seq<Position>)
    ensures forall i :: 0 <= i < |GroupByDepartment(ps)| ==>
      GroupByDepartment(ps)[i].positions == Bucket(ps, GroupByDepartment(ps)[i].department)
    decreases |ps|
  {
    if |ps| > 0 {
      var n := |ps| - 1;
      var gs := GroupByDepartment(ps[..n]);
      GroupContents(ps[..n]);
      GroupKeys(ps[..n]);
      assert GroupByDepartment(ps) == Insert(gs, DepartmentOf(ps[n]), ps[n]);
      if DepartmentOf(ps[n]) in Keys(gs) {
        InsertExistingKeepsBuckets(ps, gs);
      } else {
        InsertNewKeepsBuckets(ps, gs);
      }
    }
  }

  /** No position is lost or duplicated by the grouping. */
  lemma {:induction false} GroupTotalSize(ps: seq<Position>)
    ensures TotalSize(GroupByDepartment(ps)) == |ps|
    decreases |ps|
  {
    if |ps| > 0 {
      var n := |ps| - 1;
      var gs := GroupByDepartment(ps[..n]);
      var d := DepartmentOf(ps[n]);
      GroupTotalSize(ps[..n]);
      assert GroupByDepartment(ps) == Insert(gs, d, ps[n]);
      if d in Keys(gs) {
        var k := FirstIndex(Keys(gs), d);
        var g := Group(d, gs[k].positions + [ps[n]]);
        assert Insert(gs, d, ps[n]) == gs[k := g];
        TotalSizeUpdate(gs, k, g);
      } else {
        var g := Group(d, [ps[n]]);
        assert Insert(gs, d, ps[n]) == gs + [g];
        TotalSizeAppend(gs, g);
      }
    }
  }

  /**
   * The grouping is a partition of the input: its keys are exactly the
   * department list, each group holds the positions of its department in
   * input order, and no position is lost or duplicated.
   */
  lemma GroupingIsPartition(ps: seq<Position>)
    ensures Keys(GroupByDepartment(ps)) == Departments(ps)
    ensures forall i :: 0 <= i < |GroupByDepartment(ps)| ==>
      GroupByDepartment(ps)[i].positions == Bucket(ps, GroupByDepartment(ps)[i].department)
    ensures TotalSize(GroupByDepartment(ps)) == |ps|
  {
    GroupKeys(ps);
    GroupContents(ps);
    GroupTotalSize(ps);
  }

  /** `positionsByDepartment[department]` */
  function Lookup(gs: seq<Group>, d: string): seq<Position> {
    if d in Keys(gs) then gs[FirstIndex(Keys(gs), d)].positions else []
  }

  /** Looking a department up in the grouping gives its bucket, empty for an unknown one. */
  lemma LookupIsBucket(ps: seq<Position>, d: string)
    ensures Lookup(GroupByDepartment(ps), d) == Bucket(ps, d)
  {
    var gs := GroupByDepartment(ps);
    GroupKeys(ps);
    if d in Keys(gs) {
      GroupContents(ps);
      var i := FirstIndex(Keys(gs), d);
      assert gs[i].department == d;
    } else {
      BucketEmpty(ps, d);
    }
  }

  lemma GroupOfPosition(ps: seq<Position>, i: nat, p: Position)
    requires i < |GroupByDepartment(ps)|
    requires p in GroupByDepartment(ps)[i].positions
    ensures p in ps && GroupByDepartment(ps)[i].department == DepartmentOf(p)
  {
    GroupContents(ps);
  }

  /** Every position lands in exactly one group, the one keyed by its department. */
  lemma EachPositionInOneGroup(ps: seq<Position>, k: nat)
    requires k < |ps|
    ensures exists i :: (0 <= i < |GroupByDepartment(ps)| &&
      GroupByDepartment(ps)[i].department == DepartmentOf(ps[k]) && ps[k] in GroupByDepartment(ps)[i].positions)
    ensures forall i, j :: (0 <= i < |GroupByDepartment(ps)| && 0 <= j < |GroupByDepartment(ps)| &&
      ps[k] in GroupByDepartment(ps)[i].positions && ps[k] in GroupByDepartment(ps)[j].positions) ==> i == j
  {
    var gs := GroupByDepartment(ps);
    var d := DepartmentOf(ps[k]);
    GroupKeys(ps);
    assert DepartmentNames(ps)[k] == d;
    assert d in Keys(gs);
    var i := FirstIndex(Keys(gs), d);
    LookupIsBucket(ps, d);
    assert ps[k] in Bucket(ps, d);
    assert gs[i].department == d && ps[k] in gs[i].positions;
    forall i, j | 0 <= i < |gs| && 0 <= j < |gs| && ps[k] in gs[i].positions && ps[k] in gs[j].positions
      ensures i == j
    {
      GroupOfPosition(ps, i, ps[k]);
      GroupOfPosition(ps, j, ps[k]);
      assert Keys(gs)[i] == Keys(gs)[j];
    }
  }

  // ---------------------------------------------------------------------------
  // Filtering
  // ---------------------------------------------------------------------------

  /** The search box and the two dropdowns. */
  datatype Filters = Filters(query: string, category: string, location: string)

  /** Empty query, or a case-insensitive substring of the title or the department. */
  predicate MatchesSearch(p: Position, query: string): (b: bool)
    ensures b <==>
      || query == ""
      || (exists i :: OccursAt(Lower(TitleOf(p)), Lower(query), i))
      || (exists i :: OccursAt(Lower(DepartmentOf(p)), Lower(query), i))
    // Typing a whole title or department name, in any ASCII case, finds the position.
    ensures Lower(query) == Lower(TitleOf(p)) || Lower(query) == Lower(DepartmentOf(p)) ==> b
  {
    assert OccursAt(Lower(TitleOf(p)), Lower(TitleOf(p)), 0);
    assert OccursAt(Lower(DepartmentOf(p)), Lower(DepartmentOf(p)), 0);
    || query == ""
    || Includes(Lower(TitleOf(p)), Lower(query))
    || Includes(Lower(DepartmentOf(p)), Lower(query))
  }

  /**
   * The per-position test. `defaulted` selects how the location is compared:
   * the department filter compares `location || "Remote"`, the rendering
   * filter compares the raw field.
   */
  predicate PositionMatches(p: Position, f: Filters, defaulted: bool): (b: bool)
    ensures b ==> MatchesSearch(p, f.query)
    ensures f.location == AllLocations ==> (b <==> MatchesSearch(p, f.query))
    // A position with a location is compared the same way by both filters.
    ensures Truthy(p.location) && f.location != AllLocations ==>
      (b <==> MatchesSearch(p, f.query) && p.location.value == f.location)
  {
    && MatchesSearch(p, f.query)
    && (|| f.location == AllLocations
        || (if defaulted then LocationOf(p) == f.location else p.location == Some(f.location)))
  }

  /**
   * The two location comparisons disagree only on a position whose location
   * is missing or empty: for "Remote", and for "" when the location is "".
   * The dropdown can select "": an `<option>` without a `value` submits its
   * text with surrounding whitespace stripped, so a location made only of
   * spaces is listed as it is and selects "".
   */
  lemma RawAndDefaultedDiffer(p: Position, f: Filters)
    ensures PositionMatches(p, f, true) != PositionMatches(p, f, false) <==>
      && MatchesSearch(p, f.query)
      && !Truthy(p.location)
      && (f.location == RemoteLocation || (f.location == "" && p.location == Some("")))
  {
  }

  predicate CategorySelected(d: string, category: string) {
    category == AllCategories || d == category
  }

  /** `positions.some(...)` with the department filter's test. */
  predicate AnyMatch(ps: seq<Position>, f: Filters) {
    exists k :: 0 <= k < |ps| && PositionMatches(ps[k], f, true)
  }

  /** The department filter's test for one key of the grouping. */
  predicate DepartmentListed(gs: seq<Group>, d: string, f: Filters) {
    CategorySelected(d, f.category) && AnyMatch(Lookup(gs, d), f)
  }

  /** The keys in `ks` that pass the department filter, in order. */
  function SelectDepartments(gs: seq<Group>, ks: seq<string>, f: Filters): (ds: seq<string>)
    ensures forall d :: d in ds <==> d in ks && DepartmentListed(gs, d, f)
    ensures IsSubsequence(ds, ks)
    decreases |ks|
  {
    if |ks| == 0 then []
    else
      var rest := SelectDepartments(gs, ks[1..], f);
      if DepartmentListed(gs, ks[0], f) then
        assert ([ks[0]] + rest)[1..] == rest;
        [ks[0]] + rest
      else
        SubsequenceSkip(rest, ks);
        rest
  }

  /** `filteredDepartments`: `Object.keys(positionsByDepartment).filter(...)`. */
  function FilteredDepartments(gs: seq<Group>, f: Filters): seq<string> {
    SelectDepartments(gs, Keys(gs), f)
  }

  /** `some` over a bucket is `some` over the positions of that department. */
  lemma AnyMatchBucket(ps: seq<Position>, d: string, f: Filters)
    ensures AnyMatch(Bucket(ps, d), f) <==>
      exists k :: 0 <= k < |ps| && DepartmentOf(ps[k]) == d && PositionMatches(ps[k], f, true)
  {
    var b := Bucket(ps, d);
    if AnyMatch(b, f) {
      var j :| 0 <= j < |b| && PositionMatches(b[j], f, true);
      assert b[j] in ps;
    }
    if exists k :: 0 <= k < |ps| && DepartmentOf(ps[k]) == d && PositionMatches(ps[k], f, true) {
      var k :| 0 <= k < |ps| && DepartmentOf(ps[k]) == d && PositionMatches(ps[k], f, true);
      assert ps[k] in b;
    }
  }

  /**
   * A department is listed exactly when the category admits it and one of its
   * positions passes the search and the (defaulted) location test; listed
   * departments keep the order of the department list.
   */
  lemma FilteredDepartmentsSpec(ps: seq<Position>, f: Filters, d: string)
    ensures d in FilteredDepartments(GroupByDepartment(ps), f) <==>
      CategorySelected(d, f.category) && exists k :: 0 <= k < |ps| && DepartmentOf(ps[k]) == d && PositionMatches(ps[k], f, true)
    ensures IsSubsequence(FilteredDepartments(GroupByDepartment(ps), f), Departments(ps))
  {
    GroupKeys(ps);
    LookupIsBucket(ps, d);
    AnyMatchBucket(ps, d, f);
  }

  // ---------------------------------------------------------------------------
  // Rendering
  // ---------------------------------------------------------------------------

  /** `positions.filter(...)` over one department's group. */
  function MatchingPositions(ps: seq<Position>, f: Filters, defaulted: bool): (r: seq<Position>)
    ensures forall p :: p in r <==> p in ps && PositionMatches(p, f, defaulted)
    // Every copy of a matching position is kept, and none of the others.
    ensures forall p :: multiset(r)[p] == if PositionMatches(p, f, defaulted) then multiset(ps)[p] else 0
  {
    var keep := p => PositionMatches(p, f, defaulted);
    forall p ensures multiset(Filter(ps, keep))[p] == if keep(p) then multiset(ps)[p] else 0 {
      FilterCount(ps, keep, p);
    }
    Filter(ps, keep)
  }

  /** The rendering filter keeps the input order. */
  lemma MatchingPositionsInOrder(ps: seq<Position>, f: Filters, defaulted: bool)
    ensures IsSubsequence(MatchingPositions(ps, f, defaulted), ps)
  {
    FilterIsSubsequence(ps, p => PositionMatches(p, f, defaulted));
  }

  /**
   * The departments that produce markup, each with the positions it shows:
   * a listed department whose filtered positions are empty renders nothing.
   */
  function Render(gs: seq<Group>, ds: seq<string>, f: Filters, defaulted: bool): (r: seq<Group>)
    ensures forall g :: g in r ==>
      && g.department in ds
      && |g.positions| > 0
      && g.positions == MatchingPositions(Lookup(gs, g.department), f, defaulted)
    // Blocks follow the order of `ds`.
    ensures IsSubsequence(Keys(r), ds)
    // Every listed department with a non-empty filtered list renders its block.
    ensures forall d :: d in ds && |MatchingPositions(Lookup(gs, d), f, defaulted)| > 0 ==> d in Keys(r)
    decreases |ds|
  {
    if |ds| == 0 then []
    else
      var shown := MatchingPositions(Lookup(gs, ds[0]), f, defaulted);
      var rest := Render(gs, ds[1..], f, defaulted);
      if |shown| == 0 then
        SubsequenceSkip(Keys(rest), ds);
        rest
      else
        var g := Group(ds[0], shown);
        KeysCons(g, rest);
        SubsequenceCons(Keys(rest), ds);
        [g] + rest
  }

  lemma KeysCons(g: Group, gs: seq<Group>)
    ensures Keys([g] + gs) == [g.department] + Keys(gs)
  {
  }

  /** What the listing renders, as written: the rendering filter compares the raw location. */
  function RenderedDepartments(ps: seq<Position>, f: Filters): seq<Group> {
    var gs := GroupByDepartment(ps);
    Render(gs, FilteredDepartments(gs, f), f, false)
  }

  /** The listing with the rendering filter comparing `location || "Remote"`, like the department filter. */
  function RenderedDepartmentsIntended(ps: seq<Position>, f: Filters): seq<Group> {
    var gs := GroupByDepartment(ps);
    Render(gs, FilteredDepartments(gs, f), f, true)
  }

  /** `filteredDepartments.length === 0` shows the "no results" message. */
  predicate ShowsNoResults(ps: seq<Position>, f: Filters) {
    |FilteredDepartments(GroupByDepartment(ps), f)| == 0
  }

  /**
   * Rendered positions come from their department's group, in order, and each
   * passes the raw-location test; when a location is selected that is not "",
   * each also passes the department filter's test.
   */
  lemma RenderedPositionsFromBucket(ps: seq<Position>, f: Filters, g: Group)
    requires g in RenderedDepartments(ps, f)
    ensures IsSubsequence(g.positions, Bucket(ps, g.department))
    ensures forall p :: p in g.positions ==> p in ps && DepartmentOf(p) == g.department && PositionMatches(p, f, false)
    ensures f.location != "" ==> forall p :: p in g.positions ==> PositionMatches(p, f, true)
  {
    LookupIsBucket(ps, g.department);
    MatchingPositionsInOrder(Bucket(ps, g.department), f, false);
  }

  /** Each department renders at most one block. */
  lemma RenderedBlocksOnceEach(ps: seq<Position>, f: Filters, defaulted: bool)
    ensures Distinct(Keys(Render(GroupByDepartment(ps), FilteredDepartments(GroupByDepartment(ps), f), f, defaulted)))
  {
    var gs := GroupByDepartment(ps);
    GroupKeys(ps);
    var ds := FilteredDepartments(gs, f);
    SubsequenceKeepsDistinct(ds, Keys(gs));
    SubsequenceKeepsDistinct(Keys(Render(gs, ds, f, defaulted)), ds);
  }

  lemma {:induction false} RenderDefaultedKeepsAll(gs: seq<Group>, ds: seq<string>, f: Filters)
    requires forall d :: d in ds ==> AnyMatch(Lookup(gs, d), f)
    ensures Keys(Render(gs, ds, f, true)) == ds
    decreases |ds|
  {
    if |ds| > 0 {
      var ps := Lookup(gs, ds[0]);
      var k :| 0 <= k < |ps| && PositionMatches(ps[k], f, true);
      var shown := MatchingPositions(ps, f, true);
      assert ps[k] in shown;
      var rest := Render(gs, ds[1..], f, true);
      RenderDefaultedKeepsAll(gs, ds[1..], f);
      assert Render(gs, ds, f, true) == [Group(ds[0], shown)] + rest;
      KeysCons(Group(ds[0], shown), rest);
    }
  }

  /**
   * With the location compared the same way in both places, every listed
   * department renders a non-empty list, so the page is blank exactly when
   * the "no results" message is shown.
   */
  lemma IntendedRenderMatchesListing(ps: seq<Position>, f: Filters)
    ensures Keys(RenderedDepartmentsIntended(ps, f)) == FilteredDepartments(GroupByDepartment(ps), f)
    ensures |RenderedDepartmentsIntended(ps, f)| == 0 <==> ShowsNoResults(ps, f)
  {
    var gs := GroupByDepartment(ps);
    RenderDefaultedKeepsAll(gs, FilteredDepartments(gs, f), f);
  }

  /**
   * As written, a position without a location is listed under "Remote" by
   * the department filter but dropped by the rendering filter: its department
   * suppresses the "no results" message and then renders nothing.
   */
  lemma ListedDepartmentRendersNothing()
    ensures var ps := [Position(1, Some("Engineer"), Some("Engineering"), None)];
      var f := Filters("", AllCategories, RemoteLocation);
      && FilteredDepartments(GroupByDepartment(ps), f) == ["Engineering"]
      && !ShowsNoResults(ps, f)
      && RenderedDepartments(ps, f) == []
  {
    var p := Position(1, Some("Engineer"), Some("Engineering"), None);
    var ps := [p];
    var f := Filters("", AllCategories, RemoteLocation);
    assert ps[..0] == [];
    assert GroupByDepartment(ps) == [Group("Engineering", [p])];
    var gs := GroupByDepartment(ps);
    assert PositionMatches(p, f, true);
    assert Lookup(gs, "Engineering") == [p];
    assert AnyMatch([p], f);
    assert FilteredDepartments(gs, f) == ["Engineering"];
    assert MatchingPositions([p], f, false) == [];
  }

  // ---------------------------------------------------------------------------
  // Expand / collapse
  // ---------------------------------------------------------------------------

  /** `expandedCategory` ("" for none) and `expandedPosition`. */
  datatype Expansion = Expansion(category: string, position: Option<int>)

  const InitialExpansion: Expansion := Expansion("", None)

  /** `toggleCategory`: collapse the open category (and its open position), or open another one. */
  function ToggleCategory(s: Expansion, c: string): (r: Expansion)
    ensures s.category == c ==> r == InitialExpansion
    ensures s.category != c ==> r.category == c && r.position == s.position
  {
    if s.category == c then Expansion("", None) else Expansion(c, s.position)
  }

  /** `togglePosition`: close the open position, or open another one. */
  function TogglePosition(s: Expansion, id: int): (r: Expansion)
    ensures r.category == s.category
    ensures r.position == Some(id) <==> s.position != Some(id)
    ensures s.position == Some(id) ==> r.position == None
  {
    if s.position == Some(id) then s.(position := None) else s.(position := Some(id))
  }

  /**
   * Toggling the same position twice restores the state when nothing or that
   * same position was open; when another position was open, it ends closed.
   */
  lemma TogglePositionTwice(s: Expansion, id: int)
    ensures s.position == None || s.position == Some(id) ==> TogglePosition(TogglePosition(s, id), id) == s
    ensures s.position != None && s.position != Some(id) ==> TogglePosition(TogglePosition(s, id), id) == s.(position := None)
  {
  }

  /**
   * Toggling a closed category twice is not an identity: it collapses
   * everything and forgets the open position.
   */
  lemma ToggleCategoryTwice(s: Expansion, c: string)
    requires s.category != c
    ensures ToggleCategory(ToggleCategory(s, c), c) == InitialExpansion
  {
  }
}
