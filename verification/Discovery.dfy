/** Fleet discovery: one scanner per group feeds the project streams into a shared accumulator that
    keeps each matching project once. The filter is an arbitrary predicate on the project. */
module Discovery {
  import opened Prelude
  import GroupTree
  import Pagination

  type Stream = seq<Pagination.StreamItem>

  /** The accumulator's maps and counters. A project is kept under its ID with the group it was
      first found in. */
  datatype Fleet = Fleet(projects: map<int, int>, groups: map<int, GroupTree.Located>,
                         scannedProjects: nat, scannedGroups: nat) {
    /** MatchedProjectsCount of the resulting fleet. */
    function MatchedProjects(): nat {
      |projects|
    }

    function WithProject(p: int, matches: bool, parent: int): Fleet {
      this.(scannedProjects := scannedProjects + 1,
            projects := if matches && p !in projects then projects[p := parent] else projects)
    }

    function WithGroup(g: GroupTree.Located): Fleet {
      this.(scannedGroups := scannedGroups + 1,
            groups := if g.id !in groups then groups[g.id := g] else groups)
    }
  }

  const EMPTY_FLEET := Fleet(map[], map[], 0, 0)

  class FleetAccumulator {
    var projects: map<int, int>
    var groups: map<int, GroupTree.Located>
    var scannedProjectsCount: nat
    var scannedGroupsCount: nat

    function Contents(): Fleet
      reads this
    {
      Fleet(projects, groups, scannedProjectsCount, scannedGroupsCount)
    }

    constructor ()
      ensures Contents() == EMPTY_FLEET
    {
      projects, groups, scannedProjectsCount, scannedGroupsCount := map[], map[], 0, 0;
    }

    /** AddDiscoveredGroup. */
    method AddDiscoveredGroup(g: GroupTree.Located)
      modifies this
      ensures Contents() == old(Contents()).WithGroup(g)
    {
      scannedGroupsCount := scannedGroupsCount + 1;
      if g.id !in groups {
        groups := groups[g.id := g];
      }
    }

    /** AddProjectIfMatches, under the accumulator's lock. */
    method AddProjectIfMatches(p: int, filter: int -> bool, parent: int) returns (matched: bool)
      modifies this
      ensures Contents() == old(Contents()).WithProject(p, filter(p), parent)
      ensures matched == filter(p)
      ensures matched ==> p in projects
    {
      scannedProjectsCount := scannedProjectsCount + 1;
      if !filter(p) {
        return false;
      }
      if p !in projects {
        projects := projects[p := parent];
      }
      return true;
    }

    /** The loop that records the traversed groups. */
    method AddDiscoveredGroups(gs: seq<GroupTree.Located>)
      requires groups == map[]
      modifies this
      ensures projects == old(projects) && scannedProjectsCount == old(scannedProjectsCount)
      ensures scannedGroupsCount == old(scannedGroupsCount) + |gs|
      ensures forall id :: id in groups <==> id in GroupTree.Ids(gs)
      ensures forall id :: id in groups ==> groups[id] in gs && groups[id].id == id
    {
      for i := 0 to |gs|
        invariant projects == old(projects) && scannedProjectsCount == old(scannedProjectsCount)
        invariant scannedGroupsCount == old(scannedGroupsCount) + i
        invariant forall id :: id in groups <==> exists k :: 0 <= k < i && gs[k].id == id
        invariant forall id :: id in groups ==> groups[id] in gs && groups[id].id == id
      {
        AddDiscoveredGroup(gs[i]);
      }
    }

    /** scanInstanceProjects: a single stream, read in order; its error item stops the scan, and so
        does a context found done before an item (`done(i)`, before item i). */
    method ScanInstanceProjects(items: Stream, filter: int -> bool, done: nat -> bool) returns (err: Option<Pagination.Failure>)
      requires projects == map[] && scannedProjectsCount == 0
      modifies this
      ensures err.None? <==> Pagination.AllValues(items) && forall i: nat :: i < |items| ==> !done(i)
      ensures err.None? ==>
                && scannedProjectsCount == |items|
                && Collects(projects, items, filter)
      ensures |projects| <= scannedProjectsCount
    {
      hide Pagination.AllValues, Collects;
      NoItems(items, filter);
      for i := 0 to |items|
        invariant Pagination.AllValues(items[..i]) && forall k: nat :: k < i ==> !done(k)
        invariant scannedProjectsCount == i && |projects| <= i
        invariant Collects(projects, items[..i], filter)
      {
        OneMoreItem(projects, items, filter, i);
        if done(i) {
          return Some(Pagination.ContextDone);
        }
        if items[i].Err? {
          return Some(items[i].failure);
        }
        var _ := AddProjectIfMatches(items[i].id, filter, 0);
      }
      assert items[..|items|] == items;
      return None;
    }
  }

  /** The map holds exactly the matching projects among the items. */
  ghost predicate Collects(projects: map<int, int>, items: Stream, filter: int -> bool) {
    forall p :: p in projects <==> Pagination.Value(p) in items && filter(p)
  }

  lemma NoItems(items: Stream, filter: int -> bool)
    ensures Pagination.AllValues(items[..0]) && Collects(map[], items[..0], filter)
  {
  }

  lemma OneMoreItem(projects: map<int, int>, items: Stream, filter: int -> bool, i: nat)
    requires i < |items|
    ensures items[i].Err? ==> !Pagination.AllValues(items)
    ensures items[i].Value? && Pagination.AllValues(items[..i]) ==> Pagination.AllValues(items[..i + 1])
    ensures items[i].Value? && Collects(projects, items[..i], filter) ==>
              Collects(EMPTY_FLEET.(projects := projects).WithProject(items[i].id, filter(items[i].id), 0).projects, items[..i + 1], filter)
  {
    assert items[..i + 1] == items[..i] + [items[i]];
    assert items[i] in items;
  }

  // ---------------------------------------------------------------------------
  // The concurrent scan of the groups
  // ---------------------------------------------------------------------------

  /** One scanner goroutine. `taken` items of its stream were added to the fleet. */
  datatype Scanner = Waiting | Scanning(taken: nat) | Finished(taken: nat) {
    function Taken(): nat {
      if Waiting? then 0 else taken
    }
  }

  /** The streams to scan, the group each belongs to, and the size of the semaphore. */
  datatype Scan = Scan(groups: seq<int>, streams: seq<Stream>, filter: int -> bool, concurrency: nat) {
    predicate Valid() {
      |groups| == |streams| && concurrency >= 1
    }
  }

  datatype State = State(scanners: seq<Scanner>, fleet: Fleet, errors: seq<int>)

  datatype Step =
    | Launch(i: nat)   // the loop acquires the semaphore and starts the scanner of group i
    | Deliver(i: nat)  // scanner i takes the next item of its stream
    | Exit(i: nat)     // scanner i has drained its stream and releases the semaphore

  function Running(scanners: seq<Scanner>): nat {
    if scanners == [] then 0 else (if scanners[0].Scanning? then 1 else 0) + Running(scanners[1..])
  }

  function TotalTaken(scanners: seq<Scanner>): nat {
    if scanners == [] then 0 else scanners[0].Taken() + TotalTaken(scanners[1..])
  }

  /** Groups are launched in order, each once the semaphore has room. */
  predicate Enabled(c: Scan, s: State, e: Step)
    requires |s.scanners| == |c.streams|
  {
    e.i < |s.scanners| &&
    match e
    case Launch(i) =>
      && s.scanners[i].Waiting? && Running(s.scanners) < c.concurrency
      && forall k :: 0 <= k < i ==> !s.scanners[k].Waiting?
    case Deliver(i) => s.scanners[i].Scanning? && s.scanners[i].taken < |c.streams[i]|
    case Exit(i) => s.scanners[i].Scanning? && s.scanners[i].taken == |c.streams[i]|
  }

  function Apply(c: Scan, s: State, e: Step): (s': State)
    requires c.Valid() && |s.scanners| == |c.streams| && Enabled(c, s, e)
    ensures |s'.scanners| == |s.scanners|
  {
    match e
    case Launch(i) => s.(scanners := s.scanners[i := Scanning(0)])
    case Exit(i) => s.(scanners := s.scanners[i := Finished(s.scanners[i].taken)])
    case Deliver(i) =>
      var n := s.scanners[i].taken;
      var item := c.streams[i][n];
      if item.Err? then
        s.(scanners := s.scanners[i := Finished(n)], errors := s.errors + [i])
      else
        s.(scanners := s.scanners[i := Scanning(n + 1)],
           fleet := s.fleet.WithProject(item.id, c.filter(item.id), c.groups[i]))
  }

  function Start(c: Scan): State {
    State(seq(|c.streams|, _ => Waiting), EMPTY_FLEET, [])
  }

  /** The states some run can reach. */
  ghost predicate Run(c: Scan, steps: seq<Step>, s: State)
    requires c.Valid()
    decreases |steps|
  {
    if steps == [] then s == Start(c)
    else exists s0: State :: StepTo(c, steps, s0, s)
  }

  ghost predicate StepTo(c: Scan, steps: seq<Step>, s0: State, s: State)
    requires c.Valid() && steps != []
    decreases |steps|, 0
  {
    var e := steps[|steps| - 1];
    Run(c, steps[..|steps| - 1], s0) && |s0.scanners| == |c.streams| && Enabled(c, s0, e) && s == Apply(c, s0, e)
  }

  // ---------------------------------------------------------------------------
  // What every interleaving keeps
  // ---------------------------------------------------------------------------

  /** `p` was taken by scanner `i`. */
  ghost predicate TakenBy(c: Scan, scanners: seq<Scanner>, i: int, p: int)
    requires |scanners| == |c.streams| && 0 <= i < |scanners|
  {
    exists n :: 0 <= n < scanners[i].Taken() && n < |c.streams[i]| && c.streams[i][n] == Pagination.Value(p)
  }

  ghost predicate Taken(c: Scan, scanners: seq<Scanner>, p: int)
    requires |scanners| == |c.streams|
  {
    exists i :: 0 <= i < |scanners| && TakenBy(c, scanners, i, p)
  }

  /** Scanner `i` is where its stream and the errors say it is. */
  ghost predicate ScannerOk(c: Scan, s: State, i: int)
    requires |s.scanners| == |c.streams| && 0 <= i < |s.scanners|
  {
    var sc := s.scanners[i];
    && sc.Taken() <= |c.streams[i]|
    && Pagination.AllValues(c.streams[i][..sc.Taken()])
    && (i in s.errors <==> sc.Finished? && sc.taken < |c.streams[i]|)
    && (i in s.errors ==> c.streams[i][sc.taken].Err?)
  }

  /** The invariant of the scan. */
  ghost predicate Inv(c: Scan, s: State)
    requires c.Valid()
  {
    && |s.scanners| == |c.streams|
    && Running(s.scanners) <= c.concurrency
    && (forall i :: 0 <= i < |s.scanners| ==> ScannerOk(c, s, i))
    && s.fleet.scannedProjects == TotalTaken(s.scanners)
    && |s.fleet.projects| <= s.fleet.scannedProjects
    && ProjectsAreTaken(c, s)
    && NoDup(s.errors) && (forall i :: i in s.errors ==> 0 <= i < |s.scanners|)
  }

  /** The fleet holds exactly the matching projects taken so far, each with a group it is in. */
  ghost predicate ProjectsAreTaken(c: Scan, s: State)
    requires c.Valid() && |s.scanners| == |c.streams|
  {
    && (forall p :: p in s.fleet.projects <==> Taken(c, s.scanners, p) && c.filter(p))
    && (forall p :: p in s.fleet.projects ==> InSomeGroup(c, s.scanners, p, s.fleet.projects[p]))
  }

  ghost predicate InSomeGroup(c: Scan, scanners: seq<Scanner>, p: int, g: int)
    requires c.Valid() && |scanners| == |c.streams|
  {
    exists i :: 0 <= i < |scanners| && TakenBy(c, scanners, i, p) && c.groups[i] == g
  }

  lemma {:induction false} UpdateCounts(scanners: seq<Scanner>, i: nat, sc: Scanner)
    requires i < |scanners|
    ensures Running(scanners[i := sc]) ==
            Running(scanners) - (if scanners[i].Scanning? then 1 else 0) + if sc.Scanning? then 1 else 0
    ensures TotalTaken(scanners[i := sc]) == TotalTaken(scanners) - scanners[i].Taken() + sc.Taken()
  {
    if i > 0 {
      UpdateCounts(scanners[1..], i - 1, sc);
      assert scanners[i := sc][1..] == scanners[1..][i - 1 := sc];
    }
  }

  lemma {:induction false} NothingRuns(n: nat)
    ensures Running(seq(n, _ => Waiting)) == 0 && TotalTaken(seq(n, _ => Waiting)) == 0
  {
    if n > 0 {
      NothingRuns(n - 1);
      assert seq(n, _ => Waiting)[1..] == seq(n - 1, _ => Waiting);
    }
  }

  lemma StartInv(c: Scan)
    requires c.Valid()
    ensures Inv(c, Start(c))
  {
    NothingRuns(|c.streams|);
    var s := Start(c);
    assert forall i :: 0 <= i < |s.scanners| ==> ScannerOk(c, s, i);
    assert forall p :: !Taken(c, s.scanners, p);
  }

  /** Launching or exiting takes no item. */
  lemma SameTaken(c: Scan, scanners: seq<Scanner>, i: nat, sc: Scanner)
    requires |scanners| == |c.streams| && i < |scanners| && sc.Taken() == scanners[i].Taken()
    ensures forall k, p :: 0 <= k < |scanners| ==> (TakenBy(c, scanners[i := sc], k, p) <==> TakenBy(c, scanners, k, p))
  {
  }

  /** Taking one more value adds that value and no other. */
  lemma OneMoreTaken(c: Scan, scanners: seq<Scanner>, i: nat)
    requires |scanners| == |c.streams| && i < |scanners|
    requires scanners[i].Scanning? && scanners[i].taken < |c.streams[i]| && c.streams[i][scanners[i].taken].Value?
    ensures var n := scanners[i].taken;
            var after := scanners[i := Scanning(n + 1)];
            forall k, p :: 0 <= k < |scanners| ==>
              (TakenBy(c, after, k, p) <==> TakenBy(c, scanners, k, p) || (k == i && c.streams[i][n] == Pagination.Value(p)))
  {
    var n := scanners[i].taken;
    var after := scanners[i := Scanning(n + 1)];
    forall k, p | 0 <= k < |scanners|
      ensures TakenBy(c, after, k, p) <==> TakenBy(c, scanners, k, p) || (k == i && c.streams[i][n] == Pagination.Value(p))
    {
      if TakenBy(c, scanners, k, p) {
        var m :| 0 <= m < scanners[k].Taken() && m < |c.streams[k]| && c.streams[k][m] == Pagination.Value(p);
        assert m < after[k].Taken();
      }
    }
  }

  lemma ProjectsKept(c: Scan, s: State, i: nat, sc: Scanner, s': State)
    requires c.Valid() && |s.scanners| == |c.streams| && i < |s.scanners| && ProjectsAreTaken(c, s)
    requires sc.Taken() == s.scanners[i].Taken() && s'.scanners == s.scanners[i := sc] && s'.fleet == s.fleet
    ensures ProjectsAreTaken(c, s')
  {
    hide TakenBy;
    SameTaken(c, s.scanners, i, sc);
    forall p | p in s.fleet.projects
      ensures InSomeGroup(c, s'.scanners, p, s.fleet.projects[p])
    {
      var k :| 0 <= k < |s.scanners| && TakenBy(c, s.scanners, k, p) && c.groups[k] == s.fleet.projects[p];
      assert TakenBy(c, s'.scanners, k, p);
    }
    forall p ensures Taken(c, s'.scanners, p) <==> Taken(c, s.scanners, p) {
      if Taken(c, s.scanners, p) {
        var k :| 0 <= k < |s.scanners| && TakenBy(c, s.scanners, k, p);
        assert TakenBy(c, s'.scanners, k, p);
      }
      if Taken(c, s'.scanners, p) {
        var k :| 0 <= k < |s.scanners| && TakenBy(c, s'.scanners, k, p);
        assert TakenBy(c, s.scanners, k, p);
      }
    }
  }

  lemma ProjectsGrow(c: Scan, s: State, i: nat, s': State)
    requires c.Valid() && |s.scanners| == |c.streams| && i < |s.scanners| && ProjectsAreTaken(c, s)
    requires s.scanners[i].Scanning? && s.scanners[i].taken < |c.streams[i]|
    requires var item := c.streams[i][s.scanners[i].taken];
             && item.Value?
             && s'.scanners == s.scanners[i := Scanning(s.scanners[i].taken + 1)]
             && s'.fleet == s.fleet.WithProject(item.id, c.filter(item.id), c.groups[i])
    ensures ProjectsAreTaken(c, s')
  {
    hide TakenBy;
    var item := c.streams[i][s.scanners[i].taken];
    OneMoreTaken(c, s.scanners, i);
    forall p ensures Taken(c, s'.scanners, p) <==> Taken(c, s.scanners, p) || p == item.id {
      if Taken(c, s.scanners, p) {
        var k :| 0 <= k < |s.scanners| && TakenBy(c, s.scanners, k, p);
        assert TakenBy(c, s'.scanners, k, p);
      }
      assert p == item.id ==> TakenBy(c, s'.scanners, i, p);
      if Taken(c, s'.scanners, p) {
        var k :| 0 <= k < |s.scanners| && TakenBy(c, s'.scanners, k, p);
        assert TakenBy(c, s.scanners, k, p) || p == item.id;
      }
    }
    forall p | p in s'.fleet.projects
      ensures InSomeGroup(c, s'.scanners, p, s'.fleet.projects[p])
    {
      if p in s.fleet.projects {
        var k :| 0 <= k < |s.scanners| && TakenBy(c, s.scanners, k, p) && c.groups[k] == s.fleet.projects[p];
        assert TakenBy(c, s'.scanners, k, p);
      } else {
        assert TakenBy(c, s'.scanners, i, p);
      }
    }
  }

  lemma ScannersKept(c: Scan, s: State, e: Step)
    requires c.Valid() && Inv(c, s) && Enabled(c, s, e)
    ensures var s' := Apply(c, s, e);
            && (forall k :: 0 <= k < |s.scanners| ==> ScannerOk(c, s', k))
            && NoDup(s'.errors) && (forall k :: k in s'.errors ==> 0 <= k < |s.scanners|)
  {
    hide Running, TotalTaken, ProjectsAreTaken;
    var s' := Apply(c, s, e);
    assert ScannerOk(c, s, e.i);
    forall k | 0 <= k < |s.scanners| ensures ScannerOk(c, s', k) {
      assert ScannerOk(c, s, k);
      if k == e.i && e.Deliver? {
        var n := s.scanners[k].taken;
        assert c.streams[k][..n + 1] == c.streams[k][..n] + [c.streams[k][n]];
      }
    }
  }

  /** Every step of every scanner keeps the invariant. */
  lemma InvStep(c: Scan, s: State, e: Step)
    requires c.Valid() && Inv(c, s) && Enabled(c, s, e)
    ensures Inv(c, Apply(c, s, e))
  {
    hide ScannerOk, ProjectsAreTaken, Running, TotalTaken;
    var s' := Apply(c, s, e);
    ScannersKept(c, s, e);
    UpdateCounts(s.scanners, e.i, s'.scanners[e.i]);
    if e.Deliver? && c.streams[e.i][s.scanners[e.i].taken].Value? {
      ProjectsGrow(c, s, e.i, s');
    } else {
      ProjectsKept(c, s, e.i, s'.scanners[e.i], s');
    }
  }

  lemma {:induction false} RunInv(c: Scan, steps: seq<Step>, s: State)
    requires c.Valid() && Run(c, steps, s)
    ensures Inv(c, s)
    decreases |steps|
  {
    if steps == [] {
      StartInv(c);
    } else {
      var s0: State :| StepTo(c, steps, s0, s);
      RunInv(c, steps[..|steps| - 1], s0);
      InvStep(c, s0, steps[|steps| - 1]);
    }
  }

  ghost predicate AllFinished(s: State) {
    forall i :: 0 <= i < |s.scanners| ==> s.scanners[i].Finished?
  }

  ghost predicate InStreams(c: Scan, p: int) {
    exists i :: 0 <= i < |c.streams| && Pagination.Value(p) in c.streams[i]
  }

  /** The items of all streams together. */
  function TotalItems(streams: seq<Stream>): nat {
    if streams == [] then 0 else |streams[0]| + TotalItems(streams[1..])
  }

  /** When the wait for the scanners is over, an error was reported exactly if some stream carried
      one. If none did, then whatever the interleaving and whatever the duplicates, the fleet's
      projects are exactly the matching projects of the streams, each kept once and attributed to
      a group whose stream has it; every item was counted, and matches never exceed the count. */
  lemma ScanIsExact(c: Scan, steps: seq<Step>, s: State)
    requires c.Valid() && Run(c, steps, s) && AllFinished(s)
    ensures |s.scanners| == |c.streams|
    ensures s.errors == [] <==> forall i :: 0 <= i < |c.streams| ==> Pagination.AllValues(c.streams[i])
    ensures |s.errors| <= |c.streams|
    ensures s.fleet.MatchedProjects() == |s.fleet.projects| <= s.fleet.scannedProjects
    ensures s.errors == [] ==>
              && (forall p :: p in s.fleet.projects <==> InStreams(c, p) && c.filter(p))
              && (forall p :: p in s.fleet.projects ==>
                    exists i :: 0 <= i < |c.streams| && Pagination.Value(p) in c.streams[i] && c.groups[i] == s.fleet.projects[p])
              && s.fleet.scannedProjects == TotalItems(c.streams)
  {
    RunInv(c, steps, s);
    ErrorsExactly(c, s);
    ErrorsFit(c, s);
    if s.errors == [] {
      AllTaken(c, s);
    }
  }

  lemma ErrorsExactly(c: Scan, s: State)
    requires c.Valid() && Inv(c, s) && AllFinished(s)
    ensures s.errors == [] <==> forall i :: 0 <= i < |c.streams| ==> Pagination.AllValues(c.streams[i])
  {
    hide ProjectsAreTaken, Running, TotalTaken;
    forall i | 0 <= i < |c.streams|
      ensures i !in s.errors <==> Pagination.AllValues(c.streams[i])
    {
      assert ScannerOk(c, s, i);
      var n := s.scanners[i].taken;
      if i in s.errors {
        assert c.streams[i][n] in c.streams[i];
      } else {
        assert c.streams[i][..n] == c.streams[i];
      }
    }
    if s.errors != [] {
      assert s.errors[0] in s.errors;
      assert !Pagination.AllValues(c.streams[s.errors[0]]);
    }
  }

  /** The error channel holds one error per group, so reporting one never blocks. */
  lemma ErrorsFit(c: Scan, s: State)
    requires c.Valid() && Inv(c, s)
    ensures |s.errors| <= |c.streams|
  {
    NoDupCardinality(s.errors);
    SubsetCardinality(Elements(s.errors), Indices(|c.streams|));
  }

  ghost function Indices(n: nat): (r: set<int>)
    ensures |r| == n && forall i :: i in r <==> 0 <= i < n
  {
    if n == 0 then {} else Indices(n - 1) + {n - 1}
  }

  lemma {:induction false} TakenTotal(streams: seq<Stream>, scanners: seq<Scanner>)
    requires |streams| == |scanners| && forall i :: 0 <= i < |streams| ==> scanners[i].Taken() == |streams[i]|
    ensures TotalTaken(scanners) == TotalItems(streams)
  {
    if streams != [] {
      TakenTotal(streams[1..], scanners[1..]);
    }
  }

  lemma AllTaken(c: Scan, s: State)
    requires c.Valid() && Inv(c, s) && AllFinished(s) && s.errors == []
    ensures forall p :: p in s.fleet.projects <==> InStreams(c, p) && c.filter(p)
    ensures forall p :: p in s.fleet.projects ==>
              exists i :: 0 <= i < |c.streams| && Pagination.Value(p) in c.streams[i] && c.groups[i] == s.fleet.projects[p]
    ensures s.fleet.scannedProjects == TotalItems(c.streams)
  {
    forall i | 0 <= i < |c.streams| ensures s.scanners[i].Taken() == |c.streams[i]| {
      assert ScannerOk(c, s, i);
    }
    TakenTotal(c.streams, s.scanners);
    forall i, p | 0 <= i < |c.streams|
      ensures TakenBy(c, s.scanners, i, p) <==> Pagination.Value(p) in c.streams[i]
    {
    }
    forall p ensures Taken(c, s.scanners, p) <==> InStreams(c, p) {
      if InStreams(c, p) {
        var i :| 0 <= i < |c.streams| && Pagination.Value(p) in c.streams[i];
        assert TakenBy(c, s.scanners, i, p);
      }
      if Taken(c, s.scanners, p) {
        var i :| 0 <= i < |s.scanners| && TakenBy(c, s.scanners, i, p);
        assert Pagination.Value(p) in c.streams[i];
      }
    }
    forall p | p in s.fleet.projects
      ensures exists i :: 0 <= i < |c.streams| && Pagination.Value(p) in c.streams[i] && c.groups[i] == s.fleet.projects[p]
    {
      var i :| 0 <= i < |s.scanners| && TakenBy(c, s.scanners, i, p) && c.groups[i] == s.fleet.projects[p];
      assert Pagination.Value(p) in c.streams[i];
    }
  }

  // ---------------------------------------------------------------------------
  // Progress
  // ---------------------------------------------------------------------------

  /** Steps a scanner has left at most. */
  function Left(stream: Stream, sc: Scanner): nat {
    match sc
    case Waiting => |stream| + 2
    case Scanning(n) => if n <= |stream| then |stream| - n + 1 else 0
    case Finished(_) => 0
  }

  function TotalLeft(streams: seq<Stream>, scanners: seq<Scanner>): nat
    requires |streams| == |scanners|
  {
    if streams == [] then 0 else Left(streams[0], scanners[0]) + TotalLeft(streams[1..], scanners[1..])
  }

  lemma {:induction false} UpdateLeft(streams: seq<Stream>, scanners: seq<Scanner>, i: nat, sc: Scanner)
    requires |streams| == |scanners| && i < |scanners|
    ensures TotalLeft(streams, scanners[i := sc]) == TotalLeft(streams, scanners) - Left(streams[i], scanners[i]) + Left(streams[i], sc)
  {
    if i > 0 {
      UpdateLeft(streams[1..], scanners[1..], i - 1, sc);
      assert scanners[i := sc][1..] == scanners[1..][i - 1 := sc];
    }
  }

  lemma {:induction false} NoneRunning(scanners: seq<Scanner>)
    requires forall i :: 0 <= i < |scanners| ==> !scanners[i].Scanning?
    ensures Running(scanners) == 0
  {
    if scanners != [] {
      NoneRunning(scanners[1..]);
    }
  }

  /** The scan cannot get stuck: until every scanner has finished some step is possible, and every
      step leaves fewer steps to go. */
  lemma ScanEnds(c: Scan, steps: seq<Step>, s: State)
    requires c.Valid() && Run(c, steps, s)
    ensures |s.scanners| == |c.streams|
    ensures !AllFinished(s) ==> exists e: Step :: Enabled(c, s, e)
    ensures forall e: Step :: Enabled(c, s, e) ==> TotalLeft(c.streams, Apply(c, s, e).scanners) < TotalLeft(c.streams, s.scanners)
  {
    RunInv(c, steps, s);
    if !AllFinished(s) {
      if i :| 0 <= i < |s.scanners| && s.scanners[i].Scanning? {
        assert ScannerOk(c, s, i);
        assert Enabled(c, s, if s.scanners[i].taken == |c.streams[i]| then Exit(i) else Deliver(i));
      } else {
        NoneRunning(s.scanners);
        var i := FirstWaiting(s.scanners);
        assert Enabled(c, s, Launch(i));
      }
    }
    forall e: Step | Enabled(c, s, e)
      ensures TotalLeft(c.streams, Apply(c, s, e).scanners) < TotalLeft(c.streams, s.scanners)
    {
      assert ScannerOk(c, s, e.i);
      UpdateLeft(c.streams, s.scanners, e.i, Apply(c, s, e).scanners[e.i]);
    }
  }

  lemma {:induction false} FirstWaiting(scanners: seq<Scanner>) returns (i: nat)
    requires exists k :: 0 <= k < |scanners| && scanners[k].Waiting?
    ensures i < |scanners| && scanners[i].Waiting? && forall k :: 0 <= k < i ==> !scanners[k].Waiting?
  {
    if scanners[0].Waiting? {
      i := 0;
    } else {
      i := FirstWaiting(scanners[1..]);
      i := i + 1;
    }
  }

  // ---------------------------------------------------------------------------
  // End to end
  // ---------------------------------------------------------------------------

  /** Some group in the selector's scope that is not excluded has the matching project `p`. */
  ghost predicate Targeted(g: GroupTree.Graph, roots: seq<int>, scope: GroupTree.Scope, excluded: int -> bool,
                           projectsOf: int -> seq<int>, filter: int -> bool, p: int)
    requires GroupTree.Closed(g, roots)
  {
    filter(p) && exists id :: GroupTree.InScope(g, roots, scope, id) && !excluded(id) && p in projectsOf(id)
  }

  /** The stream of a group, if it ends without an error, covers exactly the group's projects. */
  ghost predicate Covers(stream: Stream, projects: seq<int>) {
    Pagination.AllValues(stream) ==> forall p :: p in projects <==> Pagination.Value(p) in stream
  }

  /** Whatever the interleaving: a scan of the traversed groups that reports no error holds exactly
      the matching projects of the groups in scope. */
  lemma FleetIsTheScope(g: GroupTree.Graph, roots: seq<int>, scope: GroupTree.Scope, excluded: int -> bool,
                        projectsOf: int -> seq<int>, found: seq<GroupTree.Located>,
                        c: Scan, steps: seq<Step>, s: State)
    requires GroupTree.Closed(g, roots)
    requires forall id :: id in GroupTree.Ids(found) <==> GroupTree.InScope(g, roots, scope, id) && !excluded(id)
    requires c.Valid() && |found| == |c.groups| && forall i :: 0 <= i < |found| ==> c.groups[i] == found[i].id
    requires forall i :: 0 <= i < |found| ==> Covers(c.streams[i], projectsOf(found[i].id))
    requires Run(c, steps, s) && AllFinished(s)
    ensures s.errors == [] <==> forall i :: 0 <= i < |found| ==> Pagination.AllValues(c.streams[i])
    ensures s.errors == [] ==>
              forall p :: p in s.fleet.projects <==> Targeted(g, roots, scope, excluded, projectsOf, c.filter, p)
  {
    hide Run, AllFinished, GroupTree.InScope, Pagination.AllValues;
    ScanIsExact(c, steps, s);
    if s.errors == [] {
      forall p
        ensures InStreams(c, p) <==>
                exists id :: GroupTree.InScope(g, roots, scope, id) && !excluded(id) && p in projectsOf(id)
      {
        if InStreams(c, p) {
          var i :| 0 <= i < |c.streams| && Pagination.Value(p) in c.streams[i];
          assert Covers(c.streams[i], projectsOf(found[i].id));
          assert found[i].id in GroupTree.Ids(found);
        }
        if id :| GroupTree.InScope(g, roots, scope, id) && !excluded(id) && p in projectsOf(id) {
          assert id in GroupTree.Ids(found);
          var i :| 0 <= i < |found| && found[i].id == id;
          assert Covers(c.streams[i], projectsOf(found[i].id));
          assert Pagination.Value(p) in c.streams[i];
        }
      }
    }
  }

  /** The project listing of every group: a server for each, and when its stream's context is done. */
  datatype Listings = Listings(serverOf: int -> Pagination.Server, cancelOf: int -> nat -> bool,
                               options: Pagination.Options, autoFallback: bool) {
    ghost predicate Valid() {
      && Pagination.FromStart(options)
      && forall id :: Pagination.Ascending(serverOf(id).ids) && Pagination.Honest(serverOf(id))
    }

    function ProjectsOf(): int -> seq<int> {
      id => serverOf(id).ids
    }
  }

  /** The stream each scanner reads. */
  method StreamGroups(found: seq<GroupTree.Located>, l: Listings) returns (streams: seq<Stream>)
    requires l.Valid()
    ensures |streams| == |found|
    ensures forall i :: 0 <= i < |found| ==> Covers(streams[i], l.ProjectsOf()(found[i].id))
  {
    hide Pagination.Streamed, Pagination.AllValues, Pagination.Honest, Pagination.Ascending;
    streams := [];
    for i := 0 to |found|
      invariant |streams| == i
      invariant forall k :: 0 <= k < i ==> Covers(streams[k], l.ProjectsOf()(found[k].id))
    {
      var id := found[i].id;
      var out := Pagination.StreamAll(l.serverOf(id), l.options, l.autoFallback, l.cancelOf(id));
      streams := streams + [out];
    }
  }

  /** Group-scoped discovery end to end, from the group graph and the paginated project listings to
      the fleet: for every interleaving of the scanners the scan of the traversed groups reports an
      error exactly if some stream ended with one, and otherwise the fleet's project IDs are exactly
      the matching projects of the groups in scope that are not excluded. */
  method ExecuteGroupMode(g: GroupTree.Graph, roots: seq<int>, scope: GroupTree.Scope, excluded: int -> bool,
                          failing: set<int>, done: nat -> bool, l: Listings, filter: int -> bool, concurrency: nat)
    returns (traversal: GroupTree.Outcome, c: Scan)
    requires GroupTree.Closed(g, roots) && l.Valid() && concurrency >= 1
    ensures c.Valid() && c.filter == filter && c.concurrency == concurrency
    ensures traversal.Groups? ==> forall steps, s :: Run(c, steps, s) && AllFinished(s) ==>
              && (s.errors == [] <==> forall i :: 0 <= i < |c.streams| ==> Pagination.AllValues(c.streams[i]))
              && (s.errors == [] ==>
                    forall p :: p in s.fleet.projects <==> Targeted(g, roots, scope, excluded, l.ProjectsOf(), filter, p))
  {
    hide Run, AllFinished, Pagination.AllValues, Targeted, Covers;
    c := Scan([], [], filter, concurrency);
    traversal := GroupTree.Traverse(g, roots, scope, excluded, failing, done);
    if traversal.Groups? {
      var found := traversal.groups;
      assert forall id :: id in GroupTree.Ids(found) <==> GroupTree.InScope(g, roots, scope, id) && !excluded(id);
      var streams := StreamGroups(found, l);
      c := Scan(seq(|found|, i requires 0 <= i < |found| => found[i].id), streams, filter, concurrency);
      forall steps, s | Run(c, steps, s) && AllFinished(s)
        ensures (s.errors == [] <==> forall i :: 0 <= i < |c.streams| ==> Pagination.AllValues(c.streams[i]))
        ensures s.errors == [] ==>
                  forall p :: p in s.fleet.projects <==> Targeted(g, roots, scope, excluded, l.ProjectsOf(), filter, p)
      {
        FleetIsTheScope(g, roots, scope, excluded, l.ProjectsOf(), found, c, steps, s);
      }
    }
  }
}
