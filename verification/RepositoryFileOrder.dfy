/** What one Apply of repository files settles in the very order in which they are declared, when no
    path has two merge requests to one target (internal/governance/repositoryfiles.go). */
module RepositoryFileOrder {
  import opened Prelude
  import opened RepositoryFiles

  // ---------------------------------------------------------------------------
  // The declarations in their order
  // ---------------------------------------------------------------------------

  predicate Commits(f: File, path: string, branch: string) {
    f.enforcement == DirectCommit && f.path == path && f.target == branch
  }

  /** The file is aimed at the feature branch of its own path. */
  predicate OnFeature(y: Sync, f: File) {
    f.target == y.feature(f.path)
  }

  ghost predicate OneRequest(fs: seq<File>) {
    forall i, j :: 0 <= i < j < |fs| && fs[i].enforcement == fs[j].enforcement == MergeRequest && fs[i].path == fs[j].path ==>
      fs[i].target != fs[j].target
  }

  ghost predicate CommitsAgree(fs: seq<File>, y: Sync) {
    forall i, j :: !CommitsClash(fs, y, i, j)
  }

  /** Direct commits of different contents to one path of one branch. */
  predicate CommitsClash(fs: seq<File>, y: Sync, i: int, j: int) {
    && 0 <= i < |fs| && 0 <= j < |fs| && fs[i].enforcement == DirectCommit
    && Commits(fs[j], fs[i].path, fs[i].target) && y.want(fs[i]) != y.want(fs[j])
  }

  /** An earlier direct commit has brought the content of file k to its target. */
  ghost predicate Confirmed(fs: seq<File>, y: Sync, k: nat)
    requires k < |fs|
  {
    exists j :: 0 <= j < k && Commits(fs[j], fs[k].path, fs[k].target) && y.want(fs[j]) == y.want(fs[k])
  }

  /** An earlier direct commit has brought another content there. */
  ghost predicate Contradicted(fs: seq<File>, y: Sync, k: nat)
    requires k < |fs|
  {
    exists j :: 0 <= j < k && Commits(fs[j], fs[k].path, fs[k].target) && y.want(fs[j]) != y.want(fs[k])
  }

  /** Some direct commit, earlier or later, brings another content there. */
  ghost predicate Overruled(fs: seq<File>, y: Sync, k: nat)
    requires k < |fs|
  {
    exists j :: 0 <= j < |fs| && Commits(fs[j], fs[k].path, fs[k].target) && y.want(fs[j]) != y.want(fs[k])
  }

  /** Whatever the repository, handling file k leaves its content on the feature branch of its path. */
  ghost predicate MustSet(fs: seq<File>, y: Sync, k: nat)
    requires k < |fs|
  {
    match fs[k].enforcement
    case DirectCommit => OnFeature(y, fs[k])
    case MergeRequest => OnFeature(y, fs[k]) || Contradicted(fs, y, k)
    case AuditOnly => false
  }

  /** In some repository it does. */
  ghost predicate MaySet(fs: seq<File>, y: Sync, k: nat)
    requires k < |fs|
  {
    match fs[k].enforcement
    case DirectCommit => OnFeature(y, fs[k])
    case MergeRequest => OnFeature(y, fs[k]) || !Confirmed(fs, y, k)
    case AuditOnly => false
  }

  /** File k can be the last to set the feature branch of its path. */
  ghost predicate CanBeLast(fs: seq<File>, y: Sync, k: nat)
    requires k < |fs|
  {
    MaySet(fs, y, k) && forall j :: k < j < |fs| && fs[j].path == fs[k].path ==> !MustSet(fs, y, j)
  }

  /** File k is settled only if its content ends up on the feature branch. */
  ghost predicate NeedsFeature(fs: seq<File>, y: Sync, k: nat)
    requires k < |fs|
  {
    match fs[k].enforcement
    case DirectCommit => OnFeature(y, fs[k])
    case MergeRequest => OnFeature(y, fs[k]) || Overruled(fs, y, k)
    case AuditOnly => false
  }

  /** A merge request whose target nothing else writes: its target has the content or its feature
      branch brings it. */
  ghost predicate Waits(fs: seq<File>, y: Sync, k: nat)
    requires k < |fs|
  {
    fs[k].enforcement == MergeRequest && !OnFeature(y, fs[k]) && !Directed(fs, fs[k].path, fs[k].target)
  }

  /** Some merge request from the same branch to the same target is opened in any case. */
  ghost predicate OpenedAnyway(fs: seq<File>, y: Sync, k: nat)
    requires k < |fs|
  {
    exists x :: 0 <= x < |fs| && SameRequest(y, fs[x], fs[k]) && Contradicted(fs, y, x)
  }

  predicate SameRequest(y: Sync, f: File, g: File) {
    f.enforcement == MergeRequest && y.feature(f.path) == y.feature(g.path) && f.target == g.target
  }

  ghost predicate SomeMustSet(fs: seq<File>, y: Sync, from: nat, path: string) {
    exists m :: from <= m < |fs| && fs[m].path == path && MustSet(fs, y, m)
  }

  /** Whatever can be the last to set the feature branch of a path, from a position on, has this content. */
  ghost predicate LastHas(fs: seq<File>, y: Sync, from: nat, path: string, want: string) {
    forall i :: from <= i < |fs| && fs[i].path == path && CanBeLast(fs, y, i) ==> y.want(fs[i]) == want
  }

  /** The order of the declarations is in order. */
  ghost predicate OrderFits(fs: seq<File>, y: Sync) {
    && CommitsAgree(fs, y)
    && (forall k :: 0 <= k < |fs| && NeedsFeature(fs, y, k) ==>
          SomeMustSet(fs, y, 0, fs[k].path) && LastHas(fs, y, 0, fs[k].path, y.want(fs[k])))
    && (forall k :: 0 <= k < |fs| && NeedsFeature(fs, y, k) && !OnFeature(y, fs[k]) ==> OpenedAnyway(fs, y, k))
    && (forall k :: 0 <= k < |fs| && Waits(fs, y, k) ==> LastHas(fs, y, k, fs[k].path, y.want(fs[k])))
  }

  /** One Apply settles every enforced file, from every repository that has the target branches. */
  ghost predicate SettlesAsDeclared(fs: seq<File>, y: Sync) {
    forall r :: HasTargets(r, fs) ==> AllSettled(AfterFiles(r, y, fs), y, fs)
  }

  // ---------------------------------------------------------------------------
  // A run, file by file
  // ---------------------------------------------------------------------------

  ghost function At(r: Repo, y: Sync, fs: seq<File>, n: nat): Repo
    requires n <= |fs|
  {
    AfterFiles(r, y, fs[..n])
  }

  predicate Has(r: Repo, branch: string, path: string, want: string) {
    Matches(Fetch(r.files, branch, path), want)
  }

  lemma NextFile(r: Repo, y: Sync, fs: seq<File>, n: nat)
    requires n < |fs|
    ensures At(r, y, fs, n + 1) == AfterFile(At(r, y, fs, n), y, fs[n])
  {
    hide AfterFile;
    assert fs[..n + 1][..n] == fs[..n];
  }

  lemma Branches(r: Repo, y: Sync, fs: seq<File>, n: nat)
    requires HasTargets(r, fs) && n <= |fs|
    ensures r.files.Keys <= At(r, y, fs, n).files.Keys && HasTargets(At(r, y, fs, n), fs)
  {
    FilesKeepBranches(r, y, fs[..n]);
  }

  lemma SettledHere(r: Repo, y: Sync, fs: seq<File>, n: nat)
    requires y.Normal() && HasTargets(r, fs) && n < |fs| && fs[n].enforcement != AuditOnly
    ensures Settled(At(r, y, fs, n + 1), y, fs[n])
  {
    hide At, AfterFile, Settled;
    Branches(r, y, fs, n);
    NextFile(r, y, fs, n);
    FileSettles(At(r, y, fs, n), y, fs[n]);
  }

  lemma Between(r: Repo, y: Sync, fs: seq<File>, m: nat, n: nat)
    requires m <= n <= |fs|
    ensures At(r, y, fs, n) == AfterFiles(At(r, y, fs, m), y, fs[m..n])
  {
    hide AfterFiles;
    assert fs[..n] == fs[..m] + fs[m..n];
    FilesInTurn(r, y, fs[..m], fs[m..n]);
  }

  /** A target other than the feature branch keeps what was committed to it directly. */
  lemma CommittedStays(r: Repo, y: Sync, fs: seq<File>, j: nat, n: nat)
    requires y.Normal() && HasTargets(r, fs) && CommitsAgree(fs, y) && j < n <= |fs|
    requires fs[j].enforcement == DirectCommit && !OnFeature(y, fs[j])
    ensures Has(At(r, y, fs, n), fs[j].target, fs[j].path, y.want(fs[j]))
  {
    hide At, Normalize, AfterFiles;
    SettledHere(r, y, fs, j);
    Branches(r, y, fs, j + 1);
    Between(r, y, fs, j + 1, n);
    forall f | f in fs[j + 1..n] && y.Writes(f, fs[j].target, fs[j].path) ensures y.want(f) == y.want(fs[j]) {
      var i :| j + 1 <= i < n && fs[i] == f;
      assert !CommitsClash(fs, y, j, i);
    }
    FilesFrame(At(r, y, fs, j + 1), y, fs[j + 1..n], fs[j].target, fs[j].path, y.want(fs[j]));
  }

  lemma ContentsDiffer(r: Repo, branch: string, path: string, a: string, b: string)
    requires Has(r, branch, path, a) && a != b
    ensures !Has(r, branch, path, b)
  {
    hide Normalize;
  }

  lemma SetsFeature(r: Repo, y: Sync, fs: seq<File>, n: nat)
    requires y.Normal() && HasTargets(r, fs) && CommitsAgree(fs, y) && n < |fs| && MustSet(fs, y, n)
    ensures Has(At(r, y, fs, n + 1), y.feature(fs[n].path), fs[n].path, y.want(fs[n]))
  {
    hide At, Matches, CommitsAgree;
    SettledHere(r, y, fs, n);
    if !OnFeature(y, fs[n]) {
      var j :| 0 <= j < n && Commits(fs[j], fs[n].path, fs[n].target) && y.want(fs[j]) != y.want(fs[n]);
      CommittedStays(r, y, fs, j, n + 1);
      ContentsDiffer(At(r, y, fs, n + 1), fs[n].target, fs[n].path, y.want(fs[j]), y.want(fs[n]));
    }
  }

  /** A confirmed merge request has nothing to do. */
  lemma ConfirmedIsIdle(r: Repo, y: Sync, fs: seq<File>, n: nat)
    requires y.Normal() && HasTargets(r, fs) && CommitsAgree(fs, y) && n < |fs|
    requires Confirmed(fs, y, n) && !OnFeature(y, fs[n])
    ensures At(r, y, fs, n + 1) == At(r, y, fs, n)
  {
    hide At, Matches, CommitsAgree, AfterFile;
    var j :| 0 <= j < n && Commits(fs[j], fs[n].path, fs[n].target) && y.want(fs[j]) == y.want(fs[n]);
    CommittedStays(r, y, fs, j, n);
    NextFile(r, y, fs, n);
    SettledIsIdle(At(r, y, fs, n), y, fs[n]);
  }

  /** What the feature branch has is only replaced by a file that may set it. */
  lemma KeptUnlessSet(r: Repo, y: Sync, fs: seq<File>, n: nat, path: string, want: string)
    requires y.Normal() && HasTargets(r, fs) && CommitsAgree(fs, y) && n < |fs|
    requires Has(At(r, y, fs, n), y.feature(path), path, want)
    ensures Has(At(r, y, fs, n + 1), y.feature(path), path, want) || (fs[n].path == path && MaySet(fs, y, n) && y.want(fs[n]) != want)
  {
    hide At, AfterFile, CommitsAgree, Normalize;
    NextFile(r, y, fs, n);
    FileFrame(At(r, y, fs, n), y, fs[n], y.feature(path), path);
    assert Normalize(y.want(fs[n])) == y.want(fs[n]);
    if y.Writes(fs[n], y.feature(path), path) && !MaySet(fs, y, n) {
      ConfirmedIsIdle(r, y, fs, n);
    }
  }

  /** The feature branch ends up with what every file that can be the last to set it wants. */
  lemma {:induction false} EndsAs(r: Repo, y: Sync, fs: seq<File>, n: nat, path: string, want: string)
    requires y.Normal() && HasTargets(r, fs) && CommitsAgree(fs, y) && n <= |fs|
    requires Has(At(r, y, fs, n), y.feature(path), path, want) || SomeMustSet(fs, y, n, path)
    requires LastHas(fs, y, n, path, want)
    ensures Has(At(r, y, fs, |fs|), y.feature(path), path, want)
    decreases |fs| - n
  {
    hide At, Has, CommitsAgree, MustSet, MaySet;
    if n < |fs| {
      if !SomeMustSet(fs, y, n + 1, path) {
        if fs[n].path == path && MustSet(fs, y, n) {
          MustIsMay(fs, y, n);
          assert CanBeLast(fs, y, n);
          SetsFeature(r, y, fs, n);
        } else {
          KeptUnlessSet(r, y, fs, n, path, want);
          assert fs[n].path == path && MaySet(fs, y, n) ==> CanBeLast(fs, y, n);
        }
      }
      EndsAs(r, y, fs, n + 1, path, want);
    }
  }

  lemma MustIsMay(fs: seq<File>, y: Sync, k: nat)
    requires CommitsAgree(fs, y) && k < |fs| && MustSet(fs, y, k)
    ensures MaySet(fs, y, k)
  {
    if fs[k].enforcement == MergeRequest && Contradicted(fs, y, k) {
      var j :| 0 <= j < k && Commits(fs[j], fs[k].path, fs[k].target) && y.want(fs[j]) != y.want(fs[k]);
      forall i | 0 <= i < k && Commits(fs[i], fs[k].path, fs[k].target) ensures y.want(fs[i]) != y.want(fs[k]) {
        assert !CommitsClash(fs, y, j, i);
      }
    }
  }

  // ---------------------------------------------------------------------------
  // A fitting order settles
  // ---------------------------------------------------------------------------

  lemma OpenedInTheEnd(r: Repo, y: Sync, fs: seq<File>, x: nat)
    requires y.Normal() && HasTargets(r, fs) && CommitsAgree(fs, y) && x < |fs|
    requires fs[x].enforcement == MergeRequest && Contradicted(fs, y, x) && !OnFeature(y, fs[x])
    ensures (y.feature(fs[x].path), fs[x].target) in At(r, y, fs, |fs|).mrs
  {
    hide At, Matches, CommitsAgree;
    var j :| 0 <= j < x && Commits(fs[j], fs[x].path, fs[x].target) && y.want(fs[j]) != y.want(fs[x]);
    SettledHere(r, y, fs, x);
    CommittedStays(r, y, fs, j, x + 1);
    ContentsDiffer(At(r, y, fs, x + 1), fs[x].target, fs[x].path, y.want(fs[j]), y.want(fs[x]));
    OpenStays(r, y, fs, x + 1);
  }

  lemma {:induction false} RequestsStay(r: Repo, y: Sync, fs: seq<File>)
    ensures r.mrs <= AfterFiles(r, y, fs).mrs
  {
    if fs != [] {
      RequestsStay(r, y, fs[..|fs| - 1]);
    }
  }

  lemma OpenStays(r: Repo, y: Sync, fs: seq<File>, n: nat)
    requires n <= |fs|
    ensures At(r, y, fs, n).mrs <= At(r, y, fs, |fs|).mrs
  {
    hide At, AfterFiles;
    Between(r, y, fs, n, |fs|);
    RequestsStay(At(r, y, fs, n), y, fs[n..|fs|]);
  }

  lemma NeedySettles(r: Repo, y: Sync, fs: seq<File>, k: nat)
    requires y.Normal() && HasTargets(r, fs) && OrderFits(fs, y) && k < |fs| && NeedsFeature(fs, y, k)
    ensures Settled(At(r, y, fs, |fs|), y, fs[k])
  {
    hide At, Matches, CommitsAgree, SomeMustSet, LastHas, Contradicted, Overruled;
    EndsAs(r, y, fs, 0, fs[k].path, y.want(fs[k]));
    if !OnFeature(y, fs[k]) {
      var x :| 0 <= x < |fs| && SameRequest(y, fs[x], fs[k]) && Contradicted(fs, y, x);
      OpenedInTheEnd(r, y, fs, x);
    }
  }

  lemma WaitingSettles(r: Repo, y: Sync, fs: seq<File>, k: nat)
    requires y.Normal() && HasTargets(r, fs) && OrderFits(fs, y) && k < |fs| && Waits(fs, y, k)
    ensures Settled(At(r, y, fs, |fs|), y, fs[k])
  {
    hide At, Matches, CommitsAgree, CanBeLast, MustSet, NeedsFeature, OpenedAnyway, SomeMustSet;
    var f, end := fs[k], At(r, y, fs, |fs|);
    if !Has(end, f.target, f.path, y.want(f)) {
      UnwrittenStays(r, y, fs, k, k + 1);
      SettledHere(r, y, fs, k);
      OpenStays(r, y, fs, k + 1);
      EndsAs(r, y, fs, k + 1, f.path, y.want(f));
    }
  }

  /** The target of a waiting merge request is as it was. */
  lemma UnwrittenStays(r: Repo, y: Sync, fs: seq<File>, k: nat, n: nat)
    requires y.Normal() && HasTargets(r, fs) && k < |fs| && Waits(fs, y, k) && n <= |fs|
    ensures Fetch(At(r, y, fs, n).files, fs[k].target, fs[k].path) == Fetch(r.files, fs[k].target, fs[k].path)
    ensures Fetch(At(r, y, fs, |fs|).files, fs[k].target, fs[k].path) == Fetch(r.files, fs[k].target, fs[k].path)
  {
    hide AfterFiles, Normalize;
    var f := fs[k];
    assert forall x :: x in fs ==> !y.Writes(x, f.target, f.path);
    FilesFrame(r, y, fs[..n], f.target, f.path, y.want(f));
    FilesFrame(r, y, fs[..|fs|], f.target, f.path, y.want(f));
  }

  lemma FittingSettles(r: Repo, y: Sync, fs: seq<File>, k: nat)
    requires y.Normal() && HasTargets(r, fs) && OrderFits(fs, y) && k < |fs| && fs[k].enforcement != AuditOnly
    ensures Settled(At(r, y, fs, |fs|), y, fs[k])
  {
    hide At, Matches, OrderFits, CommitsAgree;
    assert CommitsAgree(fs, y) by { FitsAgrees(fs, y); }
    if NeedsFeature(fs, y, k) {
      NeedySettles(r, y, fs, k);
    } else if Waits(fs, y, k) {
      WaitingSettles(r, y, fs, k);
    } else if fs[k].enforcement == DirectCommit {
      CommittedStays(r, y, fs, k, |fs|);
    } else {
      var d :| d in fs && d.enforcement == DirectCommit && d.path == fs[k].path && d.target == fs[k].target;
      var j :| 0 <= j < |fs| && fs[j] == d;
      assert Commits(fs[j], fs[k].path, fs[k].target);
      CommittedStays(r, y, fs, j, |fs|);
    }
  }

  lemma FitsAgrees(fs: seq<File>, y: Sync)
    requires OrderFits(fs, y)
    ensures CommitsAgree(fs, y)
  {
  }

  // ---------------------------------------------------------------------------
  // Any other order fails somewhere
  // ---------------------------------------------------------------------------

  predicate RequestAt(fs: seq<File>, y: Sync, x: int, path: string, branch: string) {
    0 <= x < |fs| && fs[x].enforcement == MergeRequest && fs[x].path == path && fs[x].target == branch && !OnFeature(y, fs[x])
  }

  /** What a merge request from position n on wants of its target. */
  ghost function Prepared(fs: seq<File>, y: Sync, n: nat, path: string, branch: string): Option<string> {
    if exists x :: n <= x && RequestAt(fs, y, x, path, branch) then
      var x :| n <= x && RequestAt(fs, y, x, path, branch);
      Some(y.want(fs[x]))
    else None
  }

  /** A repository whose targets have, for one path, what the merge requests from position n on want. */
  ghost function Start(fs: seq<File>, y: Sync, n: nat, path: string): Repo {
    RepositoryFiles.Start(fs, y, (b, p) => if p == path then Prepared(fs, y, n, p, b) else None)
  }

  lemma StartHas(fs: seq<File>, y: Sync, n: nat, k: nat)
    requires y.Normal() && OneRequest(fs) && k < |fs|
    ensures var r, f := Start(fs, y, n, fs[k].path), fs[k];
            && HasTargets(r, fs) && y.feature(f.path) in r.files
            && Fetch(r.files, y.feature(f.path), f.path) == None
            && (f.enforcement == MergeRequest && !OnFeature(y, f) ==>
                 if n <= k then Has(r, f.target, f.path, y.want(f)) else Fetch(r.files, f.target, f.path) == None)
  {
    hide RepositoryFiles.Start, Normalize;
    var f := fs[k];
    var at := (b, p) => if p == f.path then Prepared(fs, y, n, p, b) else None;
    RepositoryFiles.StartHas(fs, y, at, f);
    assert forall x :: !RequestAt(fs, y, x, f.path, y.feature(f.path));
    if f.enforcement == MergeRequest && !OnFeature(y, f) {
      assert Normalize(y.want(f)) == y.want(f);
      assert RequestAt(fs, y, k, f.path, f.target);
      forall x | RequestAt(fs, y, x, f.path, f.target) ensures x == k {}
    }
  }

  /** From position n on, where nothing must set the feature branch, nothing does. */
  lemma {:induction false} Undisturbed(fs: seq<File>, y: Sync, n: nat, k: nat, m: nat)
    requires y.Normal() && OneRequest(fs) && k < |fs| && n <= m <= |fs|
    requires !SomeMustSet(fs, y, n, fs[k].path)
    ensures var r, feature := Start(fs, y, n, fs[k].path), y.feature(fs[k].path);
            Fetch(At(r, y, fs, m).files, feature, fs[k].path) == Fetch(At(r, y, fs, n).files, feature, fs[k].path)
    decreases m
  {
    hide *;
    if n < m {
      Undisturbed(fs, y, n, k, m - 1);
      UndisturbedStep(fs, y, n, k, m - 1);
    }
  }

  lemma UndisturbedStep(fs: seq<File>, y: Sync, n: nat, k: nat, m: nat)
    requires y.Normal() && OneRequest(fs) && k < |fs| && n <= m < |fs|
    requires !SomeMustSet(fs, y, n, fs[k].path)
    ensures var r, feature := Start(fs, y, n, fs[k].path), y.feature(fs[k].path);
            Fetch(At(r, y, fs, m + 1).files, feature, fs[k].path) == Fetch(At(r, y, fs, m).files, feature, fs[k].path)
  {
    hide At, AfterFile, Start, SomeMustSet, MustSet, OneRequest, Fetch;
    var r, path := Start(fs, y, n, fs[k].path), fs[k].path;
    if y.Writes(fs[m], y.feature(path), path) {
      NotMustSet(fs, y, n, m, path);
      PreparedIsIdle(fs, y, n, m);
    } else {
      StartHas(fs, y, n, k);
      NextFile(r, y, fs, m);
      Branches(r, y, fs, m);
      FileFrame(At(r, y, fs, m), y, fs[m], y.feature(path), path);
    }
  }

  lemma NotMustSet(fs: seq<File>, y: Sync, n: nat, m: nat, path: string)
    requires !SomeMustSet(fs, y, n, path) && n <= m < |fs| && fs[m].path == path
    ensures !MustSet(fs, y, m)
  {
  }

  /** A merge request that nothing contradicts finds its prepared target in order. */
  lemma PreparedIsIdle(fs: seq<File>, y: Sync, n: nat, m: nat)
    requires y.Normal() && OneRequest(fs) && n <= m < |fs| && !MustSet(fs, y, m) && y.Writes(fs[m], y.feature(fs[m].path), fs[m].path)
    ensures var r := Start(fs, y, n, fs[m].path); At(r, y, fs, m + 1) == At(r, y, fs, m)
  {
    hide At, AfterFile, Start, OneRequest, Normalize, AfterFiles;
    var r, f := Start(fs, y, n, fs[m].path), fs[m];
    StartHas(fs, y, n, m);
    assert f.enforcement == MergeRequest;
    UncontradictedStays(r, y, fs, m);
    NextFile(r, y, fs, m);
    SettledIsIdle(At(r, y, fs, m), y, f);
  }

  lemma UncontradictedStays(r: Repo, y: Sync, fs: seq<File>, m: nat)
    requires y.Normal() && HasTargets(r, fs) && m < |fs| && fs[m].enforcement == MergeRequest && !OnFeature(y, fs[m])
    requires !Contradicted(fs, y, m) && Has(r, fs[m].target, fs[m].path, y.want(fs[m]))
    ensures Has(At(r, y, fs, m), fs[m].target, fs[m].path, y.want(fs[m]))
  {
    hide AfterFiles, Normalize;
    var f := fs[m];
    forall x | x in fs[..m] && y.Writes(x, f.target, f.path) ensures y.want(x) == y.want(f) {
      var j :| 0 <= j < m && fs[j] == x;
      assert Commits(fs[j], f.path, f.target);
    }
    FilesFrame(r, y, fs[..m], f.target, f.path, y.want(f));
  }

  /** The repository prepared for what follows a file that can be the last: the file sets the feature
      branch, and that stays. */
  lemma LastSets(fs: seq<File>, y: Sync, i: nat)
    requires y.Normal() && OneRequest(fs) && CommitsAgree(fs, y) && i < |fs| && CanBeLast(fs, y, i)
    ensures var r := Start(fs, y, i + 1, fs[i].path);
            HasTargets(r, fs) && Has(At(r, y, fs, |fs|), y.feature(fs[i].path), fs[i].path, y.want(fs[i]))
  {
    hide At, Start, Normalize, CommitsAgree, OneRequest, MustSet, Contradicted, Confirmed;
    var r, f := Start(fs, y, i + 1, fs[i].path), fs[i];
    StartHas(fs, y, i + 1, i);
    if MustSet(fs, y, i) {
      SetsFeature(r, y, fs, i);
    } else {
      FreshRequestSets(r, y, fs, i);
    }
    assert !SomeMustSet(fs, y, i + 1, f.path);
    Undisturbed(fs, y, i + 1, i, |fs|);
  }

  /** A merge request whose target nothing has written, and which is missing there, is carried out. */
  lemma FreshRequestSets(r: Repo, y: Sync, fs: seq<File>, i: nat)
    requires y.Normal() && HasTargets(r, fs) && i < |fs| && MaySet(fs, y, i) && !MustSet(fs, y, i)
    requires Fetch(r.files, fs[i].target, fs[i].path) == None
    ensures Has(At(r, y, fs, i + 1), y.feature(fs[i].path), fs[i].path, y.want(fs[i]))
  {
    hide AfterFiles, Normalize;
    var f := fs[i];
    assert forall j :: 0 <= j < i ==> !Commits(fs[j], f.path, f.target);
    forall x | x in fs[..i + 1] ensures !y.Writes(x, f.target, f.path) {
      var j :| 0 <= j < i + 1 && fs[j] == x;
    }
    FilesFrame(r, y, fs[..i + 1], f.target, f.path, y.want(f));
    SettledHere(r, y, fs, i);
  }

  lemma Unsettled(r: Repo, y: Sync, fs: seq<File>, k: nat)
    requires HasTargets(r, fs) && k < |fs| && fs[k].enforcement != AuditOnly && !Settled(At(r, y, fs, |fs|), y, fs[k])
    ensures !SettlesAsDeclared(fs, y)
  {
    hide Settled, AfterFiles;
    assert fs[..|fs|] == fs;
    assert !AllSettled(AfterFiles(r, y, fs), y, fs);
  }

  /** A file in need of the feature branch, or the direct commit that overrules it, is left behind. */
  lemma NeedyFails(r: Repo, y: Sync, fs: seq<File>, k: nat)
    requires HasTargets(r, fs) && k < |fs| && NeedsFeature(fs, y, k)
    requires OnFeature(y, fs[k]) || fs[k].enforcement == MergeRequest
    requires var end := At(r, y, fs, |fs|);
             !Has(end, y.feature(fs[k].path), fs[k].path, y.want(fs[k]))
             || (!OnFeature(y, fs[k]) && (y.feature(fs[k].path), fs[k].target) !in end.mrs)
    ensures !SettlesAsDeclared(fs, y)
  {
    hide At, Normalize, SettlesAsDeclared;
    var end := At(r, y, fs, |fs|);
    if Settled(end, y, fs[k]) {
      var j :| 0 <= j < |fs| && Commits(fs[j], fs[k].path, fs[k].target) && y.want(fs[j]) != y.want(fs[k]);
      Unsettled(r, y, fs, j);
    } else {
      Unsettled(r, y, fs, k);
    }
  }

  /** Nothing is sure to set the feature branch that file k needs. */
  lemma NeverSetFails(fs: seq<File>, y: Sync, k: nat)
    requires y.Normal() && OneRequest(fs) && CommitsAgree(fs, y) && k < |fs|
    requires NeedsFeature(fs, y, k) && !SomeMustSet(fs, y, 0, fs[k].path)
    ensures !SettlesAsDeclared(fs, y)
  {
    hide At, Start, Normalize, CommitsAgree, OneRequest, SettlesAsDeclared;
    var r := Start(fs, y, 0, fs[k].path);
    StartHas(fs, y, 0, k);
    NotMustSet(fs, y, 0, k, fs[k].path);
    Undisturbed(fs, y, 0, k, |fs|);
    StartsAt(r, y, fs);
    NeedyFails(r, y, fs, k);
  }

  lemma StartsAt(r: Repo, y: Sync, fs: seq<File>)
    ensures At(r, y, fs, 0) == r
  {
  }

  /** A file with another content can be the last to set the feature branch file k depends on. */
  ghost predicate OtherLast(fs: seq<File>, y: Sync, k: int, i: int) {
    && 0 <= k < |fs| && 0 <= i < |fs| && (NeedsFeature(fs, y, k) || (Waits(fs, y, k) && k <= i))
    && fs[i].path == fs[k].path && CanBeLast(fs, y, i) && y.want(fs[i]) != y.want(fs[k])
  }

  lemma OtherLastFails(fs: seq<File>, y: Sync, k: nat, i: nat)
    requires y.Normal() && OneRequest(fs) && CommitsAgree(fs, y) && OtherLast(fs, y, k, i)
    ensures !SettlesAsDeclared(fs, y)
  {
    hide At, Start, Normalize, Matches, CommitsAgree, OneRequest, SettlesAsDeclared, CanBeLast;
    var r := Start(fs, y, i + 1, fs[i].path);
    LastSets(fs, y, i);
    ContentsDiffer(At(r, y, fs, |fs|), y.feature(fs[k].path), fs[k].path, y.want(fs[i]), y.want(fs[k]));
    if NeedsFeature(fs, y, k) {
      NeedyFails(r, y, fs, k);
    } else {
      StartHas(fs, y, i + 1, k);
      UnwrittenStays(r, y, fs, k, |fs|);
      NothingMatches(y.want(fs[k]));
      Unsettled(r, y, fs, k);
    }
  }

  lemma NothingMatches(want: string)
    ensures !Matches(None, want)
  {
  }

  // ---------------------------------------------------------------------------
  // A merge request that may stay closed
  // ---------------------------------------------------------------------------

  /** The targets have what the merge requests from one branch to one target want. */
  ghost function Closed(fs: seq<File>, y: Sync, feature: string, target: string): Repo {
    RepositoryFiles.Start(fs, y, (b, p) => if b == target then Requested(fs, y, feature, target, p) else None)
  }

  lemma ClosedHas(fs: seq<File>, y: Sync, feature: string, target: string, k: nat)
    requires y.Normal() && OneRequest(fs) && k < |fs|
    ensures var r := Closed(fs, y, feature, target);
            && HasTargets(r, fs) && r.mrs == {}
            && (fs[k].enforcement == MergeRequest && y.feature(fs[k].path) == feature && fs[k].target == target ==>
                 Has(r, target, fs[k].path, y.want(fs[k])))
  {
    hide RepositoryFiles.Start, Normalize;
    var f := fs[k];
    var at := (b, p) => if b == target then Requested(fs, y, feature, target, p) else None;
    RepositoryFiles.StartHas(fs, y, at, f);
    if f.enforcement == MergeRequest && y.feature(f.path) == feature && f.target == target {
      assert Normalize(y.want(f)) == y.want(f);
      assert RepositoryFiles.Between(fs, y, f, feature, target);
      forall m | RepositoryFiles.Between(fs, y, m, feature, target) && m.path == f.path ensures m == f {
        var x :| 0 <= x < |fs| && fs[x] == m;
      }
    }
  }

  lemma {:induction false} StaysShut(fs: seq<File>, y: Sync, k: nat, n: nat)
    requires y.Normal() && OneRequest(fs) && k < |fs| && n <= |fs|
    requires !OnFeature(y, fs[k]) && !OpenedAnyway(fs, y, k)
    ensures var feature, target := y.feature(fs[k].path), fs[k].target;
            (feature, target) !in At(Closed(fs, y, feature, target), y, fs, n).mrs
  {
    hide At, AfterFile, Closed, OneRequest, Contradicted, Normalize;
    var feature, target := y.feature(fs[k].path), fs[k].target;
    var r := Closed(fs, y, feature, target);
    ClosedHas(fs, y, feature, target, k);
    if n == 0 {
      StartsAt(r, y, fs);
    } else {
      StaysShut(fs, y, k, n - 1);
      var f := fs[n - 1];
      Branches(r, y, fs, n - 1);
      NextFile(r, y, fs, n - 1);
      if SameRequest(y, f, fs[k]) {
        ClosedHas(fs, y, feature, target, n - 1);
        UncontradictedStays(r, y, fs, n - 1);
        SettledIsIdle(At(r, y, fs, n - 1), y, f);
      } else {
        FileFrame(At(r, y, fs, n - 1), y, f, f.target, f.path);
      }
    }
  }

  lemma ShutFails(fs: seq<File>, y: Sync, k: nat)
    requires y.Normal() && OneRequest(fs) && k < |fs|
    requires NeedsFeature(fs, y, k) && !OnFeature(y, fs[k]) && !OpenedAnyway(fs, y, k)
    ensures !SettlesAsDeclared(fs, y)
  {
    hide At, Closed, OneRequest, OpenedAnyway, SettlesAsDeclared;
    ClosedHas(fs, y, y.feature(fs[k].path), fs[k].target, k);
    StaysShut(fs, y, k, |fs|);
    NeedyFails(Closed(fs, y, y.feature(fs[k].path), fs[k].target), y, fs, k);
  }

  // ---------------------------------------------------------------------------
  // The order decides
  // ---------------------------------------------------------------------------

  lemma DisagreeingCommitsFail(fs: seq<File>, y: Sync, i: nat, j: nat)
    requires y.Normal() && OneRequest(fs) && CommitsClash(fs, y, i, j)
    ensures !SettlesAsDeclared(fs, y)
  {
    hide Start, AfterFiles, Normalize;
    TwoCommits(fs, y, fs[i], fs[j]);
    StartHas(fs, y, 0, i);
    assert !AllSettled(AfterFiles(Start(fs, y, 0, fs[i].path), y, fs), y, fs);
  }

  /** Where no path has two merge requests to one target, one Apply in the declared order settles every
      enforced file from every repository exactly when the order fits. */
  lemma SettlesAsDeclaredExactly(fs: seq<File>, y: Sync)
    requires y.Normal() && OneRequest(fs)
    ensures SettlesAsDeclared(fs, y) <==> OrderFits(fs, y)
  {
    hide AfterFiles, NeedsFeature, Waits, MustSet, MaySet, CanBeLast, OpenedAnyway, OneRequest, Settled;
    if OrderFits(fs, y) {
      FittingAlwaysSettles(fs, y);
    } else if i, j :| CommitsClash(fs, y, i, j) {
      DisagreeingCommitsFail(fs, y, i, j);
    } else if k :| 0 <= k < |fs| && NeedsFeature(fs, y, k) && !SomeMustSet(fs, y, 0, fs[k].path) {
      NeverSetFails(fs, y, k);
    } else if k, i :| OtherLast(fs, y, k, i) {
      OtherLastFails(fs, y, k, i);
    } else {
      forall k | 0 <= k < |fs| && (NeedsFeature(fs, y, k) || Waits(fs, y, k))
        ensures LastHas(fs, y, if NeedsFeature(fs, y, k) then 0 else k, fs[k].path, y.want(fs[k]))
      {
        forall i | (if NeedsFeature(fs, y, k) then 0 else k) <= i < |fs| && fs[i].path == fs[k].path && CanBeLast(fs, y, i)
          ensures y.want(fs[i]) == y.want(fs[k])
        {
          assert !OtherLast(fs, y, k, i);
        }
      }
      NeedyDoesNotWait(fs, y);
      var k :| 0 <= k < |fs| && NeedsFeature(fs, y, k) && !OnFeature(y, fs[k]) && !OpenedAnyway(fs, y, k);
      ShutFails(fs, y, k);
    }
  }

  lemma NeedyDoesNotWait(fs: seq<File>, y: Sync)
    ensures forall k :: 0 <= k < |fs| && Waits(fs, y, k) ==> !NeedsFeature(fs, y, k)
  {
  }

  /** A fitting order settles even with several merge requests for one path and target. */
  lemma FittingAlwaysSettles(fs: seq<File>, y: Sync)
    requires y.Normal() && OrderFits(fs, y)
    ensures SettlesAsDeclared(fs, y)
  {
    hide OrderFits, AfterFiles, Settled;
    assert fs[..|fs|] == fs;
    forall r | HasTargets(r, fs) ensures AllSettled(AfterFiles(r, y, fs), y, fs) {
      forall f | f in fs && f.enforcement != AuditOnly ensures Settled(AfterFiles(r, y, fs), y, f) {
        var k :| 0 <= k < |fs| && fs[k] == f;
        FittingSettles(r, y, fs, k);
      }
    }
  }
}
