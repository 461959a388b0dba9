/** The repository-file reconciler (internal/governance/repositoryfiles.go) for files with full
    content, against a repository that stores what is committed to it. */
module RepositoryFiles {
  import opened Prelude

  // ---------------------------------------------------------------------------
  // Content
  // ---------------------------------------------------------------------------

  /** strings.ReplaceAll(s, "\r\n", "\n"). */
  function CrLfToLf(s: string): string {
    if s == "" then ""
    else if |s| >= 2 && s[0] == '\r' && s[1] == '\n' then "\n" + CrLfToLf(s[2..])
    else [s[0]] + CrLfToLf(s[1..])
  }

  /** strings.ReplaceAll(s, "\r", "\n"). */
  function CrToLf(s: string): (t: string)
    ensures '\r' !in t
  {
    if s == "" then "" else [if s[0] == '\r' then '\n' else s[0]] + CrToLf(s[1..])
  }

  /** strings.TrimRight(s, "\n"). */
  function TrimNewlines(s: string): (t: string)
    ensures t <= s && (t == "" || t[|t| - 1] != '\n')
  {
    if s != "" && s[|s| - 1] == '\n' then TrimNewlines(s[..|s| - 1]) else s
  }

  /** normalizeContent: line feeds only, and exactly one at the end of a file with content. */
  function Normalize(s: string): string {
    var t := TrimNewlines(CrToLf(CrLfToLf(s)));
    if |t| > 0 then t + "\n" else t
  }

  lemma {:induction false} NothingToReplace(s: string)
    requires '\r' !in s
    ensures CrLfToLf(s) == s && CrToLf(s) == s
  {
    if s != "" {
      NothingToReplace(s[1..]);
    }
  }

  /** Normalizing twice is normalizing once. */
  lemma NormalizeIsIdempotent(s: string)
    ensures Normalize(Normalize(s)) == Normalize(s)
  {
    var t := TrimNewlines(CrToLf(CrLfToLf(s)));
    NothingToReplace(Normalize(s));
    if |t| > 0 {
      assert (t + "\n")[..|t|] == t;
      assert TrimNewlines(t + "\n") == TrimNewlines(t) == t;
    }
  }

  predicate Contains(s: string, part: string) {
    exists i :: 0 <= i <= |s| && part <= s[i..]
  }

  lemma ContainsMiddle(a: string, part: string, b: string)
    ensures Contains(a + part + b, part)
  {
    assert (a + part + b)[|a|..] == part + b;
  }

  const MARKER := "Auto-managed by gitlab-fleet-governor"
  const NOTICE := " \U{2014} do not edit manually"

  /** path.Ext: from the last dot of the last path element. */
  function Ext(path: string, end: nat): string
    requires end <= |path|
  {
    if end == 0 || path[end - 1] == '/' then ""
    else if path[end - 1] == '.' then path[end - 1..]
    else Ext(path, end - 1)
  }

  function LowerChar(c: char): char {
    if 'A' <= c <= 'Z' then (c as int + 32) as char else c
  }

  function Lower(s: string): string {
    if s == "" then "" else [LowerChar(s[0])] + Lower(s[1..])
  }

  /** What stands before and after the marker in the comment header for a file type. */
  function HeaderFor(ext: string): (string, string) {
    if ext == ".md" || ext == ".html" then ("<!-- ", NOTICE + " -->\n")
    else if ext in {".go", ".js", ".ts", ".java", ".c", ".cpp", ".rs"} then ("// Enterprise policy\n// ", NOTICE + "\n")
    else ("# Enterprise policy\n# ", NOTICE + "\n")
  }

  /** The length of the first line, its line feed not included. */
  function FirstLine(s: string): (n: nat)
    ensures n <= |s|
    ensures n < |s| ==> s[n] == '\n'
  {
    if s == "" || s[0] == '\n' then 0 else 1 + FirstLine(s[1..])
  }

  /** A comment after the shebang line if there is one, else at the top. */
  function WithHeader(content: string, before: string, marker: string, after: string): string {
    if |content| >= 2 && content[0] == '#' && content[1] == '!' then
      var n := FirstLine(content);
      content[..n] + "\n" + (before + marker + after) + (if n < |content| then content[n + 1..] else "")
    else before + marker + after + content
  }

  lemma WithHeaderContains(content: string, before: string, marker: string, after: string)
    ensures Contains(WithHeader(content, before, marker, after), marker)
  {
    hide Contains;
    if |content| >= 2 && content[0] == '#' && content[1] == '!' {
      var n := FirstLine(content);
      HeaderWithin(content[..n] + "\n", before, marker, after, if n < |content| then content[n + 1..] else "");
    } else {
      HeaderWithin("", before, marker, after, content);
      assert "" + (before + marker + after) + content == before + marker + after + content;
    }
  }

  lemma HeaderWithin(top: string, before: string, marker: string, after: string, rest: string)
    ensures Contains(top + (before + marker + after) + rest, marker)
  {
    ContainsMiddle(top + before, marker, after + rest);
    assert top + (before + marker + after) + rest == (top + before) + marker + (after + rest);
  }

  /** attachManagedHeader: never in JSON, never twice. */
  function AttachManagedHeader(path: string, content: string): string {
    var ext := Lower(Ext(path, |path|));
    if Contains(content, MARKER) || ext == ".json" then content
    else WithHeader(content, HeaderFor(ext).0, MARKER, HeaderFor(ext).1)
  }

  /** A managed file is recognisable, and attaching the header again changes nothing. */
  lemma HeaderIsAttachedOnce(path: string, content: string)
    ensures Lower(Ext(path, |path|)) != ".json" ==> Contains(AttachManagedHeader(path, content), MARKER)
    ensures AttachManagedHeader(path, AttachManagedHeader(path, content)) == AttachManagedHeader(path, content)
  {
    hide WithHeader, Contains, HeaderFor, Ext, Lower;
    var ext := Lower(Ext(path, |path|));
    WithHeaderContains(content, HeaderFor(ext).0, MARKER, HeaderFor(ext).1);
    assert ext != ".json" ==> Contains(AttachManagedHeader(path, content), MARKER);
  }

  // ---------------------------------------------------------------------------
  // Drift
  // ---------------------------------------------------------------------------

  datatype Enforcement = DirectCommit | MergeRequest | AuditOnly

  /** A declared file: its path, clean and as declared, its target branch, and its full content, given
      inline or in a file of its own, if any is. */
  datatype File = File(path: string, declared: string, target: string, content: Option<string>, enforcement: Enforcement)

  /** The content a file should have, unless its environment tokens cannot be expanded. Only given
      content that is committed directly gets the header, chosen by the declared path. */
  function Desired(f: File, expand: string -> Option<string>): Option<string> {
    match expand(if f.content.Some? then f.content.value else "")
    case None => None
    case Some(text) =>
      Some(Normalize(if f.enforcement == DirectCommit && f.content.Some? then AttachManagedHeader(f.declared, text) else text))
  }

  type Files = map<string, map<string, string>>

  /** The file on a branch; absent when the branch is. */
  function Fetch(files: Files, branch: string, path: string): Option<string> {
    if branch in files && path in files[branch] then Some(files[branch][path]) else None
  }

  predicate Matches(existing: Option<string>, desired: string) {
    existing.Some? && Normalize(existing.value) == desired
  }

  /** What a run of the reconciler depends on besides the repository: the feature branch of a path,
      and the content each declared file should have. */
  datatype Sync = Sync(feature: string -> string, want: File -> string) {
    ghost predicate Normal() {
      forall f :: Normalize(want(f)) == want(f)
    }

    /** The branch an enforced file is written to. */
    function Branch(f: File): string {
      if f.enforcement == MergeRequest then feature(f.path) else f.target
    }

    predicate Writes(f: File, branch: string, path: string) {
      f.enforcement != AuditOnly && f.path == path && Branch(f) == branch
    }
  }

  /** Branches with their files, and the open merge requests as (source, target). */
  datatype Repo = Repo(files: Files, mrs: set<(string, string)>)

  /** A file needs no attention: its target branch has it, or an open merge request brings it. */
  predicate Settled(r: Repo, y: Sync, f: File) {
    || Matches(Fetch(r.files, f.target, f.path), y.want(f))
    || (f.enforcement == MergeRequest && (y.feature(f.path), f.target) in r.mrs
        && Matches(Fetch(r.files, y.feature(f.path), f.path), y.want(f)))
  }

  function Committed(files: Files, branch: string, path: string, content: string): Files {
    if branch in files then files[branch := files[branch][path := content]] else files
  }

  /** The repository after one file of Apply. */
  function AfterFile(r: Repo, y: Sync, f: File): Repo {
    if Settled(r, y, f) || f.enforcement == AuditOnly || f.target !in r.files then r
    else if f.enforcement == DirectCommit then r.(files := Committed(r.files, f.target, f.path, y.want(f)))
    else
      var source := y.feature(f.path);
      var files := if source in r.files then r.files else r.files[source := r.files[f.target]];
      Repo(if Matches(Fetch(files, source, f.path), y.want(f)) then files else Committed(files, source, f.path, y.want(f)),
           r.mrs + {(source, f.target)})
  }

  function AfterFiles(r: Repo, y: Sync, fs: seq<File>): Repo {
    if fs == [] then r else AfterFile(AfterFiles(r, y, fs[..|fs| - 1]), y, fs[|fs| - 1])
  }

  ghost predicate HasTargets(r: Repo, fs: seq<File>) {
    forall f :: f in fs ==> f.target in r.files
  }

  /** The contents wanted of the files; "" stands for one that cannot be expanded, at which Apply stops. */
  function Wanted(expand: string -> Option<string>): File -> string {
    f => if Desired(f, expand).Some? then Desired(f, expand).value else ""
  }

  lemma WantedIsNormal(expand: string -> Option<string>, feature: string -> string)
    ensures Sync(feature, Wanted(expand)).Normal()
  {
    forall f ensures Normalize(Wanted(expand)(f)) == Wanted(expand)(f) {
      if Desired(f, expand).Some? {
        var text := expand(if f.content.Some? then f.content.value else "").value;
        NormalizeIsIdempotent(if f.enforcement == DirectCommit && f.content.Some? then AttachManagedHeader(f.declared, text) else text);
      }
    }
  }

  // ---------------------------------------------------------------------------
  // Plan and Apply
  // ---------------------------------------------------------------------------

  class Repository {
    var files: Files
    var mrs: set<(string, string)>

    function State(): Repo
      reads this
    {
      Repo(files, mrs)
    }

    constructor (files: Files)
      ensures State() == Repo(files, {})
    {
      this.files, mrs := files, {};
    }

    /** CreateFile and UpdateFile: one commit that sets the content of one path on a branch. */
    method Commit(branch: string, path: string, content: string)
      requires branch in files
      modifies `files
      ensures files == Committed(old(files), branch, path, content)
    {
      files := files[branch := files[branch][path := content]];
    }

    method CreateBranch(branch: string, from: string)
      requires branch !in files && from in files
      modifies `files
      ensures files == old(files)[branch := old(files)[from]]
    {
      files := files[branch := files[from]];
    }

    method OpenMergeRequest(source: string, target: string)
      modifies `mrs
      ensures mrs == old(mrs) + {(source, target)}
    {
      mrs := mrs + {(source, target)};
    }

    /** Plan: the declared files that show drift, or nothing at all when one cannot be expanded. */
    method Plan(fs: seq<File>, expand: string -> Option<string>, feature: string -> string) returns (drifted: Option<seq<File>>)
      ensures drifted.None? <==> exists i :: 0 <= i < |fs| && Desired(fs[i], expand).None?
      ensures drifted.Some? ==>
                forall f :: f in drifted.value <==> f in fs && !Settled(State(), Sync(feature, Wanted(expand)), f)
    {
      hide Settled, Desired, Matches;
      var found: seq<File> := [];
      for i := 0 to |fs|
        invariant forall k :: 0 <= k < i ==> Desired(fs[k], expand).Some?
        invariant forall f :: f in found <==> f in fs[..i] && !Settled(State(), Sync(feature, Wanted(expand)), f)
      {
        var f := fs[i];
        assert fs[..i + 1] == fs[..i] + [f];
        var desired := Desired(f, expand);
        if desired.None? {
          return None;
        }
        var drift := HasDrift(f, Sync(feature, Wanted(expand)));
        if drift {
          found := found + [f];
        }
      }
      assert fs[..|fs|] == fs;
      return Some(found);
    }

    /** The decision Plan and Apply share for one file. */
    method HasDrift(f: File, y: Sync) returns (drift: bool)
      ensures drift <==> !Settled(State(), y, f)
    {
      if Matches(Fetch(files, f.target, f.path), y.want(f)) {
        return false;
      }
      if f.enforcement == MergeRequest && (y.feature(f.path), f.target) in mrs {
        var proposed := Fetch(files, y.feature(f.path), f.path);
        return !Matches(proposed, y.want(f));
      }
      return true;
    }

    /** One file of Apply: a commit to the target branch, or to the feature branch of a merge request
        that is created when it is not open yet. Auditing changes nothing. */
    method ApplyFile(f: File, y: Sync) returns (acted: bool)
      requires f.target in files
      modifies this
      ensures State() == AfterFile(old(State()), y, f)
      ensures acted <==> !old(Settled(State(), y, f))
    {
      hide Matches;
      if Matches(Fetch(files, f.target, f.path), y.want(f)) {
        return false;
      }
      match f.enforcement {
        case AuditOnly =>
          return true;
        case DirectCommit =>
          Commit(f.target, f.path, y.want(f));
          return true;
        case MergeRequest =>
          acted := Propose(f, y);
      }
    }

    /** The merge-request branch of Apply for a file whose target branch has drifted. */
    method Propose(f: File, y: Sync) returns (acted: bool)
      requires f.target in files && f.enforcement == MergeRequest
      requires !Matches(Fetch(files, f.target, f.path), y.want(f))
      modifies this
      ensures State() == AfterFile(old(State()), y, f)
      ensures acted <==> !old(Settled(State(), y, f))
    {
      hide Matches;
      var source := y.feature(f.path);
      if (source, f.target) in mrs && Matches(Fetch(files, source, f.path), y.want(f)) {
        return false;
      }
      if source !in files {
        CreateBranch(source, f.target);
      }
      var proposed := Fetch(files, source, f.path);
      if !Matches(proposed, y.want(f)) {
        Commit(source, f.path, y.want(f));
      }
      if (source, f.target) !in mrs {
        OpenMergeRequest(source, f.target);
      }
      return true;
    }

    /** Apply stops at the first file whose content cannot be expanded; `done` is how many it handled. */
    method Apply(fs: seq<File>, expand: string -> Option<string>, feature: string -> string) returns (done: nat)
      requires HasTargets(State(), fs)
      modifies this
      ensures done <= |fs| && State() == AfterFiles(old(State()), Sync(feature, Wanted(expand)), fs[..done])
      ensures forall k :: 0 <= k < done ==> Desired(fs[k], expand).Some?
      ensures done < |fs| ==> Desired(fs[done], expand).None?
    {
      hide Settled, Desired, AfterFile;
      ghost var y := Sync(feature, Wanted(expand));
      for i := 0 to |fs|
        invariant State() == AfterFiles(old(State()), y, fs[..i])
        invariant forall k :: 0 <= k < i ==> Desired(fs[k], expand).Some?
        invariant HasTargets(State(), fs)
      {
        if Desired(fs[i], expand).None? {
          return i;
        }
        assert fs[..i + 1][..i] == fs[..i];
        KeepsBranches(State(), y, fs[i]);
        var _ := ApplyFile(fs[i], Sync(feature, Wanted(expand)));
      }
      return |fs|;
    }
  }

  // ---------------------------------------------------------------------------
  // What one file does to the others
  // ---------------------------------------------------------------------------

  lemma KeepsBranches(r: Repo, y: Sync, f: File)
    ensures r.files.Keys <= AfterFile(r, y, f).files.Keys
  {
  }

  /** One file changes its own path on its own branch at most, and opens its own merge request at most. */
  lemma FileFrame(r: Repo, y: Sync, f: File, branch: string, path: string)
    requires branch in r.files
    ensures var r' := AfterFile(r, y, f);
            && branch in r'.files
            && r.mrs <= r'.mrs <= r.mrs + {(y.feature(f.path), f.target)}
            && (f.enforcement != MergeRequest ==> r'.mrs == r.mrs)
            && (Fetch(r'.files, branch, path) == Fetch(r.files, branch, path) ||
                (y.Writes(f, branch, path) && Fetch(r'.files, branch, path) == Some(y.want(f))))
  {
    hide Matches;
  }

  lemma FileSettles(r: Repo, y: Sync, f: File)
    requires y.Normal() && f.target in r.files && f.enforcement != AuditOnly
    ensures Settled(AfterFile(r, y, f), y, f)
  {
    assert Normalize(y.want(f)) == y.want(f);
    hide Normalize;
  }

  lemma SettledIsIdle(r: Repo, y: Sync, f: File)
    requires Settled(r, y, f)
    ensures AfterFile(r, y, f) == r
  {
  }

  lemma {:induction false} FilesKeepBranches(r: Repo, y: Sync, fs: seq<File>)
    ensures r.files.Keys <= AfterFiles(r, y, fs).files.Keys
  {
    if fs != [] {
      hide AfterFile;
      FilesKeepBranches(r, y, fs[..|fs| - 1]);
      KeepsBranches(AfterFiles(r, y, fs[..|fs| - 1]), y, fs[|fs| - 1]);
    }
  }

  lemma {:induction false} FilesInTurn(r: Repo, y: Sync, fs: seq<File>, gs: seq<File>)
    ensures AfterFiles(r, y, fs + gs) == AfterFiles(AfterFiles(r, y, fs), y, gs)
  {
    if gs == [] {
      assert fs + gs == fs;
    } else {
      hide AfterFile;
      assert (fs + gs)[..|fs + gs| - 1] == fs + gs[..|gs| - 1];
      FilesInTurn(r, y, fs, gs[..|gs| - 1]);
    }
  }

  /** Where only files of content `want` write, a match with it stays; where none does, a mismatch. */
  lemma {:induction false} FilesFrame(r: Repo, y: Sync, fs: seq<File>, branch: string, path: string, want: string)
    requires y.Normal() && branch in r.files
    ensures branch in AfterFiles(r, y, fs).files
    ensures (forall f :: f in fs && y.Writes(f, branch, path) ==> y.want(f) == want) && Matches(Fetch(r.files, branch, path), want)
        ==> Matches(Fetch(AfterFiles(r, y, fs).files, branch, path), want)
    ensures (forall f :: f in fs && y.Writes(f, branch, path) ==> y.want(f) != want) && !Matches(Fetch(r.files, branch, path), want)
        ==> !Matches(Fetch(AfterFiles(r, y, fs).files, branch, path), want)
    ensures (forall f :: f in fs ==> !y.Writes(f, branch, path))
        ==> Fetch(AfterFiles(r, y, fs).files, branch, path) == Fetch(r.files, branch, path)
  {
    if fs != [] {
      hide AfterFile, Normalize;
      var init, last := fs[..|fs| - 1], fs[|fs| - 1];
      assert fs == init + [last];
      FilesFrame(r, y, init, branch, path, want);
      FileFrame(AfterFiles(r, y, init), y, last, branch, path);
      assert Normalize(y.want(last)) == y.want(last);
    }
  }

  // ---------------------------------------------------------------------------
  // When one Apply settles everything
  // ---------------------------------------------------------------------------

  /** Some file is committed directly to this path of this branch. */
  ghost predicate Directed(fs: seq<File>, path: string, target: string) {
    exists d :: d in fs && d.enforcement == DirectCommit && d.path == path && d.target == target
  }

  /** Two declarations of one path, of different contents, that get in each other's way: direct
      commits to one branch; a direct commit to the target or to the feature branch of a merge
      request; and two merge requests, which share the feature branch, unless both their targets are
      committed to directly as well. */
  ghost predicate Clash(fs: seq<File>, y: Sync, f: File, g: File) {
    && f.path == g.path && y.want(f) != y.want(g)
    && match (f.enforcement, g.enforcement)
       case (DirectCommit, DirectCommit) => f.target == g.target
       case (DirectCommit, MergeRequest) => f.target == g.target || f.target == y.feature(g.path)
       case (MergeRequest, DirectCommit) => f.target == g.target || g.target == y.feature(f.path)
       case (MergeRequest, MergeRequest) => !(Directed(fs, f.path, f.target) && Directed(fs, g.path, g.target))
       case _ => false
  }

  ghost predicate NoClash(fs: seq<File>, y: Sync) {
    forall f, g :: f in fs && g in fs ==> !Clash(fs, y, f, g)
  }

  ghost predicate AllSettled(r: Repo, y: Sync, fs: seq<File>) {
    forall f :: f in fs && f.enforcement != AuditOnly ==> Settled(r, y, f)
  }

  /** One Apply settles every enforced file, from every repository that has the target branches and in
      whatever order the files are declared. */
  ghost predicate AlwaysSettles(fs: seq<File>, y: Sync) {
    forall r, gs :: multiset(gs) == multiset(fs) && HasTargets(r, fs) ==> AllSettled(AfterFiles(r, y, gs), y, fs)
  }

  /** A merge request whose target a later file commits to directly. */
  ghost predicate Pending(f: File, rest: seq<File>) {
    f.enforcement == MergeRequest && Directed(rest, f.path, f.target)
  }

  lemma CutAt(fs: seq<File>, n: nat)
    requires 0 < n <= |fs|
    ensures fs[..n][..n - 1] == fs[..n - 1] && fs[..n] == fs[..n - 1] + [fs[n - 1]]
    ensures fs[n - 1..] == [fs[n - 1]] + fs[n..]
    ensures forall f :: f in fs <==> f in fs[..n - 1] || f in fs[n - 1..]
  {
    assert fs == fs[..n - 1] + fs[n - 1..];
  }

  /** Without a clash every file handled so far is settled, or will be by a direct commit to come. */
  lemma {:induction false} SettledSoFar(r: Repo, y: Sync, fs: seq<File>, n: nat, f: File)
    requires y.Normal() && NoClash(fs, y) && HasTargets(r, fs) && n <= |fs|
    requires f in fs[..n] && f.enforcement != AuditOnly
    ensures Settled(AfterFiles(r, y, fs[..n]), y, f) || Pending(f, fs[n..])
    decreases n
  {
    hide AfterFile, Settled, Clash, Normalize;
    var h := fs[n - 1];
    var before := AfterFiles(r, y, fs[..n - 1]);
    CutAt(fs, n);
    FilesKeepBranches(r, y, fs[..n - 1]);
    if f == h {
      FileSettles(before, y, h);
    } else {
      SettledSoFar(r, y, fs, n - 1, f);
      if Pending(f, fs[n - 1..]) && !Pending(f, fs[n..]) {
        var d :| d in fs[n - 1..] && d.enforcement == DirectCommit && d.path == f.path && d.target == f.target;
        assert d == h;
        FileSettles(before, y, h);
        DirectSettlesRequest(fs, y, AfterFile(before, y, h), h, f);
      } else if Settled(before, y, f) && !Pending(f, fs[n..]) {
        if OverwrittenRequest(y, f, h) && Directed(fs, f.path, f.target) {
          var d :| d in fs && d.enforcement == DirectCommit && d.path == f.path && d.target == f.target;
          assert d in fs[..n - 1];
          SettledSoFar(r, y, fs, n - 1, d);
          DirectedRequestStays(fs, y, before, d, f, h);
        } else {
          SettledStays(fs, y, before, f, h);
        }
      }
    }
  }

  /** Both are merge requests of one path with different contents. */
  predicate OverwrittenRequest(y: Sync, f: File, h: File) {
    f.enforcement == MergeRequest && h.enforcement == MergeRequest && f.path == h.path && y.want(f) != y.want(h)
  }

  lemma DirectSettlesRequest(fs: seq<File>, y: Sync, r: Repo, d: File, f: File)
    requires NoClash(fs, y) && d in fs && f in fs && f.enforcement == MergeRequest
    requires d.enforcement == DirectCommit && d.path == f.path && d.target == f.target && Settled(r, y, d)
    ensures Settled(r, y, f) && y.want(d) == y.want(f)
  {
    assert !Clash(fs, y, d, f);
    hide Matches;
  }

  lemma DirectedRequestStays(fs: seq<File>, y: Sync, r: Repo, d: File, f: File, h: File)
    requires y.Normal() && NoClash(fs, y) && d in fs && f in fs && h in fs && HasTargets(r, fs)
    requires d.enforcement == DirectCommit && d.path == f.path && d.target == f.target && Settled(r, y, d)
    requires OverwrittenRequest(y, f, h)
    ensures Settled(AfterFile(r, y, h), y, f)
  {
    hide Matches, AfterFile;
    DirectSettlesRequest(fs, y, r, d, f);
    assert !Clash(fs, y, d, h);
    FileFrame(r, y, h, d.target, d.path);
  }

  lemma SettledStays(fs: seq<File>, y: Sync, r: Repo, f: File, h: File)
    requires y.Normal() && NoClash(fs, y) && f in fs && h in fs && HasTargets(r, fs)
    requires f.enforcement != AuditOnly && Settled(r, y, f)
    requires !(OverwrittenRequest(y, f, h) && Directed(fs, f.path, f.target))
    ensures Settled(AfterFile(r, y, h), y, f)
  {
    hide AfterFile, Normalize;
    assert !Clash(fs, y, f, h);
    assert Normalize(y.want(h)) == y.want(h);
    FileFrame(r, y, h, f.target, f.path);
    if y.feature(f.path) in r.files {
      FileFrame(r, y, h, y.feature(f.path), f.path);
    }
  }

  lemma NoClashSettles(fs: seq<File>, y: Sync)
    requires y.Normal() && NoClash(fs, y)
    ensures AlwaysSettles(fs, y)
  {
    forall r, gs | multiset(gs) == multiset(fs) && HasTargets(r, fs)
      ensures AllSettled(AfterFiles(r, y, gs), y, fs)
    {
      SameFiles(fs, gs, y);
      forall f | f in fs && f.enforcement != AuditOnly ensures Settled(AfterFiles(r, y, gs), y, f) {
        assert gs[..|gs|] == gs && f in gs;
        SettledSoFar(r, y, gs, |gs|, f);
      }
    }
  }

  lemma SameFiles(fs: seq<File>, gs: seq<File>, y: Sync)
    requires multiset(gs) == multiset(fs)
    ensures forall f :: f in fs <==> f in gs
    ensures NoClash(fs, y) <==> NoClash(gs, y)
  {
    forall f ensures f in fs <==> f in gs {
      assert f in fs <==> f in multiset(fs);
      assert f in gs <==> f in multiset(gs);
    }
    forall path, target ensures Directed(fs, path, target) <==> Directed(gs, path, target) {}
  }

  // ---------------------------------------------------------------------------
  // Every clash prevents it
  // ---------------------------------------------------------------------------

  /** The files that satisfy a condition, and then the others, are an order of declaration. */
  lemma {:induction false} Split(fs: seq<File>, keep: File -> bool) returns (first: seq<File>, rest: seq<File>)
    ensures multiset(first + rest) == multiset(fs)
    ensures forall f :: f in first <==> f in fs && keep(f)
    ensures forall f :: f in rest <==> f in fs && !keep(f)
  {
    if fs == [] {
      first, rest := [], [];
    } else {
      var n := |fs| - 1;
      assert fs == fs[..n] + [fs[n]];
      first, rest := Split(fs[..n], keep);
      if keep(fs[n]) {
        first := first + [fs[n]];
      } else {
        rest := rest + [fs[n]];
      }
    }
  }

  function Branches(fs: seq<File>, y: Sync): set<string> {
    (set f | f in fs :: f.target) + (set f | f in fs :: y.feature(f.path))
  }

  /** A repository with every branch the files name, the contents `at` gives, and no merge request. */
  ghost function Start(fs: seq<File>, y: Sync, at: (string, string) -> Option<string>): Repo {
    var paths := set f | f in fs :: f.path;
    Repo(map b | b in Branches(fs, y) :: map p | p in paths && at(b, p).Some? :: at(b, p).value, {})
  }

  lemma StartHas(fs: seq<File>, y: Sync, at: (string, string) -> Option<string>, f: File)
    requires f in fs
    ensures HasTargets(Start(fs, y, at), fs) && Start(fs, y, at).mrs == {}
    ensures y.feature(f.path) in Start(fs, y, at).files
    ensures Fetch(Start(fs, y, at).files, f.target, f.path) == at(f.target, f.path)
    ensures Fetch(Start(fs, y, at).files, y.feature(f.path), f.path) == at(y.feature(f.path), f.path)
  {
  }

  lemma Unsettles(fs: seq<File>, y: Sync, r: Repo, gs: seq<File>, f: File)
    requires multiset(gs) == multiset(fs) && HasTargets(r, fs)
    requires f in fs && f.enforcement != AuditOnly && !Settled(AfterFiles(r, y, gs), y, f)
    ensures !AlwaysSettles(fs, y)
  {
    assert !AllSettled(AfterFiles(r, y, gs), y, fs);
  }

  /** From empty branches, the feature branch ends up as one merge request wants it if that one is the
      last to write it; and what no file writes stays absent. */
  lemma RequestWins(fs: seq<File>, y: Sync, g: File, f: File) returns (r: Repo, gs: seq<File>)
    requires y.Normal() && g in fs && g.enforcement == MergeRequest && f in fs && f.path == g.path
    ensures multiset(gs) == multiset(fs) && HasTargets(r, fs)
    ensures Matches(Fetch(AfterFiles(r, y, gs).files, y.feature(g.path), g.path), y.want(g))
    ensures (forall x :: x in fs ==> !y.Writes(x, f.target, f.path))
        ==> Fetch(AfterFiles(r, y, gs).files, f.target, f.path) == None
  {
    hide AfterFile, Start, Normalize;
    var feature, path := y.feature(g.path), g.path;
    var writers, rest := Split(fs, x => y.Writes(x, feature, path));
    var others, last := Split(writers, x => x != g);
    r := Start(fs, y, (b, p) => None);
    StartHas(fs, y, (b, p) => None, g);
    StartHas(fs, y, (b, p) => None, f);
    gs := others + last + rest;
    Reordered(writers, others, last, rest);
    SameFiles(fs, gs, y);
    LastWriter(r, y, g, others, last);
    FilesInTurn(r, y, others + last, rest);
    FilesKeepBranches(r, y, others + last);
    FilesFrame(AfterFiles(r, y, others + last), y, rest, feature, path, y.want(g));
    FilesFrame(r, y, gs, f.target, f.path, y.want(f));
  }

  lemma Reordered(writers: seq<File>, others: seq<File>, last: seq<File>, rest: seq<File>)
    requires multiset(others + last) == multiset(writers)
    ensures multiset(others + last + rest) == multiset(writers + rest)
  {
    assert multiset(others + last + rest) == multiset(others + last) + multiset(rest);
  }

  /** The last of the files that write a feature branch, a merge request, leaves it as wanted. */
  lemma LastWriter(r: Repo, y: Sync, g: File, others: seq<File>, last: seq<File>)
    requires y.Normal() && g.enforcement == MergeRequest && g.target in r.files
    requires forall x :: x in others ==> y.Writes(x, y.feature(g.path), g.path)
    requires last != [] && forall x :: x in last ==> x == g
    requires Fetch(r.files, g.target, g.path) == None
    ensures Matches(Fetch(AfterFiles(r, y, others + last).files, y.feature(g.path), g.path), y.want(g))
  {
    hide AfterFile, Normalize;
    var first, n := others + last, |others + last| - 1;
    assert last[|last| - 1] in last;
    assert first[n] == g;
    FilesKeepBranches(r, y, first[..n]);
    FileSettles(AfterFiles(r, y, first[..n]), y, g);
    if g.target != y.feature(g.path) {
      FilesFrame(r, y, first, g.target, g.path, y.want(g));
    }
  }

  /** A direct commit to the feature branch of a merge request with another content. */
  lemma CommitToFeatureBranch(fs: seq<File>, y: Sync, d: File, g: File)
    requires y.Normal() && d in fs && g in fs && d.path == g.path && y.want(d) != y.want(g)
    requires d.enforcement == DirectCommit && g.enforcement == MergeRequest && d.target == y.feature(g.path)
    ensures !AlwaysSettles(fs, y)
  {
    hide AfterFiles, Normalize;
    var r, gs := RequestWins(fs, y, g, d);
    Unsettles(fs, y, r, gs, d);
  }

  /** Two merge requests of one path and different contents, one target not committed to directly. */
  lemma SharedFeatureBranch(fs: seq<File>, y: Sync, f: File, g: File)
    requires y.Normal() && f in fs && g in fs && f.path == g.path && y.want(f) != y.want(g)
    requires f.enforcement == MergeRequest && g.enforcement == MergeRequest && !Directed(fs, f.path, f.target)
    ensures !AlwaysSettles(fs, y)
  {
    hide AfterFiles, Normalize;
    var r, gs := RequestWins(fs, y, g, f);
    Unsettles(fs, y, r, gs, f);
  }

  lemma {:induction false} AllIdle(r: Repo, y: Sync, fs: seq<File>)
    requires forall f :: f in fs ==> Settled(r, y, f)
    ensures AfterFiles(r, y, fs) == r
  {
    if fs != [] {
      AllIdle(r, y, fs[..|fs| - 1]);
      SettledIsIdle(r, y, fs[|fs| - 1]);
    }
  }

  /** A merge request finds its target in order, and a direct commit then changes the target while
      nothing brings the wanted content to the feature branch. */
  lemma OvertakenRequest(fs: seq<File>, y: Sync, d: File, g: File)
    requires y.Normal() && d in fs && g in fs && d.path == g.path && y.want(d) != y.want(g)
    requires d.enforcement == DirectCommit && g.enforcement == MergeRequest && d.target == g.target
    requires forall x :: x in fs && x.enforcement != AuditOnly && x.path == g.path && y.want(x) == y.want(g)
               ==> x.target != y.feature(g.path)
    ensures !AlwaysSettles(fs, y)
  {
    hide AfterFile, Start, Normalize;
    var feature, path, want := y.feature(g.path), g.path, y.want(g);
    var alike := (x: File) => x.enforcement == MergeRequest && x.path == path && y.want(x) == want;
    var first, rest := Split(fs, alike);
    var at := (b, p) => if p == path && exists x :: x in first && x.target == b then Some(want) else None;
    var r := Start(fs, y, at);
    StartHas(fs, y, at, g);
    assert Normalize(want) == want;
    forall x | x in first ensures Settled(r, y, x) {
      StartHas(fs, y, at, x);
    }
    AllIdle(r, y, first);
    FilesInTurn(r, y, first, rest);
    FilesFrame(r, y, rest, feature, path, want);
    var after := AfterFiles(r, y, first + rest);
    assert !Matches(Fetch(after.files, feature, path), want);
    Unsettles(fs, y, r, first + rest, if Settled(after, y, d) then g else d);
  }

  /** Merge requests from one branch to another are not opened while their targets are in order. */
  lemma {:induction false} StaysClosed(r: Repo, y: Sync, ms: seq<File>, feature: string, target: string)
    requires y.Normal() && feature != target && (feature, target) !in r.mrs
    requires forall m :: m in ms ==> m.enforcement == MergeRequest && m.target in r.files
    requires forall m :: m in ms && m.target == target && y.feature(m.path) == feature
               ==> Matches(Fetch(r.files, target, m.path), y.want(m))
    ensures (feature, target) !in AfterFiles(r, y, ms).mrs
  {
    if ms != [] {
      hide AfterFile, Normalize;
      var init, m := ms[..|ms| - 1], ms[|ms| - 1];
      assert ms == init + [m];
      StaysClosed(r, y, init, feature, target);
      var before := AfterFiles(r, y, init);
      FilesKeepBranches(r, y, init);
      if m.target == target && y.feature(m.path) == feature {
        FilesFrame(r, y, init, target, m.path, y.want(m));
        SettledIsIdle(before, y, m);
      } else {
        FileFrame(before, y, m, m.target, m.path);
      }
    }
  }

  lemma {:induction false} DirectsOpenNothing(r: Repo, y: Sync, ds: seq<File>)
    requires forall d :: d in ds ==> d.enforcement != MergeRequest
    ensures AfterFiles(r, y, ds).mrs == r.mrs
  {
    if ds != [] {
      DirectsOpenNothing(r, y, ds[..|ds| - 1]);
    }
  }

  /** No two merge requests from this branch to this target want different contents of one path. */
  ghost predicate Agreeing(fs: seq<File>, y: Sync, feature: string, target: string) {
    forall m, o :: Between(fs, y, m, feature, target) && Between(fs, y, o, feature, target) && m.path == o.path
      ==> y.want(m) == y.want(o)
  }

  predicate Between(fs: seq<File>, y: Sync, m: File, feature: string, target: string) {
    m in fs && m.enforcement == MergeRequest && y.feature(m.path) == feature && m.target == target
  }

  /** The target is in order for every merge request that could be opened, so none is; and a direct
      commit then changes the target. */
  lemma UnopenedRequest(fs: seq<File>, y: Sync, d: File, g: File)
    requires y.Normal() && d in fs && g in fs && d.path == g.path && y.want(d) != y.want(g)
    requires d.enforcement == DirectCommit && g.enforcement == MergeRequest && d.target == g.target
    requires d.target != y.feature(g.path) && Agreeing(fs, y, y.feature(g.path), g.target)
    ensures !AlwaysSettles(fs, y)
  {
    hide AfterFile, Start, Normalize;
    var feature, target := y.feature(g.path), g.target;
    var first, rest := Split(fs, (x: File) => x.enforcement == MergeRequest);
    var at := (b, p) => if b == target then Requested(fs, y, feature, target, p) else None;
    var r := Start(fs, y, at);
    StartHas(fs, y, at, d);
    forall m | m in first && m.target == target && y.feature(m.path) == feature
      ensures Matches(Fetch(r.files, target, m.path), y.want(m))
    {
      StartHas(fs, y, at, m);
      assert Between(fs, y, m, feature, target);
      assert Normalize(y.want(m)) == y.want(m);
    }
    StaysClosed(r, y, first, feature, target);
    DirectsOpenNothing(AfterFiles(r, y, first), y, rest);
    FilesInTurn(r, y, first, rest);
    var after := AfterFiles(r, y, first + rest);
    Unsettles(fs, y, r, first + rest, if Settled(after, y, d) then g else d);
  }

  /** The content one merge request from this branch to this target wants of a path. */
  ghost function Requested(fs: seq<File>, y: Sync, feature: string, target: string, path: string): Option<string> {
    if exists m :: Between(fs, y, m, feature, target) && m.path == path then
      var m :| Between(fs, y, m, feature, target) && m.path == path;
      Some(y.want(m))
    else None
  }

  /** A direct commit to the target of a merge request with another content. */
  lemma CommitToTarget(fs: seq<File>, y: Sync, d: File, g: File)
    requires y.Normal() && d in fs && g in fs && d.path == g.path && y.want(d) != y.want(g)
    requires d.enforcement == DirectCommit && g.enforcement == MergeRequest && d.target == g.target
    ensures !AlwaysSettles(fs, y)
  {
    hide AlwaysSettles;
    var feature, target := y.feature(g.path), g.target;
    if target == feature {
      CommitToFeatureBranch(fs, y, d, g);
    } else if Agreeing(fs, y, feature, target) {
      UnopenedRequest(fs, y, d, g);
    } else {
      var m, o :| Between(fs, y, m, feature, target) && Between(fs, y, o, feature, target)
        && m.path == o.path && y.want(m) != y.want(o);
      if !Directed(fs, m.path, target) {
        SharedFeatureBranch(fs, y, m, o);
      } else {
        var e :| e in fs && e.enforcement == DirectCommit && e.path == m.path && e.target == target;
        if y.want(e) != y.want(m) {
          CommitAndTwoRequests(fs, y, e, m, o);
        } else {
          CommitAndTwoRequests(fs, y, e, o, m);
        }
      }
    }
  }

  /** A direct commit to the target of two merge requests, one of which it contradicts. */
  lemma CommitAndTwoRequests(fs: seq<File>, y: Sync, d: File, g: File, o: File)
    requires y.Normal() && d in fs && g in fs && d.path == g.path && y.want(d) != y.want(g)
    requires d.enforcement == DirectCommit && g.enforcement == MergeRequest && d.target == g.target
    requires o in fs && o.enforcement == MergeRequest && o.path == g.path && y.want(o) != y.want(g)
    ensures !AlwaysSettles(fs, y)
  {
    hide AlwaysSettles;
    if x :| x in fs && x.enforcement != AuditOnly && x.path == g.path && y.want(x) == y.want(g) && x.target == y.feature(g.path) {
      if x.enforcement == DirectCommit {
        CommitToFeatureBranch(fs, y, x, o);
      } else if !Directed(fs, x.path, x.target) {
        SharedFeatureBranch(fs, y, x, o);
      } else {
        var e :| e in fs && e.enforcement == DirectCommit && e.path == x.path && e.target == x.target;
        CommitToFeatureBranch(fs, y, e, if y.want(e) != y.want(g) then g else o);
      }
    } else {
      OvertakenRequest(fs, y, d, g);
    }
  }

  /** Two direct commits of different contents to one branch: one of the two is never in order. */
  lemma TwoCommits(fs: seq<File>, y: Sync, f: File, g: File)
    requires f in fs && g in fs && f.path == g.path && y.want(f) != y.want(g)
    requires f.enforcement == DirectCommit && g.enforcement == DirectCommit && f.target == g.target
    ensures forall r :: !AllSettled(r, y, fs)
    ensures !AlwaysSettles(fs, y)
  {
    hide Normalize, AfterFiles, Start;
    forall r ensures !AllSettled(r, y, fs) {
      assert !Settled(r, y, f) || !Settled(r, y, g);
    }
    var r := Start(fs, y, (b, p) => None);
    StartHas(fs, y, (b, p) => None, f);
    Unsettles(fs, y, r, fs, if Settled(AfterFiles(r, y, fs), y, f) then g else f);
  }

  /** One Apply settles every enforced file, from every repository and in every order of declaration,
      exactly when no two declarations clash. */
  lemma AlwaysSettlesExactly(fs: seq<File>, y: Sync)
    requires y.Normal()
    ensures AlwaysSettles(fs, y) <==> NoClash(fs, y)
  {
    hide AlwaysSettles;
    if NoClash(fs, y) {
      NoClashSettles(fs, y);
    } else {
      var f, g :| f in fs && g in fs && Clash(fs, y, f, g);
      match (f.enforcement, g.enforcement) {
        case (DirectCommit, DirectCommit) => TwoCommits(fs, y, f, g);
        case (DirectCommit, MergeRequest) => CommitAndRequest(fs, y, f, g);
        case (MergeRequest, DirectCommit) => CommitAndRequest(fs, y, g, f);
        case (MergeRequest, MergeRequest) =>
          if Directed(fs, f.path, f.target) {
            SharedFeatureBranch(fs, y, g, f);
          } else {
            SharedFeatureBranch(fs, y, f, g);
          }
      }
    }
  }

  lemma CommitAndRequest(fs: seq<File>, y: Sync, d: File, g: File)
    requires y.Normal() && d in fs && g in fs && Clash(fs, y, d, g)
    requires d.enforcement == DirectCommit && g.enforcement == MergeRequest
    ensures !AlwaysSettles(fs, y)
  {
    if d.target == g.target {
      CommitToTarget(fs, y, d, g);
    } else {
      CommitToFeatureBranch(fs, y, d, g);
    }
  }

  /** A fixed order can settle a clash: with the direct commit first, its target has drifted when the
      merge request to that target is handled, which is then opened. The other order fails. */
  lemma OrderMatters(y: Sync, d: File, g: File)
    requires y.Normal() && d.path == g.path && y.want(d) != y.want(g) && d.target != y.feature(g.path)
    requires d.enforcement == DirectCommit && g.enforcement == MergeRequest && d.target == g.target
    ensures forall r :: HasTargets(r, [d, g]) ==> AllSettled(AfterFiles(r, y, [d, g]), y, [d, g])
    ensures exists r :: HasTargets(r, [d, g]) && !AllSettled(AfterFiles(r, y, [g, d]), y, [d, g])
  {
    hide AfterFile, Settled, Start, Normalize;
    forall r | HasTargets(r, [d, g]) ensures AllSettled(AfterFiles(r, y, [d, g]), y, [d, g]) {
      CommitThenRequest(r, y, d, g);
      InTurn(r, y, d, g);
    }
    var at := (b, p) => if b == g.target then Some(y.want(g)) else None;
    var r := Start([d, g], y, at);
    StartHas([d, g], y, at, g);
    RequestThenCommit(r, y, d, g);
    InTurn(r, y, g, d);
    assert !AllSettled(AfterFiles(r, y, [g, d]), y, [d, g]);
  }

  lemma InTurn(r: Repo, y: Sync, f: File, g: File)
    ensures AfterFiles(r, y, [f, g]) == AfterFile(AfterFile(r, y, f), y, g)
  {
    hide AfterFile;
    assert [f, g][..1] == [f] && [f][..0] == [];
    assert AfterFiles(r, y, [f]) == AfterFile(AfterFiles(r, y, []), y, f);
  }

  lemma CommitThenRequest(r: Repo, y: Sync, d: File, g: File)
    requires y.Normal() && d.path == g.path && y.want(d) != y.want(g) && d.target != y.feature(g.path)
    requires d.enforcement == DirectCommit && g.enforcement == MergeRequest && d.target == g.target
    requires d.target in r.files
    ensures var after := AfterFile(AfterFile(r, y, d), y, g); Settled(after, y, d) && Settled(after, y, g)
  {
    hide AfterFile, Normalize;
    var r1 := AfterFile(r, y, d);
    KeepsBranches(r, y, d);
    FileSettles(r, y, d);
    FileSettles(r1, y, g);
    FileFrame(r1, y, g, d.target, d.path);
  }

  lemma RequestThenCommit(r: Repo, y: Sync, d: File, g: File)
    requires y.Normal() && d.path == g.path && y.want(d) != y.want(g)
    requires d.enforcement == DirectCommit && g.enforcement == MergeRequest && d.target == g.target
    requires d.target in r.files && r.mrs == {} && Fetch(r.files, g.target, g.path) == Some(y.want(g))
    ensures var after := AfterFile(AfterFile(r, y, g), y, d); !(Settled(after, y, d) && Settled(after, y, g))
  {
    hide AfterFile, Normalize;
    assert Normalize(y.want(g)) == y.want(g);
    SettledIsIdle(r, y, g);
    FileFrame(r, y, d, d.target, d.path);
  }

  /** Merge requests that write different contents to their common feature branch settle in every order
      when direct commits bring the same contents to their targets. */
  lemma SharedFeatureBranchCanSettle(y: Sync, f: File, g: File)
    requires y.Normal() && f.path == g.path && y.feature(f.path) !in {f.target, g.target} && f.target != g.target
    requires y.want(f.(enforcement := MergeRequest)) == y.want(f.(enforcement := DirectCommit))
    requires y.want(g.(enforcement := MergeRequest)) == y.want(g.(enforcement := DirectCommit))
    ensures AlwaysSettles([f.(enforcement := MergeRequest), g.(enforcement := MergeRequest),
                           f.(enforcement := DirectCommit), g.(enforcement := DirectCommit)], y)
  {
    hide AlwaysSettles, Normalize;
    var fs := [f.(enforcement := MergeRequest), g.(enforcement := MergeRequest),
               f.(enforcement := DirectCommit), g.(enforcement := DirectCommit)];
    assert fs[2] in fs && fs[3] in fs;
    NoClashSettles(fs, y);
  }

  /** After one Apply of declarations that do not clash, a plan reports audited files only. */
  method ApplyThenPlan(repo: Repository, fs: seq<File>, expand: string -> Option<string>, feature: string -> string)
    returns (drifted: Option<seq<File>>)
    requires HasTargets(repo.State(), fs) && NoClash(fs, Sync(feature, Wanted(expand)))
    modifies repo
    ensures drifted.None? <==> exists i :: 0 <= i < |fs| && Desired(fs[i], expand).None?
    ensures drifted.Some? ==> forall f :: f in drifted.value ==> f in fs && f.enforcement == AuditOnly
  {
    hide Settled, Desired, AfterFiles, NoClash;
    ghost var y := Sync(feature, Wanted(expand));
    WantedIsNormal(expand, feature);
    NoClashSettles(fs, y);
    ghost var before := repo.State();
    var done := repo.Apply(fs, expand, feature);
    drifted := repo.Plan(fs, expand, feature);
    if done == |fs| {
      assert fs[..done] == fs && multiset(fs) == multiset(fs);
      assert AllSettled(AfterFiles(before, y, fs), y, fs);
    }
  }
}
