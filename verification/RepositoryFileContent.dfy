/** What content a declared repository file is given (internal/governance/repositoryfiles.go), told by
    lines: which lines a file keeps, and where the header of a managed file stands. */
module RepositoryFileContent {
  import opened Prelude
  import opened RepositoryFiles

  // ---------------------------------------------------------------------------
  // Lines
  // ---------------------------------------------------------------------------

  /** The lines of a text, each ended by "\r\n", "\r" or "\n", and what stands after the last end. */
  ghost function Lines(s: string): (lines: seq<string>)
    ensures |lines| > 0
  {
    if s == "" then [""]
    else if s[0] == '\r' && |s| > 1 && s[1] == '\n' then [""] + Lines(s[2..])
    else if s[0] in {'\r', '\n'} then [""] + Lines(s[1..])
    else
      var rest := Lines(s[1..]);
      [[s[0]] + rest[0]] + rest[1..]
  }

  /** Without the empty lines at the end. */
  ghost function WithoutBlankEnd(lines: seq<string>): seq<string> {
    if lines != [] && lines[|lines| - 1] == "" then WithoutBlankEnd(lines[..|lines| - 1]) else lines
  }

  /** Each line ended by one line feed. */
  ghost function Joined(lines: seq<string>): string {
    if lines == [] then "" else lines[0] + "\n" + Joined(lines[1..])
  }

  /** The lines with line feeds between them. */
  ghost function Between(lines: seq<string>): string {
    if lines == [] then "" else if |lines| == 1 then lines[0] else lines[0] + "\n" + Between(lines[1..])
  }

  lemma {:induction false} LinesAreBetween(s: string)
    ensures CrToLf(CrLfToLf(s)) == Between(Lines(s))
  {
    if s != "" {
      if s[0] == '\r' && |s| > 1 && s[1] == '\n' {
        LinesAreBetween(s[2..]);
        assert ("\n" + CrLfToLf(s[2..]))[1..] == CrLfToLf(s[2..]);
        BlankFirst(Lines(s[2..]));
      } else {
        LinesAreBetween(s[1..]);
        assert ([s[0]] + CrLfToLf(s[1..]))[1..] == CrLfToLf(s[1..]);
        if s[0] in {'\r', '\n'} {
          BlankFirst(Lines(s[1..]));
        } else {
          LongerFirst(s[0], Lines(s[1..]));
        }
      }
    }
  }

  lemma BlankFirst(lines: seq<string>)
    requires lines != []
    ensures Between([""] + lines) == "\n" + Between(lines)
  {
    assert ([""] + lines)[1..] == lines;
  }

  lemma LongerFirst(c: char, lines: seq<string>)
    requires lines != []
    ensures Between([[c] + lines[0]] + lines[1..]) == [c] + Between(lines)
  {
    assert ([[c] + lines[0]] + lines[1..])[1..] == lines[1..];
    assert |lines| > 1 ==> [c] + lines[0] + "\n" + Between(lines[1..]) == [c] + (lines[0] + "\n" + Between(lines[1..]));
  }

  ghost predicate NoFeeds(lines: seq<string>) {
    forall i :: 0 <= i < |lines| ==> '\n' !in lines[i]
  }

  lemma {:induction false} LinesHaveNoFeeds(s: string)
    ensures NoFeeds(Lines(s))
  {
    if s != "" {
      if s[0] == '\r' && |s| > 1 && s[1] == '\n' {
        LinesHaveNoFeeds(s[2..]);
      } else {
        LinesHaveNoFeeds(s[1..]);
      }
    }
  }

  lemma {:induction false} BetweenLast(lines: seq<string>)
    requires |lines| > 1
    ensures Between(lines) == Between(lines[..|lines| - 1]) + "\n" + lines[|lines| - 1]
  {
    var init, last := lines[..|lines| - 1], lines[|lines| - 1];
    if |lines| > 2 {
      BetweenLast(lines[1..]);
      assert lines[1..][..|lines| - 2] == init[1..];
      assert lines[0] + "\n" + (Between(init[1..]) + "\n" + last) == lines[0] + "\n" + Between(init[1..]) + "\n" + last;
    }
  }

  lemma {:induction false} TrimmedIsBetween(lines: seq<string>)
    requires NoFeeds(lines)
    ensures TrimNewlines(Between(lines)) == Between(WithoutBlankEnd(lines))
  {
    if lines != [] && lines[|lines| - 1] == "" {
      var init := lines[..|lines| - 1];
      TrimmedIsBetween(init);
      if |lines| > 1 {
        BetweenLast(lines);
        assert Between(lines) == Between(init) + "\n";
        assert (Between(init) + "\n")[..|Between(init)|] == Between(init);
      }
    } else if lines != [] {
      LastCharacter(lines);
    }
  }

  lemma {:induction false} LastCharacter(lines: seq<string>)
    requires NoFeeds(lines) && lines != [] && lines[|lines| - 1] != ""
    ensures var s := Between(lines); s != "" && s[|s| - 1] != '\n'
  {
    var last := lines[|lines| - 1];
    assert last[|last| - 1] in last;
    if |lines| > 1 {
      BetweenLast(lines);
    }
  }

  lemma {:induction false} JoinedIsBetween(lines: seq<string>)
    requires lines != []
    ensures Joined(lines) == Between(lines) + "\n"
  {
    if |lines| > 1 {
      JoinedIsBetween(lines[1..]);
      assert lines[0] + "\n" + (Between(lines[1..]) + "\n") == lines[0] + "\n" + Between(lines[1..]) + "\n";
    } else {
      assert Joined(lines[1..]) == "";
    }
  }

  lemma {:induction false} NothingBlankIsLeft(lines: seq<string>)
    ensures var kept := WithoutBlankEnd(lines); kept <= lines && (kept == [] || kept[|kept| - 1] != "")
  {
    if lines != [] && lines[|lines| - 1] == "" {
      NothingBlankIsLeft(lines[..|lines| - 1]);
    }
  }

  /** The normal form of a text has the same lines up to the empty ones at its end, each ended by one
      line feed and by nothing else. */
  lemma NormalFormKeepsLines(s: string)
    ensures Normalize(s) == Joined(WithoutBlankEnd(Lines(s)))
  {
    var kept := WithoutBlankEnd(Lines(s));
    LinesAreBetween(s);
    LinesHaveNoFeeds(s);
    TrimmedIsBetween(Lines(s));
    NothingBlankIsLeft(Lines(s));
    if kept != [] {
      JoinedIsBetween(kept);
      LinesPrefix(Lines(s), kept);
      LastCharacter(kept);
    }
  }

  lemma LinesPrefix(lines: seq<string>, kept: seq<string>)
    requires NoFeeds(lines) && kept <= lines
    ensures NoFeeds(kept)
  {
  }

  // ---------------------------------------------------------------------------
  // The header
  // ---------------------------------------------------------------------------

  /** `c` is this letter, small or capital. */
  ghost predicate Letter(c: char, small: char) {
    c == small || ('A' <= c <= 'Z' && c as int + 32 == small as int)
  }

  /** The path ends in this extension, in whatever case. */
  ghost predicate HasExtension(path: string, extension: string) {
    && |extension| <= |path|
    && forall k :: 0 <= k < |extension| ==> Letter(path[|path| - |extension| + k], extension[k])
  }

  /** A dot and some small letters. */
  predicate PlainExtension(extension: string) {
    |extension| > 1 && extension[0] == '.' && forall k :: 1 <= k < |extension| ==> 'a' <= extension[k] <= 'z'
  }

  lemma {:induction false} ExtIsFrom(path: string, end: nat, dot: nat)
    requires dot < end <= |path| && path[dot] == '.' && forall k :: dot < k < end ==> path[k] !in {'.', '/'}
    ensures Ext(path, end) == path[dot..]
    decreases end
  {
    if end > dot + 1 {
      ExtIsFrom(path, end - 1, dot);
    }
  }

  lemma {:induction false} ExtIsSuffix(path: string, end: nat)
    requires end <= |path|
    ensures var e := Ext(path, end); e == "" || (|e| <= |path| && e == path[|path| - |e|..] && |path| - |e| < end && e[0] == '.')
    decreases end
  {
    if end > 0 && path[end - 1] !in {'/', '.'} {
      ExtIsSuffix(path, end - 1);
    }
  }

  lemma {:induction false} LowerEach(s: string)
    ensures |Lower(s)| == |s| && forall k :: 0 <= k < |s| ==> Lower(s)[k] == LowerChar(s[k])
  {
    if s != "" {
      LowerEach(s[1..]);
    }
  }

  lemma LettersAreLowered(c: char, small: char)
    requires small == '.' || 'a' <= small <= 'z'
    ensures Letter(c, small) <==> LowerChar(c) == small
  {
  }

  lemma ExtensionStarts(path: string, extension: string)
    requires PlainExtension(extension) && HasExtension(path, extension)
    ensures Ext(path, |path|) == path[|path| - |extension|..]
  {
    var dot := |path| - |extension|;
    forall k | dot <= k < |path| ensures Letter(path[k], extension[k - dot]) {
      assert path[dot + (k - dot)] == path[k];
    }
    ExtIsFrom(path, |path|, dot);
  }

  lemma ExtensionIsFound(path: string, extension: string)
    requires PlainExtension(extension)
    ensures Lower(Ext(path, |path|)) == extension <==> HasExtension(path, extension)
  {
    hide Letter, Ext, Lower, LowerChar;
    var e := Ext(path, |path|);
    LowerEach(e);
    ExtIsSuffix(path, |path|);
    if HasExtension(path, extension) {
      ExtensionStarts(path, extension);
    }
    if |e| == |extension| && e != "" {
      LettersOf(path, e, extension);
    }
  }

  lemma LettersOf(path: string, e: string, extension: string)
    requires PlainExtension(extension) && |e| == |extension| <= |path| && e == path[|path| - |e|..]
    ensures HasExtension(path, extension) <==> forall k :: 0 <= k < |e| ==> LowerChar(e[k]) == extension[k]
  {
    hide Letter, LowerChar;
    forall k | 0 <= k < |extension|
      ensures path[|path| - |extension| + k] == e[k] && (Letter(e[k], extension[k]) <==> LowerChar(e[k]) == extension[k])
    {
      LettersAreLowered(e[k], extension[k]);
    }
  }

  const MANAGED := "Auto-managed by gitlab-fleet-governor \U{2014} do not edit manually"

  ghost function Comment(before: string, after: string): string {
    before + MANAGED + after
  }

  /** The comment a managed file of this kind carries. */
  ghost predicate HeaderOf(path: string, header: string) {
    if HasExtension(path, ".md") || HasExtension(path, ".html") then header == Comment("<!-- ", " -->\n")
    else if HasExtension(path, ".go") || HasExtension(path, ".js") || HasExtension(path, ".ts") || HasExtension(path, ".java")
         || HasExtension(path, ".c") || HasExtension(path, ".cpp") || HasExtension(path, ".rs") then
      header == Comment("// Enterprise policy\n// ", "\n")
    else header == Comment("# Enterprise policy\n# ", "\n")
  }

  ghost function Header(ext: string): string {
    HeaderFor(ext).0 + MARKER + HeaderFor(ext).1
  }

  lemma ManagedText()
    ensures MARKER + NOTICE == MANAGED
  {
  }

  lemma HeaderParts(ext: string, before: string, after: string)
    requires HeaderFor(ext) == (before, NOTICE + after)
    ensures Header(ext) == Comment(before, after)
  {
    hide HeaderFor;
    ManagedText();
    assert before + MARKER + (NOTICE + after) == before + (MARKER + NOTICE) + after;
  }

  lemma MarkupHeader(ext: string)
    requires ext == ".md" || ext == ".html"
    ensures Header(ext) == Comment("<!-- ", " -->\n")
  {
    hide Header, Comment;
    HeaderParts(ext, "<!-- ", " -->\n");
  }

  lemma CodeHeader(ext: string)
    requires ext in {".go", ".js", ".ts", ".java", ".c", ".cpp", ".rs"}
    ensures Header(ext) == Comment("// Enterprise policy\n// ", "\n")
  {
    hide Header, Comment;
    HeaderParts(ext, "// Enterprise policy\n// ", "\n");
  }

  lemma OtherHeader(ext: string)
    requires ext !in {".md", ".html", ".go", ".js", ".ts", ".java", ".c", ".cpp", ".rs"}
    ensures Header(ext) == Comment("# Enterprise policy\n# ", "\n")
  {
    hide Header, Comment;
    HeaderParts(ext, "# Enterprise policy\n# ", "\n");
  }

  lemma HeaderIsOf(path: string)
    ensures HeaderOf(path, Header(Lower(Ext(path, |path|))))
  {
    hide Ext, Lower, HasExtension, Header, Comment;
    var ext := Lower(Ext(path, |path|));
    AllExtensions(path, ext);
    if ext in {".md", ".html"} {
      MarkupHeader(ext);
    } else if ext in {".go", ".js", ".ts", ".java", ".c", ".cpp", ".rs"} {
      CodeHeader(ext);
    } else {
      OtherHeader(ext);
    }
  }

  lemma AllExtensions(path: string, ext: string)
    requires ext == Lower(Ext(path, |path|))
    ensures ext in {".md", ".html"} <==> HasExtension(path, ".md") || HasExtension(path, ".html")
    ensures ext in {".go", ".js", ".ts", ".java", ".c", ".cpp", ".rs"} <==>
            || HasExtension(path, ".go") || HasExtension(path, ".js") || HasExtension(path, ".ts") || HasExtension(path, ".java")
            || HasExtension(path, ".c") || HasExtension(path, ".cpp") || HasExtension(path, ".rs")
  {
    hide Ext, Lower, HasExtension;
    ExtensionIsFound(path, ".md");
    ExtensionIsFound(path, ".html");
    ExtensionIsFound(path, ".go");
    ExtensionIsFound(path, ".js");
    ExtensionIsFound(path, ".ts");
    ExtensionIsFound(path, ".java");
    ExtensionIsFound(path, ".c");
    ExtensionIsFound(path, ".cpp");
    ExtensionIsFound(path, ".rs");
  }

  /** `content` is `text` with the header on top, after the shebang line if there is one. */
  ghost predicate Headed(path: string, text: string, content: string, top: string, header: string, rest: string) {
    && content == top + header + rest && HeaderOf(path, header)
    && (if "#!" <= text then "#!" <= top && top[|top| - 1] == '\n' && '\n' !in top[..|top| - 1] else top == "")
    && (top + rest == text || (rest == "" && top == text + "\n" && '\n' !in text))
  }

  lemma {:induction false} FirstLineHasNoFeed(s: string)
    ensures '\n' !in s[..FirstLine(s)]
  {
    if s != "" && s[0] != '\n' {
      FirstLineHasNoFeed(s[1..]);
      assert s[..FirstLine(s)] == [s[0]] + s[1..][..FirstLine(s[1..])];
    }
  }

  /** The first line of a script, and what follows it. */
  lemma Shebang(text: string) returns (top: string, rest: string)
    requires "#!" <= text
    ensures var n := FirstLine(text);
            top == text[..n] + "\n" && rest == (if n < |text| then text[n + 1..] else "")
    ensures "#!" <= top && top[|top| - 1] == '\n' && '\n' !in top[..|top| - 1]
    ensures top + rest == text || (rest == "" && top == text + "\n" && '\n' !in text)
  {
    var n := FirstLine(text);
    assert text[0] == '#' && text[1] == '!';
    assert FirstLine(text[1..]) >= 1;
    FirstLineHasNoFeed(text);
    top, rest := text[..n] + "\n", if n < |text| then text[n + 1..] else "";
    assert top[..|top| - 1] == text[..n];
    assert n < |text| ==> top + rest == text;
    assert n == |text| ==> text[..n] == text;
  }

  lemma IsScript(text: string)
    ensures "#!" <= text <==> |text| >= 2 && text[0] == '#' && text[1] == '!'
  {
    if |text| >= 2 && text[0] == '#' && text[1] == '!' {
      assert text[..2] == "#!";
    }
  }

  lemma HeaderIsOnTop(path: string, text: string, before: string, marker: string, after: string) returns (top: string, rest: string)
    requires HeaderOf(path, before + marker + after)
    ensures Headed(path, text, WithHeader(text, before, marker, after), top, before + marker + after, rest)
  {
    hide HeaderOf, FirstLine;
    IsScript(text);
    if "#!" <= text {
      top, rest := Shebang(text);
    } else {
      top, rest := "", text;
      assert top + (before + marker + after) + rest == before + marker + after + text;
    }
  }

  // ---------------------------------------------------------------------------
  // What is committed
  // ---------------------------------------------------------------------------

  /** The content asked for by given content that expands to `text`. */
  ghost predicate ContentFor(f: File, text: string, content: string) {
    if f.enforcement == DirectCommit && f.content.Some? && !HasExtension(f.declared, ".json")
       && !Contains(text, "Auto-managed by gitlab-fleet-governor")
    then exists top, header, rest :: Headed(f.declared, text, content, top, header, rest)
    else content == text
  }

  /** The wanted content of a file is the normal form of its expanded content, with the header where
      one is due. */
  lemma WantedContent(f: File, expand: string -> Option<string>) returns (content: string)
    requires expand(if f.content.Some? then f.content.value else "").Some?
    ensures ContentFor(f, expand(if f.content.Some? then f.content.value else "").value, content)
    ensures Desired(f, expand) == Some(Joined(WithoutBlankEnd(Lines(content))))
  {
    hide Normalize, Joined, Headed, HeaderOf, HeaderFor, WithHeader, Contains, Ext, Lower, HasExtension;
    var text := expand(if f.content.Some? then f.content.value else "").value;
    ExtensionIsFound(f.declared, ".json");
    if f.enforcement == DirectCommit && f.content.Some? {
      content := AttachManagedHeader(f.declared, text);
      var ext := Lower(Ext(f.declared, |f.declared|));
      HeaderIsOf(f.declared);
      assert Header(ext) == HeaderFor(ext).0 + MARKER + HeaderFor(ext).1;
      var top, rest := HeaderIsOnTop(f.declared, text, HeaderFor(ext).0, MARKER, HeaderFor(ext).1);
    } else {
      content := text;
    }
    NormalFormKeepsLines(content);
  }

  lemma {:induction false} FirstLineOf(line: string, more: string)
    requires '\n' !in line
    ensures FirstLine(line + "\n" + more) == |line|
  {
    var s := line + "\n" + more;
    if line != "" {
      assert s[0] == line[0] && line[0] in line && s[1..] == line[1..] + "\n" + more;
      FirstLineOf(line[1..], more);
    } else {
      assert s[0] == '\n';
    }
  }

  lemma {:induction false} JoinedInjective(a: seq<string>, b: seq<string>)
    requires NoFeeds(a) && NoFeeds(b) && Joined(a) == Joined(b)
    ensures a == b
  {
    if a != [] && b != [] {
      var s := Joined(a);
      FirstLineOf(a[0], Joined(a[1..]));
      FirstLineOf(b[0], Joined(b[1..]));
      assert a[0] == s[..|a[0]|] == b[0];
      assert s[|a[0]| + 1..] == Joined(a[1..]) && s[|b[0]| + 1..] == Joined(b[1..]);
      JoinedInjective(a[1..], b[1..]);
    }
  }

  /** What is stored has the lines of the content asked for, up to line ends and empty lines at the end. */
  ghost predicate Holds(stored: Option<string>, content: string) {
    stored.Some? && WithoutBlankEnd(Lines(stored.value)) == WithoutBlankEnd(Lines(content))
  }

  lemma SameNormalForm(a: string, b: string)
    ensures Normalize(a) == Joined(WithoutBlankEnd(Lines(b))) <==> WithoutBlankEnd(Lines(a)) == WithoutBlankEnd(Lines(b))
  {
    hide Normalize, Lines, Joined;
    NormalFormKeepsLines(a);
    LinesHaveNoFeeds(a);
    LinesHaveNoFeeds(b);
    NothingBlankIsLeft(Lines(a));
    NothingBlankIsLeft(Lines(b));
    LinesPrefix(Lines(a), WithoutBlankEnd(Lines(a)));
    LinesPrefix(Lines(b), WithoutBlankEnd(Lines(b)));
    if Normalize(a) == Joined(WithoutBlankEnd(Lines(b))) {
      JoinedInjective(WithoutBlankEnd(Lines(a)), WithoutBlankEnd(Lines(b)));
    }
  }

  /** The file is in place: on its target branch, or on the branch of an open merge request to it. */
  ghost predicate InPlace(r: Repo, feature: string -> string, f: File, content: string) {
    || Holds(Fetch(r.files, f.target, f.path), content)
    || (f.enforcement == MergeRequest && (feature(f.path), f.target) in r.mrs && Holds(Fetch(r.files, feature(f.path), f.path), content))
  }

  /** A file needs no attention exactly when the content asked for is in place. */
  lemma SettledMeansInPlace(r: Repo, feature: string -> string, expand: string -> Option<string>, f: File, content: string)
    requires Desired(f, expand) == Some(Joined(WithoutBlankEnd(Lines(content))))
    ensures Settled(r, Sync(feature, Wanted(expand)), f) <==> InPlace(r, feature, f, content)
  {
    hide Normalize, Lines, Joined, WithoutBlankEnd, Desired;
    var here, there := Fetch(r.files, f.target, f.path), Fetch(r.files, feature(f.path), f.path);
    assert Wanted(expand)(f) == Desired(f, expand).value;
    if here.Some? {
      SameNormalForm(here.value, content);
    }
    if there.Some? {
      SameNormalForm(there.value, content);
    }
  }

  /** What a direct commit stores: the content asked for, each of its lines ended by a line feed. */
  lemma CommitStores(r: Repo, feature: string -> string, expand: string -> Option<string>, f: File) returns (content: string)
    requires f.target in r.files && f.enforcement == DirectCommit
    requires expand(if f.content.Some? then f.content.value else "").Some?
    ensures ContentFor(f, expand(if f.content.Some? then f.content.value else "").value, content)
    ensures var after := AfterFile(r, Sync(feature, Wanted(expand)), f);
            if Holds(Fetch(r.files, f.target, f.path), content) then after == r
            else Fetch(after.files, f.target, f.path) == Some(Joined(WithoutBlankEnd(Lines(content))))
  {
    hide Normalize, Lines, Joined, WithoutBlankEnd, Desired, ContentFor, Holds;
    content := WantedContent(f, expand);
    SettledMeansInPlace(r, feature, expand, f, content);
    assert Wanted(expand)(f) == Desired(f, expand).value;
  }

  /** What a merge request proposes, unless the content is in place: the feature branch, taken from the
      target branch if there is none yet, with the content asked for, where its lines are not there
      already; and nothing else. */
  lemma ProposalStores(r: Repo, feature: string -> string, expand: string -> Option<string>, f: File) returns (content: string)
    requires f.target in r.files && f.enforcement == MergeRequest
    requires expand(if f.content.Some? then f.content.value else "").Some?
    ensures ContentFor(f, expand(if f.content.Some? then f.content.value else "").value, content)
    ensures var after := AfterFile(r, Sync(feature, Wanted(expand)), f);
            var source := feature(f.path);
            if InPlace(r, feature, f, content) then after == r
            else
              && after.mrs == r.mrs + {(source, f.target)}
              && forall branch, path ::
                   var before := Fetch(r.files, if branch == source && source !in r.files then f.target else branch, path);
                   Fetch(after.files, branch, path) ==
                   if branch == source && path == f.path && !Holds(before, content) then Some(Joined(WithoutBlankEnd(Lines(content))))
                   else before
  {
    hide Normalize, Lines, Joined, WithoutBlankEnd, Desired, ContentFor, Holds, Settled;
    content := WantedContent(f, expand);
    SettledMeansInPlace(r, feature, expand, f, content);
    var before := Fetch(r.files, if feature(f.path) !in r.files then f.target else feature(f.path), f.path);
    MatchesMeansHolds(before, content);
    assert Wanted(expand)(f) == Desired(f, expand).value;
  }

  lemma MatchesMeansHolds(stored: Option<string>, content: string)
    ensures Matches(stored, Joined(WithoutBlankEnd(Lines(content)))) <==> Holds(stored, content)
  {
    hide Normalize, Lines, Joined, WithoutBlankEnd;
    if stored.Some? {
      SameNormalForm(stored.value, content);
    }
  }

  /** The enforced file's content is in place. */
  ghost predicate BringsContent(r: Repo, feature: string -> string, expand: string -> Option<string>, f: File) {
    var text := expand(if f.content.Some? then f.content.value else "");
    text.Some? && exists content :: ContentFor(f, text.value, content) && InPlace(r, feature, f, content)
  }

  /** One Apply of declarations that do not clash, all of which can be expanded, puts the content of
      every enforced file in place. */
  method ApplyBringsContent(repo: Repository, fs: seq<File>, expand: string -> Option<string>, feature: string -> string)
    requires HasTargets(repo.State(), fs) && NoClash(fs, Sync(feature, Wanted(expand)))
    requires forall f :: f in fs ==> expand(if f.content.Some? then f.content.value else "").Some?
    modifies repo
    ensures forall f :: f in fs && f.enforcement != AuditOnly ==> BringsContent(repo.State(), feature, expand, f)
  {
    hide Settled, AfterFiles, NoClash, ContentFor, InPlace, Desired, Joined, Lines, WithoutBlankEnd;
    ghost var y := Sync(feature, Wanted(expand));
    ghost var before := repo.State();
    WantedIsNormal(expand, feature);
    NoClashSettles(fs, y);
    forall f | f in fs ensures Desired(f, expand).Some? {
      var content := WantedContent(f, expand);
    }
    var done := repo.Apply(fs, expand, feature);
    assert fs[..|fs|] == fs && multiset(fs) == multiset(fs);
    assert AllSettled(AfterFiles(before, y, fs), y, fs);
    forall f | f in fs && f.enforcement != AuditOnly ensures BringsContent(repo.State(), feature, expand, f) {
      var content := WantedContent(f, expand);
      SettledMeansInPlace(repo.State(), feature, expand, f, content);
    }
  }
}
