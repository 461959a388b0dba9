/** The exporter (internal/export/exporter.go): it reads policy sections off live projects and
    merges them into one policy by strategy. The consensus strategy is documented to report no drift
    when the exported policy is planned against the same fleet (README.md). */
module Exporter {
  import opened Prelude
  import opened SortedKeys
  import PushRules
  import ProtectedBranches
  import TargetBranchRules
  import Variables
  import VariableExport

  /** The live state the exported sections are read from. */
  datatype Project = Project(id: int, path: string,
                             pushRule: Option<PushRules.Live>,
                             branches: seq<(string, ProtectedBranches.Live)>,
                             targetRules: seq<TargetBranchRules.Rule>,
                             variables: VariableExport.Listing)

  datatype Policies = Policies(pushRules: Option<PushRules.Config>,
                               protectedBranches: Option<seq<ProtectedBranches.Rule>>,
                               targetBranchRules: Option<seq<TargetBranchRules.Rule>>,
                               variables: Option<seq<Variables.Decl>>)

  const NO_POLICIES := Policies(None, None, None, None)

  // ---------------------------------------------------------------------------
  // Inspection
  // ---------------------------------------------------------------------------

  function IfTrue(b: bool): Option<bool> {
    if b then Some(true) else None
  }

  function IfPositive(n: int): Option<int> {
    if n > 0 then Some(n) else None
  }

  /** inspectPushRules: values at their zero are left out, and a section without values altogether. */
  function InspectPushRules(live: Option<PushRules.Live>): Option<PushRules.Config> {
    if live.None? then None
    else
      var l := live.value;
      var c := PushRules.Config(l.patterns, IfPositive(l.maxFileSize), IfTrue(l.committerCheck), IfTrue(l.memberCheck),
                                IfTrue(l.preventSecrets), IfTrue(l.denyDeleteTag), IfTrue(l.rejectUnsigned), IfTrue(l.rejectNonDco));
      if c == PushRules.EMPTY then None else Some(c)
  }

  const BLANK := PushRules.Live(PushRules.NO_PATTERNS, 0, false, false, false, false, false, false)

  /** The exported section says nothing but what is so: written to a project whose push rule is blank it
      gives the live rule back exactly when the size is not negative, and no value in it is zero. */
  lemma ExportedPushRulesRestoreExactly(live: PushRules.Live)
    ensures var c := InspectPushRules(Some(live));
            && ((if c.Some? then PushRules.Written(BLANK, c.value) else BLANK) == live <==> live.maxFileSize >= 0)
            && (c.None? <==> live.maxFileSize <= 0 && live.(maxFileSize := 0) == BLANK)
            && (c.Some? ==>
                  && (c.value.maxFileSize.Some? ==> c.value.maxFileSize.value > 0)
                  && Some(false) !in {c.value.committerCheck, c.value.memberCheck, c.value.preventSecrets, c.value.denyDeleteTag,
                                      c.value.rejectUnsigned, c.value.rejectNonDco})
    ensures InspectPushRules(None).None?
  {
  }

  /** A nonempty exported section planned against its own project is a no-op. */
  lemma ExportedPushRulesPlanNoop(live: Option<PushRules.Live>)
    ensures PushRules.PlanFor(live, InspectPushRules(live)) == PushRules.Noop
    ensures InspectPushRules(live).Some? ==> live.Some?
  {
    hide PushRules.UpdateDiff;
    if live.Some? && InspectPushRules(live).Some? {
      PushRules.NoDiffExactlyCompliant(live.value, InspectPushRules(live).value);
    }
  }

  function Clamped(n: int): int {
    if n > 0 then n else 0
  }

  /** One entry of liveAccessToBranchDescriptions: only positive numbers are taken over. */
  function ExportAccess(a: ProtectedBranches.Access): ProtectedBranches.Access {
    ProtectedBranches.Access(Clamped(a.level), Clamped(a.user), Clamped(a.group), 0)
  }

  function ExportRule(b: (string, ProtectedBranches.Live)): ProtectedBranches.Rule {
    ProtectedBranches.Rule(b.0, Map(ExportAccess, b.1.push), Map(ExportAccess, b.1.merge), Map(ExportAccess, b.1.unprotect),
                           IfTrue(b.1.forcePush), IfTrue(b.1.codeOwner))
  }

  /** inspectProtectedBranches: one rule for each listed branch. */
  method InspectProtectedBranches(listing: seq<(string, ProtectedBranches.Live)>) returns (rules: seq<ProtectedBranches.Rule>)
    ensures rules == Map(ExportRule, listing)
  {
    rules := [];
    for i := 0 to |listing|
      invariant rules == Map(ExportRule, listing[..i])
    {
      assert listing[..i + 1][..i] == listing[..i];
      rules := rules + [ExportRule(listing[i])];
    }
    assert listing[..|listing|] == listing;
  }

  ghost predicate DistinctBranches(listing: seq<(string, ProtectedBranches.Live)>) {
    forall i, j :: 0 <= i < j < |listing| ==> listing[i].0 != listing[j].0
  }

  /** The listing as the map the reconciler looks branches up in. */
  ghost function BranchMap(listing: seq<(string, ProtectedBranches.Live)>): map<string, ProtectedBranches.Live> {
    if listing == [] then map[]
    else BranchMap(listing[..|listing| - 1])[listing[|listing| - 1].0 := listing[|listing| - 1].1]
  }

  ghost predicate NonNegative(accesses: seq<ProtectedBranches.Access>) {
    forall a :: a in accesses ==> a.level >= 0 && a.user >= 0 && a.group >= 0
  }

  ghost predicate ExportableBranch(b: ProtectedBranches.Live) {
    NonNegative(b.push) && NonNegative(b.merge) && NonNegative(b.unprotect)
  }

  lemma MapMembers(f: ProtectedBranches.Access -> (int, int, int), s: seq<ProtectedBranches.Access>)
    ensures forall a :: a in s ==> f(a) in Map(f, s)
    ensures forall t :: t in Map(f, s) ==> exists a :: a in s && f(a) == t
  {
    forall a | a in s ensures f(a) in Map(f, s) {
      var i :| 0 <= i < |s| && s[i] == a;
      assert Map(f, s)[i] == f(a);
    }
    forall t | t in Map(f, s) ensures exists a :: a in s && f(a) == t {
      var i :| 0 <= i < |Map(f, s)| && Map(f, s)[i] == t;
      assert f(s[i]) == t;
    }
  }

  /** An exported access list compares equal to the live one exactly when nothing in it is negative. */
  lemma ExportedAccessIsSame(s: seq<ProtectedBranches.Access>)
    ensures ProtectedBranches.SameAccess(s, Map(ExportAccess, s)) <==> NonNegative(s)
  {
    var e := Map(ExportAccess, s);
    var ts, te := Map(ProtectedBranches.Triple, s), Map(ProtectedBranches.Triple, e);
    if NonNegative(s) {
      forall i | 0 <= i < |s| ensures |ts| == |te| && ts[i] == te[i] {
        assert s[i] in s;
      }
      assert ts == te;
    }
    if ProtectedBranches.SameAccess(s, e) {
      MapMembers(ProtectedBranches.Triple, s);
      forall a | a in s ensures a.level >= 0 && a.user >= 0 && a.group >= 0 {
        var t := ProtectedBranches.Triple(a);
        assert t in ts;
        assert t in multiset(ts);
        assert t in te;
        var i :| 0 <= i < |te| && te[i] == t;
        assert e[i] == ExportAccess(s[i]);
      }
    }
  }

  /** A branch differs from the rule exported from it exactly when an access entry is negative. */
  lemma ExportedRuleIsSame(b: (string, ProtectedBranches.Live))
    ensures ProtectedBranches.Differences(b.1, ExportRule(b)) == ProtectedBranches.UNCHANGED <==> ExportableBranch(b.1)
  {
    ExportedAccessIsSame(b.1.push);
    ExportedAccessIsSame(b.1.merge);
    ExportedAccessIsSame(b.1.unprotect);
    assert |Map(ExportAccess, b.1.push)| == |b.1.push|;
    assert |Map(ExportAccess, b.1.merge)| == |b.1.merge|;
    assert |Map(ExportAccess, b.1.unprotect)| == |b.1.unprotect|;
    hide ProtectedBranches.SameAccess;
  }

  ghost predicate Bare(accesses: seq<ProtectedBranches.Access>) {
    forall a :: a in accesses ==> a.level >= 0 && a.user >= 0 && a.group >= 0 && a.deployKey == 0
  }

  const OPEN := ProtectedBranches.Live([], [], [], false, false)

  /** Protecting the branch anew as exported, on a server that grants nothing by default, gives the
      live protection back exactly when no access entry is negative or names a deploy key. */
  lemma ExportedBranchRestoresExactly(b: (string, ProtectedBranches.Live))
    ensures ExportRule(b).name == b.0 && Some(false) !in {ExportRule(b).forcePush, ExportRule(b).codeOwner}
    ensures ProtectedBranches.Protected(ProtectedBranches.ToProtectOptions(ExportRule(b)), OPEN) == b.1 <==>
            Bare(b.1.push) && Bare(b.1.merge) && Bare(b.1.unprotect)
  {
    hide ProtectedBranches.ToGrant, ProtectedBranches.StoredGrant, Bare;
    ExportedGrantRestores(b.1.push, true);
    ExportedGrantRestores(b.1.merge, false);
    ExportedGrantRestores(b.1.unprotect, false);
  }

  lemma ExportedGrantRestores(s: seq<ProtectedBranches.Access>, deployKeys: bool)
    ensures ProtectedBranches.StoredGrant(ProtectedBranches.ToGrant(Map(ExportAccess, s), deployKeys), []) == s <==> Bare(s)
  {
    var e := Map(ExportAccess, s);
    var stored := ProtectedBranches.StoredGrant(ProtectedBranches.ToGrant(e, deployKeys), []);
    if s != [] {
      ProtectedBranches.StoredEntries(e, deployKeys, []);
      assert forall i :: 0 <= i < |s| ==> stored[i] == ExportAccess(s[i]);
    }
    if Bare(s) {
      assert stored == s;
    }
    if stored == s {
      forall a | a in s ensures a.level >= 0 && a.user >= 0 && a.group >= 0 && a.deployKey == 0 {
        var i :| 0 <= i < |s| && s[i] == a;
        assert stored[i] == ExportAccess(s[i]);
      }
    }
  }

  lemma {:induction false} DiffsAreEmpty(branches: map<string, ProtectedBranches.Live>, rules: seq<ProtectedBranches.Rule>)
    ensures ProtectedBranches.Diffs(branches, rules) == [] <==>
            forall i :: 0 <= i < |rules| ==> ProtectedBranches.RuleDiff(branches, rules[i]) == []
  {
    if rules != [] {
      hide ProtectedBranches.RuleDiff;
      DiffsAreEmpty(branches, rules[..|rules| - 1]);
    }
  }

  lemma {:induction false} BranchMapFinds(listing: seq<(string, ProtectedBranches.Live)>, i: nat)
    requires DistinctBranches(listing) && i < |listing|
    ensures listing[i].0 in BranchMap(listing) && BranchMap(listing)[listing[i].0] == listing[i].1
  {
    if i < |listing| - 1 {
      BranchMapFinds(listing[..|listing| - 1], i);
    }
  }

  /** The protected branches exported from a project with distinct branch names plan to nothing
      against that project, exactly when no access entry of it is negative. */
  lemma ExportedBranchesPlanExactly(listing: seq<(string, ProtectedBranches.Live)>)
    requires DistinctBranches(listing)
    ensures ProtectedBranches.Diffs(BranchMap(listing), Map(ExportRule, listing)) == [] <==>
            forall i :: 0 <= i < |listing| ==> ExportableBranch(listing[i].1)
  {
    hide ProtectedBranches.Differences, ExportableBranch, BranchMap, ProtectedBranches.Diffs;
    var rules := Map(ExportRule, listing);
    DiffsAreEmpty(BranchMap(listing), rules);
    forall i | 0 <= i < |listing|
      ensures ProtectedBranches.RuleDiff(BranchMap(listing), rules[i]) == [] <==> ExportableBranch(listing[i].1)
    {
      BranchMapFinds(listing, i);
      ExportedRuleIsSame(listing[i]);
      assert rules[i] == ExportRule(listing[i]);
    }
  }

  /** inspectTargetBranchRules: the live rules in their order, or nothing when there are none. */
  function InspectTargetBranchRules(live: seq<TargetBranchRules.Rule>): Option<seq<TargetBranchRules.Rule>> {
    if live == [] then None else Some(live)
  }

  /** The policy an exported section is read back as; pruning is never exported. */
  function TargetPolicy(rules: seq<TargetBranchRules.Rule>): TargetBranchRules.Policy {
    TargetBranchRules.Policy(rules, false)
  }

  /** There is a section exactly when there are rules, and then it holds all of them. With distinct names
      it plans to nothing. */
  lemma ExportedTargetRulesPlanNoop(live: seq<TargetBranchRules.Rule>)
    requires TargetBranchRules.DistinctNames(live)
    ensures InspectTargetBranchRules(live).Some? <==> live != []
    ensures InspectTargetBranchRules(live).Some? ==> InspectTargetBranchRules(live).value == live
    ensures TargetBranchRules.Diffs(live, TargetPolicy(live)) == []
  {
    SelectsAll(live, TargetBranchRules.NameSet(live));
    TargetBranchRules.InSyncHasNoDiffs(live, TargetPolicy(live));
  }

  lemma {:induction false} SelectsAll(live: seq<TargetBranchRules.Rule>, names: set<string>)
    requires forall r :: r in live ==> r.name in names
    ensures TargetBranchRules.Select(live, names, true) == live
  {
    if live != [] {
      SelectsAll(live[..|live| - 1], names);
    }
  }

  // ---------------------------------------------------------------------------
  // Merging by strategy
  // ---------------------------------------------------------------------------

  datatype Strategy = Strict | Consensus | Archetype

  datatype Resolution<S> = Rejected | Section(value: Option<S>, warned: bool)

  /** Every project has the section, and they are all the same. */
  predicate Uniform<S(==)>(sections: seq<Option<S>>) {
    forall i :: 0 <= i < |sections| ==> sections[i].Some? && sections[i] == sections[0]
  }

  lemma {:induction false} PresentIsAll<S>(sections: seq<Option<S>>)
    ensures |Present(sections)| <= |sections|
    ensures |Present(sections)| == |sections| <==> forall i :: 0 <= i < |sections| ==> sections[i].Some?
    ensures |Present(sections)| == |sections| ==>
              forall i :: 0 <= i < |sections| ==> sections[i] == Some(Present(sections)[i])
  {
    if sections != [] {
      var init := sections[..|sections| - 1];
      PresentIsAll(init);
      assert forall i :: 0 <= i < |init| ==> sections[i] == init[i];
    }
  }

  /** The collection loop, the all*Equal comparison and resolveDivergence, for one section. */
  method Resolve<S(==)>(sections: seq<Option<S>>, archetype: nat, strategy: Strategy) returns (r: Resolution<S>)
    requires archetype < |sections|
    ensures r == Resolved(sections, archetype, strategy)
  {
    var list: seq<S> := [];
    for i := 0 to |sections|
      invariant list == Present(sections[..i])
    {
      assert sections[..i + 1][..i] == sections[..i];
      if sections[i].Some? {
        list := list + [sections[i].value];
      }
    }
    assert sections[..|sections|] == sections;
    PresentIsAll(sections);
    var uniform := |list| == |sections|;
    if uniform {
      for i := 1 to |list|
        invariant uniform <==> forall k :: 0 <= k < i ==> list[k] == list[0]
      {
        if list[0] != list[i] {
          uniform := false;
        }
      }
    }
    if uniform {
      return Section(Some(list[0]), false);
    }
    if |sections| <= 1 {
      return Section(sections[archetype], false);
    }
    match strategy {
      case Strict => return Rejected;
      case Consensus => return Section(None, true);
      case Archetype => return Section(sections[archetype], true);
    }
  }

  function Resolved<S(==)>(sections: seq<Option<S>>, archetype: nat, strategy: Strategy): Resolution<S>
    requires archetype < |sections|
  {
    if Uniform(sections) then Section(sections[0], false)
    else if |sections| <= 1 then Section(sections[archetype], false)
    else match strategy
         case Strict => Rejected
         case Consensus => Section(None, true)
         case Archetype => Section(sections[archetype], true)
  }

  ghost predicate Agree<S>(sections: seq<Option<S>>) {
    forall i, j :: 0 <= i < |sections| && 0 <= j < |sections| ==> sections[i] == sections[j]
  }

  /** Several projects have one section in common exactly when they agree and have one at all. */
  lemma UniformExactly<S>(sections: seq<Option<S>>)
    requires sections != []
    ensures Uniform(sections) <==> Agree(sections) && sections[0].Some?
  {
    if Agree(sections) && sections[0].Some? {
      forall i | 0 <= i < |sections| ensures sections[i].Some? && sections[i] == sections[0] {
        assert sections[i] == sections[0];
      }
    }
    if Uniform(sections) {
      forall i, j | 0 <= i < |sections| && 0 <= j < |sections| ensures sections[i] == sections[j] {
        assert sections[i] == sections[0] && sections[j] == sections[0];
      }
    }
  }

  /** What the strategies mean. Consensus emits a section exactly when it is every project's own; the
      archetype strategy always emits the archetype's, and warns unless every one of several projects
      has the same; strict emits what consensus does, or fails. */
  lemma StrategiesMean<S>(sections: seq<Option<S>>, archetype: nat)
    requires archetype < |sections|
    ensures var r := Resolved(sections, archetype, Consensus);
            r.Section? && forall s :: r.value == Some(s) <==> forall i :: 0 <= i < |sections| ==> sections[i] == Some(s)
    ensures var r := Resolved(sections, archetype, Archetype);
            r.Section? && r.value == sections[archetype]
            && (r.warned <==> |sections| > 1 && (!Agree(sections) || sections[0].None?))
    ensures var r := Resolved(sections, archetype, Strict);
            r.Section? ==> r.value == Resolved(sections, archetype, Consensus).value
  {
    UniformExactly(sections);
    var r := Resolved(sections, archetype, Consensus);
    forall s
      ensures r.value == Some(s) <==> forall i :: 0 <= i < |sections| ==> sections[i] == Some(s)
    {
      if forall i :: 0 <= i < |sections| ==> sections[i] == Some(s) {
        assert sections[0] == Some(s);
        assert Uniform(sections);
      }
    }
  }

  /** A section is warned about or rejected exactly when several projects disagree on it or all lack it. */
  lemma WarnedExactly<S>(sections: seq<Option<S>>, archetype: nat, strategy: Strategy)
    requires archetype < |sections|
    ensures var r := Resolved(sections, archetype, strategy);
            && ((r.Rejected? || r.warned) <==> |sections| > 1 && (!Agree(sections) || sections[0].None?))
            && (r.Rejected? ==> strategy == Strict)
            && (r.Section? && r.warned ==> strategy != Strict)
  {
    UniformExactly(sections);
  }

  /** A strict export is meant to fail on drift between projects. It fails on a section exactly when
      there are several projects and they either disagree on it or all lack it. */
  lemma StrictFailsExactly<S>(sections: seq<Option<S>>, archetype: nat)
    requires archetype < |sections|
    ensures Resolved(sections, archetype, Strict).Rejected? <==>
            |sections| > 1 && (!Agree(sections) || sections[0].None?)
  {
    UniformExactly(sections);
  }

  /** For instance on two projects that both have no such section, and so do not differ at all. */
  lemma StrictFailsWithoutDrift()
    ensures Agree<int>([None, None]) && Resolved<int>([None, None], 0, Strict).Rejected?
  {
    StrictFailsExactly<int>([None, None], 0);
  }

  datatype Export = Export(project: Project, policies: Policies)

  datatype Normalized =
    | NoArchetype
    | StrictFailure
    | Merged(policies: Policies, warnings: nat)

  function PushSections(exports: seq<Export>): (r: seq<Option<PushRules.Config>>)
    ensures |r| == |exports|
  {
    Map((e: Export) => e.policies.pushRules, exports)
  }

  function BranchSections(exports: seq<Export>): (r: seq<Option<seq<ProtectedBranches.Rule>>>)
    ensures |r| == |exports|
  {
    Map((e: Export) => e.policies.protectedBranches, exports)
  }

  function TargetSections(exports: seq<Export>): (r: seq<Option<seq<TargetBranchRules.Rule>>>)
    ensures |r| == |exports|
  {
    Map((e: Export) => e.policies.targetBranchRules, exports)
  }

  function VariableSections(exports: seq<Export>): (r: seq<Option<seq<Variables.Decl>>>)
    ensures |r| == |exports|
  {
    Map((e: Export) => e.policies.variables, exports)
  }

  /** 1 when several projects disagree on a section or all lack it, else 0. */
  ghost function Divergence<S>(sections: seq<Option<S>>): nat {
    if |sections| > 1 && (!Agree(sections) || sections[0].None?) then 1 else 0
  }

  /** The number of sections on which the projects diverge. */
  ghost function Divergences(exports: seq<Export>): nat {
    Divergence(PushSections(exports)) + Divergence(BranchSections(exports)) +
    Divergence(TargetSections(exports)) + Divergence(VariableSections(exports))
  }

  /** normalizePolicies; `from` recognises the project named by --from-project, when one is given. */
  method NormalizePolicies(exports: seq<Export>, strategy: Strategy, from: Option<Project -> bool>) returns (n: Normalized)
    ensures exports == [] ==> n == Merged(NO_POLICIES, 0)
    ensures exports != [] && from.Some? && (forall i :: 0 <= i < |exports| ==> !from.value(exports[i].project)) <==> n.NoArchetype?
    ensures n.Merged? && exports != [] ==>
              exists a: nat :: a < |exports| && IsArchetype(exports, from, a) && IsMerged(exports, a, strategy, n.policies)
    ensures n.StrictFailure? ==>
              strategy == Strict && exists a: nat :: a < |exports| && IsArchetype(exports, from, a) && SomeRejected(exports, a)
    ensures n.Merged? && exports != [] ==> n.warnings == Divergences(exports)
    ensures n.StrictFailure? ==> Divergences(exports) > 0
    ensures n.Merged? && exports != [] && strategy == Strict ==> n.warnings == 0
  {
    hide PushSections, BranchSections, VariableSections, TargetSections, Resolved, Divergences;
    if |exports| == 0 {
      return Merged(NO_POLICIES, 0);
    }
    var archetype := FindArchetype(exports, from);
    if archetype == |exports| {
      return NoArchetype;
    }
    n := MergeSections(exports, archetype, strategy);
  }

  /** The index of the archetype, or the number of exports when --from-project names none of them. */
  method FindArchetype(exports: seq<Export>, from: Option<Project -> bool>) returns (archetype: nat)
    requires exports != []
    ensures archetype == |exports| <==> from.Some? && forall i :: 0 <= i < |exports| ==> !from.value(exports[i].project)
    ensures archetype != |exports| ==> archetype < |exports| && IsArchetype(exports, from, archetype)
  {
    archetype := 0;
    if from.Some? {
      while archetype < |exports| && !from.value(exports[archetype].project)
        invariant 0 <= archetype <= |exports|
        invariant forall k :: 0 <= k < archetype ==> !from.value(exports[k].project)
      {
        archetype := archetype + 1;
      }
    }
  }

  /** The sections one after the other; the first rejected one ends it. */
  method MergeSections(exports: seq<Export>, archetype: nat, strategy: Strategy) returns (n: Normalized)
    requires archetype < |exports|
    ensures !n.NoArchetype?
    ensures n.Merged? ==> IsMerged(exports, archetype, strategy, n.policies)
    ensures n.StrictFailure? ==> strategy == Strict && SomeRejected(exports, archetype)
    ensures n.Merged? ==> n.warnings == Divergences(exports)
    ensures n.StrictFailure? ==> Divergences(exports) > 0
    ensures n.Merged? && strategy == Strict ==> n.warnings == 0
  {
    hide PushSections, BranchSections, VariableSections, TargetSections, Resolved, Agree;
    WarnedExactly(PushSections(exports), archetype, strategy);
    WarnedExactly(BranchSections(exports), archetype, strategy);
    WarnedExactly(TargetSections(exports), archetype, strategy);
    WarnedExactly(VariableSections(exports), archetype, strategy);
    var push := Resolve(PushSections(exports), archetype, strategy);
    if push.Rejected? {
      return StrictFailure;
    }
    var branches := Resolve(BranchSections(exports), archetype, strategy);
    if branches.Rejected? {
      return StrictFailure;
    }
    var variables := Resolve(VariableSections(exports), archetype, strategy);
    if variables.Rejected? {
      return StrictFailure;
    }
    var targets := Resolve(TargetSections(exports), archetype, strategy);
    if targets.Rejected? {
      return StrictFailure;
    }
    var warnings := (if push.warned then 1 else 0) + (if branches.warned then 1 else 0) + (if targets.warned then 1 else 0)
                    + (if variables.warned then 1 else 0);
    n := Merged(Policies(push.value, branches.value, targets.value, variables.value), warnings);
  }

  /** The first project --from-project names, or the first project. */
  ghost predicate IsArchetype(exports: seq<Export>, from: Option<Project -> bool>, a: nat)
    requires a < |exports|
  {
    if from.None? then a == 0
    else from.value(exports[a].project) && forall k :: 0 <= k < a ==> !from.value(exports[k].project)
  }

  ghost predicate IsMerged(exports: seq<Export>, a: nat, strategy: Strategy, p: Policies)
    requires a < |exports|
  {
    && Emits(Resolved(PushSections(exports), a, strategy), p.pushRules)
    && Emits(Resolved(BranchSections(exports), a, strategy), p.protectedBranches)
    && Emits(Resolved(TargetSections(exports), a, strategy), p.targetBranchRules)
    && Emits(Resolved(VariableSections(exports), a, strategy), p.variables)
  }

  predicate Emits<S(==)>(r: Resolution<S>, value: Option<S>) {
    r.Section? && r.value == value
  }

  predicate SomeRejected(exports: seq<Export>, a: nat)
    requires a < |exports|
  {
    || Resolved(PushSections(exports), a, Strict).Rejected?
    || Resolved(BranchSections(exports), a, Strict).Rejected?
    || Resolved(TargetSections(exports), a, Strict).Rejected?
    || Resolved(VariableSections(exports), a, Strict).Rejected?
  }

  // ---------------------------------------------------------------------------
  // Consensus export followed by plan
  // ---------------------------------------------------------------------------

  /** What the inspection of a project exports; a section that was skipped or could not be read is
      left out. */
  ghost predicate Inspected(e: Export, o: VariableExport.Options) {
    && (e.policies.pushRules.Some? ==> e.policies.pushRules == InspectPushRules(e.project.pushRule))
    && (e.policies.protectedBranches.Some? ==>
          e.project.branches != [] && e.policies.protectedBranches.value == Map(ExportRule, e.project.branches))
    && (e.policies.targetBranchRules.Some? ==> e.policies.targetBranchRules == InspectTargetBranchRules(e.project.targetRules))
    && (e.policies.variables.Some? ==>
          e.project.variables != [] && e.policies.variables.value == VariableExport.ExportAll(o, e.project.variables))
  }

  /** Names are distinct, as a GitLab project guarantees, and variables as it stores them. */
  ghost predicate WellNamed(p: Project) {
    && DistinctBranches(p.branches) && TargetBranchRules.DistinctNames(p.targetRules)
    && VariableExport.Listed(p.variables)
  }

  ghost predicate Exportable(p: Project) {
    forall i :: 0 <= i < |p.branches| ==> ExportableBranch(p.branches[i].1)
  }

  /** No value is written as a placeholder, unless it is one. */
  ghost predicate Readable(p: Project, o: VariableExport.Options) {
    forall i :: 0 <= i < |p.variables| && VariableExport.Hidden(o, p.variables[i]) ==>
      p.variables[i].1.value == VariableExport.Value(o, p.variables[i])
  }

  /** When the sections a policy has, which are the project's own, plan to nothing against it. */
  ghost predicate NothingLost(p: Project, policies: Policies, o: VariableExport.Options) {
    && (policies.protectedBranches.Some? ==> Exportable(p))
    && (policies.variables.Some? ==> Readable(p, o))
  }

  ghost predicate BranchesPlanNoop(p: Project, policies: Policies) {
    policies.protectedBranches.Some? ==>
      ProtectedBranches.Diffs(BranchMap(p.branches), policies.protectedBranches.value) == []
  }

  /** Planning the policy against the project finds nothing to do. */
  ghost predicate PlansNoop(p: Project, policies: Policies) {
    && PushRules.PlanFor(p.pushRule, policies.pushRules) == PushRules.Noop
    && BranchesPlanNoop(p, policies)
    && (policies.targetBranchRules.Some? ==>
          TargetBranchRules.Diffs(p.targetRules, TargetPolicy(policies.targetBranchRules.value)) == [])
    && VariablesPlanNoop(p, policies)
  }

  /** Whatever the order of the listing; pruning is never exported. */
  ghost predicate VariablesPlanNoop(p: Project, policies: Policies) {
    policies.variables.Some? ==>
      Variables.InSync(Variables.CompositeKey, VariableExport.VarMap(p.variables), Variables.Policy(policies.variables.value, false))
  }

  /** Every section a consensus export emits is each project's own. */
  lemma ConsensusIsEveryProjects(exports: seq<Export>, a: nat, policies: Policies, i: nat)
    requires a < |exports| && i < |exports| && IsMerged(exports, a, Consensus, policies)
    ensures policies.pushRules.Some? ==> exports[i].policies.pushRules == policies.pushRules
    ensures policies.protectedBranches.Some? ==> exports[i].policies.protectedBranches == policies.protectedBranches
    ensures policies.targetBranchRules.Some? ==> exports[i].policies.targetBranchRules == policies.targetBranchRules
    ensures policies.variables.Some? ==> exports[i].policies.variables == policies.variables
  {
    hide Resolved, PushSections, BranchSections, TargetSections, VariableSections;
    StrategiesMean(PushSections(exports), a);
    StrategiesMean(BranchSections(exports), a);
    StrategiesMean(TargetSections(exports), a);
    StrategiesMean(VariableSections(exports), a);
    SectionsOf(exports, i);
  }

  lemma SectionsOf(exports: seq<Export>, i: nat)
    requires i < |exports|
    ensures |PushSections(exports)| == |BranchSections(exports)| == |TargetSections(exports)| == |VariableSections(exports)| == |exports|
    ensures PushSections(exports)[i] == exports[i].policies.pushRules
    ensures BranchSections(exports)[i] == exports[i].policies.protectedBranches
    ensures TargetSections(exports)[i] == exports[i].policies.targetBranchRules
    ensures VariableSections(exports)[i] == exports[i].policies.variables
  {
  }

  /** A policy whose sections, where it has them, are the project's own plans to nothing against it,
      exactly when no access entry of the exported branches is negative and no variable hidden. */
  lemma OwnSectionsPlanExactly(e: Export, policies: Policies, o: VariableExport.Options)
    requires Inspected(e, o) && WellNamed(e.project)
    requires policies.pushRules.Some? ==> e.policies.pushRules == policies.pushRules
    requires policies.protectedBranches.Some? ==> e.policies.protectedBranches == policies.protectedBranches
    requires policies.targetBranchRules.Some? ==> e.policies.targetBranchRules == policies.targetBranchRules
    requires policies.variables.Some? ==> e.policies.variables == policies.variables
    ensures PlansNoop(e.project, policies) <==> NothingLost(e.project, policies, o)
  {
    hide TargetBranchRules.Diffs, ProtectedBranches.Diffs, ExportableBranch, PushRules.PlanFor, Variables.InSync,
         VariableExport.ExportAll, VariableExport.Hidden, VariableExport.VarMap, VariableExport.Listed;
    var p := e.project;
    ExportedPushRulesPlanNoop(p.pushRule);
    NothingToPlan(p.pushRule);
    ExportedBranchesPlanExactly(p.branches);
    ExportedTargetRulesPlanNoop(p.targetRules);
    VariableExport.ExportedVariablesPlanExactly(o, p.variables, false);
  }

  /** Zero drift: a consensus export of a fleet plans to nothing against every project of it, exactly
      when of the exported sections nothing is lost on that project. */
  lemma ConsensusExportHasNoDrift(exports: seq<Export>, a: nat, policies: Policies, i: nat, o: VariableExport.Options)
    requires a < |exports| && i < |exports| && IsMerged(exports, a, Consensus, policies)
    requires Inspected(exports[i], o) && WellNamed(exports[i].project)
    ensures PlansNoop(exports[i].project, policies) <==> NothingLost(exports[i].project, policies, o)
  {
    hide IsMerged, PlansNoop, Inspected, WellNamed, NothingLost;
    ConsensusIsEveryProjects(exports, a, policies, i);
    OwnSectionsPlanExactly(exports[i], policies, o);
  }

  /** An archetype export plans to nothing against the archetype project itself, under the same
      condition. */
  lemma ArchetypeExportFitsTheArchetype(exports: seq<Export>, a: nat, policies: Policies, o: VariableExport.Options)
    requires a < |exports| && IsMerged(exports, a, Archetype, policies)
    requires Inspected(exports[a], o) && WellNamed(exports[a].project)
    ensures PlansNoop(exports[a].project, policies) <==> NothingLost(exports[a].project, policies, o)
  {
    hide Resolved, PushSections, BranchSections, TargetSections, VariableSections, PlansNoop, Inspected, WellNamed, NothingLost;
    StrategiesMean(PushSections(exports), a);
    StrategiesMean(BranchSections(exports), a);
    StrategiesMean(TargetSections(exports), a);
    StrategiesMean(VariableSections(exports), a);
    SectionsOf(exports, a);
    OwnSectionsPlanExactly(exports[a], policies, o);
  }

  lemma NothingToPlan(live: Option<PushRules.Live>)
    ensures PushRules.PlanFor(live, None) == PushRules.Noop
  {
  }
}
