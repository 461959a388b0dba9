/** The target-branch-rule reconciler (internal/governance/targetbranchrules.go) against a GitLab
    project that keeps its rules in reverse creation order. */
module TargetBranchRules {
  import opened Prelude

  datatype Rule = Rule(name: string, target: string)

  datatype Policy = Policy(rules: seq<Rule>, prune: bool)

  datatype Action = Noop | Create | Update | Delete

  datatype Diff =
    | Missing(rule: Rule)
    | Retarget(name: string, from: string, to: string)
    | Unmanaged(rule: Rule)
    | OrderDrift(live: seq<string>, desired: seq<string>)
  {
    function Action(): (a: Action)
      ensures a != Noop
    {
      match this
      case Missing(_) => Create
      case Retarget(_, _, _) => Update
      case Unmanaged(_) => Delete
      case OrderDrift(_, _) => Update
    }
  }

  /** The overall action is that of the first diff. */
  function Overall(diffs: seq<Diff>): Action {
    if diffs == [] then Noop else diffs[0].Action()
  }

  function Names(rules: seq<Rule>): (names: seq<string>)
    ensures |names| == |rules| && forall k :: 0 <= k < |rules| ==> names[k] == rules[k].name
  {
    seq(|rules|, k requires 0 <= k < |rules| => rules[k].name)
  }

  function NameSet(rules: seq<Rule>): set<string> {
    set r | r in rules :: r.name
  }

  ghost predicate DistinctNames(rules: seq<Rule>) {
    forall a, b :: 0 <= a < b < |rules| ==> rules[a].name != rules[b].name
  }

  /** The live rules whose name is in `names` (`managed`), or the others, in live order. */
  function Select(live: seq<Rule>, names: set<string>, managed: bool): seq<Rule> {
    if live == [] then []
    else
      var front := Select(live[..|live| - 1], names, managed);
      if (live[|live| - 1].name in names) == managed then front + [live[|live| - 1]] else front
  }

  /** The target the live map ends up with for `name`: that of the last live rule so named. */
  function LiveTarget(live: seq<Rule>, name: string): Option<string> {
    if live == [] then None
    else if live[|live| - 1].name == name then Some(live[|live| - 1].target)
    else LiveTarget(live[..|live| - 1], name)
  }

  /** Diffs of the declared rules: create what is missing, update a wrong target. */
  function RuleDiffs(live: seq<Rule>, rules: seq<Rule>): seq<Diff> {
    if rules == [] then []
    else
      var r := rules[|rules| - 1];
      RuleDiffs(live, rules[..|rules| - 1]) +
      (match LiveTarget(live, r.name)
       case None => [Missing(r)]
       case Some(t) => if t != r.target then [Retarget(r.name, t, r.target)] else [])
  }

  function PruneDiffs(unmanaged: seq<Rule>): (d: seq<Diff>)
    ensures |d| == |unmanaged| && forall k :: 0 <= k < |d| ==> d[k] == Unmanaged(unmanaged[k])
  {
    seq(|unmanaged|, k requires 0 <= k < |unmanaged| => Unmanaged(unmanaged[k]))
  }

  /** All diffs.  The evaluation order is only compared when nothing else differs, and only between
      sequences of the same length. */
  function Diffs(live: seq<Rule>, p: Policy): seq<Diff> {
    var names := NameSet(p.rules);
    var found := RuleDiffs(live, p.rules) + (if p.prune then PruneDiffs(Select(live, names, false)) else []);
    var liveNames := Names(Select(live, names, true));
    if found == [] && |liveNames| == |p.rules| && liveNames != Names(p.rules)
    then [OrderDrift(liveNames, Names(p.rules))]
    else found
  }

  /** The name-indexed map of the live rules; a later rule replaces an earlier one of the same name. */
  method LiveMap(live: seq<Rule>) returns (m: map<string, string>)
    ensures forall name :: name in m <==> LiveTarget(live, name).Some?
    ensures forall name :: name in m ==> LiveTarget(live, name) == Some(m[name])
  {
    m := map[];
    for k := 0 to |live|
      invariant forall name :: name in m <==> LiveTarget(live[..k], name).Some?
      invariant forall name :: name in m ==> LiveTarget(live[..k], name) == Some(m[name])
    {
      assert live[..k + 1][..k] == live[..k];
      m := m[live[k].name := live[k].target];
    }
    assert live[..|live|] == live;
  }

  method DesiredNames(rules: seq<Rule>) returns (desired: set<string>)
    ensures desired == NameSet(rules)
  {
    desired := {};
    for k := 0 to |rules|
      invariant desired == NameSet(rules[..k])
    {
      assert rules[..k + 1] == rules[..k] + [rules[k]];
      desired := desired + {rules[k].name};
    }
    assert rules[..|rules|] == rules;
  }

  /** Order drift detection: are two name sequences of the same length different somewhere? */
  method OrderDiffers(live: seq<string>, desired: seq<string>) returns (drift: bool)
    ensures drift <==> |live| == |desired| && live != desired
  {
    drift := false;
    if |live| == |desired| {
      for k := 0 to |live|
        invariant live[..k] == desired[..k]
      {
        if live[k] != desired[k] {
          return true;
        }
      }
    }
  }

  /** The names of the managed live rules, in live order. */
  method LiveSequence(live: seq<Rule>, desired: set<string>) returns (names: seq<string>)
    ensures names == Names(Select(live, desired, true))
  {
    names := [];
    for k := 0 to |live|
      invariant names == Names(Select(live[..k], desired, true))
    {
      assert live[..k + 1][..k] == live[..k];
      if live[k].name in desired {
        names := names + [live[k].name];
      }
    }
    assert live[..|live|] == live;
  }

  /** Section 1 of calculateDiffs: the declared rules. */
  method CompareDeclared(live: seq<Rule>, rules: seq<Rule>) returns (diffs: seq<Diff>, overall: Action)
    ensures diffs == RuleDiffs(live, rules) && overall == Overall(diffs)
  {
    diffs, overall := [], Noop;
    var liveMap := LiveMap(live);
    for k := 0 to |rules|
      invariant diffs == RuleDiffs(live, rules[..k]) && overall == Overall(diffs)
    {
      assert rules[..k + 1][..k] == rules[..k];
      var dr := rules[k];
      if dr.name !in liveMap {
        diffs := diffs + [Missing(dr)];
        overall := if overall == Noop then Create else overall;
      } else if liveMap[dr.name] != dr.target {
        diffs := diffs + [Retarget(dr.name, liveMap[dr.name], dr.target)];
        overall := if overall == Noop then Update else overall;
      }
    }
    assert rules[..|rules|] == rules;
  }

  /** Section 2: the live rules nobody declares. */
  method ComparePruned(found: seq<Diff>, live: seq<Rule>, desired: set<string>) returns (diffs: seq<Diff>, overall: Action)
    ensures diffs == found + PruneDiffs(Select(live, desired, false)) && overall == Overall(diffs)
  {
    diffs, overall := found, Overall(found);
    for k := 0 to |live|
      invariant diffs == found + PruneDiffs(Select(live[..k], desired, false)) && overall == Overall(diffs)
    {
      assert live[..k + 1][..k] == live[..k];
      if live[k].name !in desired {
        diffs := diffs + [Unmanaged(live[k])];
        overall := if overall == Noop then Delete else overall;
      }
    }
    assert live[..|live|] == live;
  }

  /** calculateDiffs. */
  method CalculateDiffs(live: seq<Rule>, p: Policy) returns (diffs: seq<Diff>, overall: Action)
    ensures diffs == Diffs(live, p)
    ensures diffs == [] <==> overall == Noop
    ensures diffs != [] ==>
              match diffs[0]
              case Missing(_) => overall == Create
              case Unmanaged(_) => overall == Delete
              case _ => overall == Update
  {
    diffs, overall := CompareDeclared(live, p.rules);
    var desired := DesiredNames(p.rules);
    if p.prune {
      diffs, overall := ComparePruned(diffs, live, desired);
    }
    var liveSequence := LiveSequence(live, desired);
    var orderDrift := OrderDiffers(liveSequence, Names(p.rules));
    if orderDrift && |diffs| == 0 {
      diffs := diffs + [OrderDrift(liveSequence, Names(p.rules))];
      overall := if overall == Noop then Update else overall;
    }
  }

  // ---------------------------------------------------------------- what the diffs say

  /** Live rule i is the last of this name and has this target. */
  ghost predicate LastAt(live: seq<Rule>, name: string, target: string, i: int) {
    0 <= i < |live| && live[i] == Rule(name, target) && forall j :: i < j < |live| ==> live[j].name != name
  }

  /** The last live rule of this name has this target. */
  ghost predicate LastNamed(live: seq<Rule>, name: string, target: string) {
    exists i :: LastAt(live, name, target, i)
  }

  lemma {:induction false} LiveTargetIsLast(live: seq<Rule>, name: string, target: string)
    ensures LiveTarget(live, name) == None <==> forall i :: 0 <= i < |live| ==> live[i].name != name
    ensures LiveTarget(live, name) == Some(target) <==> LastNamed(live, name, target)
  {
    if live != [] {
      var init, last := live[..|live| - 1], live[|live| - 1];
      LiveTargetIsLast(init, name, target);
      forall i ensures LastAt(live, name, target, i) <==>
                       if last.name == name then i == |live| - 1 && last.target == target else LastAt(init, name, target, i)
      {
        LastAtGrows(live, name, target, i);
      }
      hide LastAt;
      assert forall i :: 0 <= i < |init| ==> live[i] == init[i];
      if last == Rule(name, target) {
        assert LastAt(live, name, target, |live| - 1);
      }
    }
  }

  lemma LastAtGrows(live: seq<Rule>, name: string, target: string, i: int)
    requires live != []
    ensures var last := live[|live| - 1];
            LastAt(live, name, target, i) <==>
            if last.name == name then i == |live| - 1 && last.target == target
            else LastAt(live[..|live| - 1], name, target, i)
  {
  }

  lemma {:induction false} RuleDiffsSay(live: seq<Rule>, rules: seq<Rule>, r: Rule, from: string)
    ensures Missing(r) in RuleDiffs(live, rules) <==> r in rules && LiveTarget(live, r.name).None?
    ensures Retarget(r.name, from, r.target) in RuleDiffs(live, rules) <==>
            r in rules && LiveTarget(live, r.name) == Some(from) && from != r.target
    ensures Unmanaged(r) !in RuleDiffs(live, rules)
  {
    if rules != [] {
      hide LiveTarget;
      var init, last := rules[..|rules| - 1], rules[|rules| - 1];
      RuleDiffsSay(live, init, r, from);
      assert r in rules <==> r in init || r == last;
    }
  }

  lemma {:induction false} SelectedOnly(live: seq<Rule>, names: set<string>, managed: bool, r: Rule)
    ensures r in Select(live, names, managed) <==> r in live && (r.name in names) == managed
  {
    if live != [] {
      var init, last := live[..|live| - 1], live[|live| - 1];
      SelectedOnly(init, names, managed, r);
      assert r in live <==> r in init || r == last;
    }
  }

  /** Exactly the declared rules nobody has are announced as missing, those whose last live namesake has
      another target as retargeted, and with pruning the live rules of undeclared names as unmanaged;
      an order drift is announced alone. */
  lemma DiffsSay(live: seq<Rule>, p: Policy, r: Rule, from: string)
    ensures Missing(r) in Diffs(live, p) <==> r in p.rules && forall i :: 0 <= i < |live| ==> live[i].name != r.name
    ensures Retarget(r.name, from, r.target) in Diffs(live, p) <==>
            r in p.rules && LastNamed(live, r.name, from) && from != r.target
    ensures Unmanaged(r) in Diffs(live, p) <==> p.prune && r in live && forall d :: d in p.rules ==> d.name != r.name
    ensures forall a, b :: OrderDrift(a, b) in Diffs(live, p) ==> Diffs(live, p) == [OrderDrift(a, b)]
  {
    hide LiveTarget, LastNamed, Select, RuleDiffs;
    RuleDiffsSay(live, p.rules, r, from);
    LiveTargetIsLast(live, r.name, from);
    SelectedOnly(live, NameSet(p.rules), false, r);
    var unmanaged := Select(live, NameSet(p.rules), false);
    assert Unmanaged(r) in PruneDiffs(unmanaged) <==> r in unmanaged by {
      if r in unmanaged {
        var k :| 0 <= k < |unmanaged| && unmanaged[k] == r;
        assert PruneDiffs(unmanaged)[k] == Unmanaged(r);
      }
    }
    NoOrderDrift(live, p.rules);
  }

  lemma {:induction false} NoOrderDrift(live: seq<Rule>, rules: seq<Rule>)
    ensures forall d :: d in RuleDiffs(live, rules) ==> !d.OrderDrift?
  {
    if rules != [] {
      NoOrderDrift(live, rules[..|rules| - 1]);
    }
  }

  // ---------------------------------------------------------------- when there is no drift

  lemma {:induction false} NoRuleDiffs(live: seq<Rule>, rules: seq<Rule>)
    ensures RuleDiffs(live, rules) == [] <==>
            forall k :: 0 <= k < |rules| ==> LiveTarget(live, rules[k].name) == Some(rules[k].target)
  {
    if rules != [] {
      var n := |rules| - 1;
      NoRuleDiffs(live, rules[..n]);
      assert forall k :: 0 <= k < n ==> rules[..n][k] == rules[k];
    }
  }

  lemma {:induction false} SelectMembers(live: seq<Rule>, names: set<string>, managed: bool, r: Rule)
    ensures r in Select(live, names, managed) <==> r in live && (r.name in names) == managed
  {
    if live != [] {
      var n := |live| - 1;
      SelectMembers(live[..n], names, managed, r);
      assert live == live[..n] + [live[n]];
    }
  }

  lemma {:induction false} SelectKeepsDistinct(live: seq<Rule>, names: set<string>, managed: bool)
    requires DistinctNames(live)
    ensures DistinctNames(Select(live, names, managed))
  {
    if live != [] {
      var n := |live| - 1;
      SelectKeepsDistinct(live[..n], names, managed);
      var front := Select(live[..n], names, managed);
      forall k | 0 <= k < |front| ensures front[k].name != live[n].name {
        SelectMembers(live[..n], names, managed, front[k]);
        assert front[k] in live[..n];
      }
    }
  }

  /** The live map holds the target of some live rule of that name, if there is one. */
  lemma {:induction false} LiveTargetIsLive(live: seq<Rule>, r: Rule)
    ensures LiveTarget(live, r.name) == Some(r.target) ==> r in live
    ensures r in live ==> LiveTarget(live, r.name).Some?
  {
    if live != [] {
      var n := |live| - 1;
      LiveTargetIsLive(live[..n], r);
      assert live == live[..n] + [live[n]];
    }
  }

  /** The managed part of the live list is the declared list, and under prune nothing else is live. */
  ghost predicate InSync(live: seq<Rule>, p: Policy) {
    && Select(live, NameSet(p.rules), true) == p.rules
    && (p.prune ==> Select(live, NameSet(p.rules), false) == [])
  }

  /** A live list in sync has no drift, whatever unmanaged rules it holds besides. */
  lemma InSyncHasNoDiffs(live: seq<Rule>, p: Policy)
    requires DistinctNames(p.rules) && InSync(live, p)
    ensures Diffs(live, p) == []
  {
    forall k | 0 <= k < |p.rules| ensures LiveTarget(live, p.rules[k].name) == Some(p.rules[k].target) {
      SelectMembers(live, NameSet(p.rules), true, p.rules[k]);
      LiveTargetIsLive(live, p.rules[k]);
      var r := Rule(p.rules[k].name, LiveTarget(live, p.rules[k].name).value);
      LiveTargetIsLive(live, r);
      SelectMembers(live, NameSet(p.rules), true, r);
      assert r in p.rules;
    }
    NoRuleDiffs(live, p.rules);
  }

  lemma {:induction false} DistinctNamesCount(rules: seq<Rule>)
    requires DistinctNames(rules)
    ensures |NameSet(rules)| == |rules|
  {
    if rules != [] {
      var n := |rules| - 1;
      DistinctNamesCount(rules[..n]);
      assert rules == rules[..n] + [rules[n]];
      assert NameSet(rules) == NameSet(rules[..n]) + {rules[n].name};
    }
  }

  /** With distinct live and declared names, a list without rule diffs has as many managed rules as
      there are declared ones, so the guard on the lengths never hides an order drift. */
  lemma ManagedCount(live: seq<Rule>, rules: seq<Rule>)
    requires DistinctNames(live) && DistinctNames(rules) && RuleDiffs(live, rules) == []
    ensures |Select(live, NameSet(rules), true)| == |rules|
  {
    var managed := Select(live, NameSet(rules), true);
    NoRuleDiffs(live, rules);
    SelectKeepsDistinct(live, NameSet(rules), true);
    forall r | r in managed ensures r.name in NameSet(rules) {
      SelectMembers(live, NameSet(rules), true, r);
    }
    forall k | 0 <= k < |rules| ensures rules[k] in managed {
      LiveTargetIsLive(live, rules[k]);
      SelectMembers(live, NameSet(rules), true, rules[k]);
    }
    assert NameSet(managed) == NameSet(rules);
    DistinctNamesCount(managed);
    DistinctNamesCount(rules);
  }

  /** For distinct live names and distinct declared names, there is no drift if and only if the
      managed live rules are the declared ones, pairwise and in order, and under prune nothing else
      is live. */
  lemma NoDriftExactlyInSync(live: seq<Rule>, p: Policy)
    requires DistinctNames(live) && DistinctNames(p.rules)
    ensures Diffs(live, p) == [] <==> InSync(live, p)
  {
    if InSync(live, p) {
      InSyncHasNoDiffs(live, p);
    }
    if Diffs(live, p) == [] {
      var managed := Select(live, NameSet(p.rules), true);
      ManagedCount(live, p.rules);
      NoRuleDiffs(live, p.rules);
      forall k | 0 <= k < |managed| ensures managed[k] == p.rules[k] {
        assert Names(managed)[k] == Names(p.rules)[k];
        SelectMembers(live, NameSet(p.rules), true, managed[k]);
        LiveTargetIsLive(live, p.rules[k]);
        assert managed[k] in live && p.rules[k] in live;
      }
      if p.prune {
        assert |PruneDiffs(Select(live, NameSet(p.rules), false))| == 0;
      }
    }
  }

  // ---------------------------------------------------------------- the GitLab project

  /** The rule table after one Apply: untouched without diffs, otherwise the declared list on top of
      the surviving unmanaged rules. */
  function AfterApply(live: seq<Rule>, p: Policy): seq<Rule> {
    if Diffs(live, p) == [] then live
    else p.rules + (if p.prune then [] else Select(live, NameSet(p.rules), false))
  }

  lemma NothingKept(names: set<string>)
    ensures Select([], names, false) == []
  {
  }

  lemma SelectStep(rules: seq<Rule>, names: set<string>, k: nat)
    requires k < |rules|
    ensures Select(rules[..k + 1], names, false) ==
            Select(rules[..k], names, false) + if rules[k].name in names then [] else [rules[k]]
  {
    assert rules[..k + 1][..k] == rules[..k];
  }

  lemma HeadOfTail<T>(live: seq<T>, snapshot: seq<T>, i: nat, k: nat)
    requires i <= |live| && k < |snapshot| && live[i..] == snapshot[k..]
    ensures i < |live| && live[i] == snapshot[k] && live[i + 1..] == snapshot[k + 1..]
  {
    assert live[i..][0] == live[i] && live[i..][1..] == live[i + 1..] && snapshot[k..][1..] == snapshot[k + 1..];
  }

  datatype LiveRule = LiveRule(id: nat, rule: Rule)

  function Rules(live: seq<LiveRule>): (rules: seq<Rule>)
    ensures |rules| == |live| && forall k :: 0 <= k < |live| ==> rules[k] == live[k].rule
  {
    seq(|live|, k requires 0 <= k < |live| => live[k].rule)
  }

  /** A project's rule table.  Creation prepends; every rule has an id of its own. */
  class Project {
    var live: seq<LiveRule>
    var nextId: nat

    ghost predicate Valid()
      reads this
    {
      && (forall k :: 0 <= k < |live| ==> live[k].id < nextId)
      && (forall a, b :: 0 <= a < b < |live| ==> live[a].id != live[b].id)
    }

    constructor (rules: seq<Rule>)
      ensures Valid() && Rules(live) == rules
    {
      live := seq(|rules|, k requires 0 <= k < |rules| => LiveRule(k, rules[k]));
      nextId := |rules|;
    }

    /** createTargetBranchRule: the new rule becomes the first. */
    method Create(rule: Rule)
      requires Valid()
      modifies this
      ensures Valid() && Rules(live) == [rule] + old(Rules(live))
    {
      live := [LiveRule(nextId, rule)] + live;
      nextId := nextId + 1;
    }

    /** destroyTargetBranchRule: the rule with this id goes, the others keep their order. */
    method Destroy(id: nat, ghost at: nat)
      requires Valid() && at < |live| && live[at].id == id
      modifies this
      ensures Valid() && live == old(live)[..at] + old(live)[at + 1..] && nextId == old(nextId)
    {
      var k := 0;
      while live[k].id != id
        invariant 0 <= k <= at
        decreases at - k
      {
        k := k + 1;
      }
      live := live[..k] + live[k + 1..];
    }

    /** Plan: the diffs of the current state; the project is not changed. */
    method Plan(p: Policy) returns (diffs: seq<Diff>, overall: Action)
      ensures diffs == Diffs(Rules(live), p) && overall == Overall(diffs)
    {
      diffs, overall := CalculateDiffs(Rules(live), p);
    }

    /** Step 1 of Apply: destroy every managed rule, and every other one too under prune. */
    method DestroyOld(p: Policy, desired: set<string>)
      requires Valid() && desired == NameSet(p.rules)
      modifies this
      ensures Valid() && Rules(live) == if p.prune then [] else Select(old(Rules(live)), desired, false)
    {
      hide Select, NameSet;
      var snapshot := live;
      ghost var kept: seq<Rule> := [];
      NothingKept(desired);
      for k := 0 to |snapshot|
        invariant Valid() && |live| == |kept| + |snapshot| - k
        invariant Rules(live)[..|kept|] == kept && live[|kept|..] == snapshot[k..]
        invariant kept == if p.prune then [] else Select(Rules(snapshot)[..k], desired, false)
      {
        SelectStep(Rules(snapshot), desired, k);
        HeadOfTail(live, snapshot, |kept|, k);
        if snapshot[k].rule.name in desired || p.prune {
          Destroy(snapshot[k].id, |kept|);
        } else {
          kept := kept + [snapshot[k].rule];
        }
      }
      assert Rules(snapshot)[..|snapshot|] == Rules(snapshot);
      assert Rules(live)[..|kept|] == Rules(live);
    }

    /** Step 2 of Apply: create the declared rules from the last to the first. */
    method CreateInReverse(rules: seq<Rule>)
      requires Valid()
      modifies this
      ensures Valid() && Rules(live) == rules + old(Rules(live))
    {
      var i := |rules|;
      while i > 0
        invariant 0 <= i <= |rules| && Valid()
        invariant Rules(live) == rules[i..] + old(Rules(live))
      {
        i := i - 1;
        Create(rules[i]);
      }
    }

    /** Apply: when something differs, destroy the old rules and re-create the declared ones. */
    method Apply(p: Policy) returns (diffs: seq<Diff>)
      requires Valid()
      modifies this
      ensures Valid() && diffs == Diffs(old(Rules(live)), p)
      ensures diffs == [] ==> live == old(live)
      ensures Rules(live) == AfterApply(old(Rules(live)), p)
    {
      var overall;
      diffs, overall := CalculateDiffs(Rules(live), p);
      if |diffs| != 0 {
        var desired := DesiredNames(p.rules);
        DestroyOld(p, desired);
        CreateInReverse(p.rules);
      }
    }
  }

  /** What a mutating Apply leaves is in sync: the declared list first, then the surviving unmanaged
      rules in their old order. */
  lemma {:induction false} DeclaredThenUnmanagedInSync(rest: seq<Rule>, p: Policy)
    requires forall k :: 0 <= k < |rest| ==> rest[k].name !in NameSet(p.rules)
    ensures Select(p.rules + rest, NameSet(p.rules), true) == p.rules
    ensures Select(p.rules + rest, NameSet(p.rules), false) == rest
  {
    var all := p.rules + rest;
    if rest != [] {
      DeclaredThenUnmanagedInSync(rest[..|rest| - 1], p);
      assert all[..|all| - 1] == p.rules + rest[..|rest| - 1];
    } else {
      assert all == p.rules;
      SelectAllDeclared(p.rules, NameSet(p.rules));
    }
  }

  lemma {:induction false} SelectAllDeclared(rules: seq<Rule>, names: set<string>)
    requires forall k :: 0 <= k < |rules| ==> rules[k].name in names
    ensures Select(rules, names, true) == rules && Select(rules, names, false) == []
  {
    if rules != [] {
      SelectAllDeclared(rules[..|rules| - 1], names);
    }
  }

  /** One Apply settles the project: whatever was live, the next Plan is empty; and a mutating Apply
      leaves the declared list in sync with every surviving unmanaged rule in its old place. */
  lemma OneApplyConverges(live: seq<Rule>, p: Policy)
    requires DistinctNames(p.rules)
    ensures Diffs(AfterApply(live, p), p) == []
    ensures Diffs(live, p) != [] ==> InSync(AfterApply(live, p), p)
    ensures !p.prune && Diffs(live, p) != [] ==>
              Select(AfterApply(live, p), NameSet(p.rules), false) == Select(live, NameSet(p.rules), false)
  {
    if Diffs(live, p) != [] {
      var rest := if p.prune then [] else Select(live, NameSet(p.rules), false);
      forall k | 0 <= k < |rest| ensures rest[k].name !in NameSet(p.rules) {
        SelectMembers(live, NameSet(p.rules), false, rest[k]);
      }
      DeclaredThenUnmanagedInSync(rest, p);
      InSyncHasNoDiffs(AfterApply(live, p), p);
    }
  }
}
