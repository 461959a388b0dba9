/** The protected-environment reconciler (internal/governance/protectedenvironments.go): wildcard
    expansion in arbitrary map order, plan and apply, against a GitLab project that stores what it
    is sent.  path.Match and the name resolver are parameters. */
module ProtectedEnvironments {
  import opened Prelude
  import opened SortedKeys

  /** A user, a group or a role level, by id or by a name to resolve. */
  datatype Principal = Principal(level: int, userId: int, username: string, groupId: int, groupPath: string)

  datatype Approval = Approval(who: Principal, required: Option<int>)

  datatype Rule = Rule(
    name: string,
    access: seq<Principal>,
    count: Option<int>,
    approvals: seq<Approval>,
    approvalUsers: seq<(int, string)>,
    approvalGroups: seq<(int, string)>)

  /** A protected environment as the server lists it: access entries are (level, user, group),
      approval rules (level, user, group, required approvals). */
  datatype LiveEnv = LiveEnv(count: int, access: seq<(int, int, int)>, approvals: seq<(int, int, int, int)>)

  type Envs = map<string, LiveEnv>

  /** Everything one project's reconciliation depends on besides its protections. */
  datatype Context = Context(
    rules: seq<Rule>,
    prune: bool,
    projectEnvs: set<string>,
    matches: (string, string) -> bool,   // path.Match(pattern, name), an ill-formed pattern matching nothing
    userId: string -> int,
    groupId: string -> int,
    defaults: LiveEnv)                   // what the server fills in for fields it is not sent

  // ---------------------------------------------------------------- protect options

  datatype AccessOption = AccessOption(level: Option<int>, user: Option<int>, group: Option<int>)

  datatype ApprovalOption = ApprovalOption(who: AccessOption, required: Option<int>)

  datatype Options = Options(count: Option<int>, access: seq<AccessOption>, approvals: seq<ApprovalOption>)

  function Positive(n: int): Option<int> {
    if n > 0 then Some(n) else None
  }

  function Resolved(id: int, name: string, resolve: string -> int): Option<int> {
    Positive(if id == 0 && name != "" then resolve(name) else id)
  }

  function ToAccess(ctx: Context, p: Principal): AccessOption {
    AccessOption(Positive(p.level), Resolved(p.userId, p.username, ctx.userId), Resolved(p.groupId, p.groupPath, ctx.groupId))
  }

  function UserApprovals(ctx: Context, users: seq<(int, string)>): seq<ApprovalOption> {
    if users == [] then []
    else
      var uid := Resolved(users[0].0, users[0].1, ctx.userId);
      (if uid.Some? then [ApprovalOption(AccessOption(None, uid, None), None)] else []) + UserApprovals(ctx, users[1..])
  }

  function GroupApprovals(ctx: Context, groups: seq<(int, string)>): seq<ApprovalOption> {
    if groups == [] then []
    else
      var gid := Resolved(groups[0].0, groups[0].1, ctx.groupId);
      (if gid.Some? then [ApprovalOption(AccessOption(None, None, gid), None)] else []) + GroupApprovals(ctx, groups[1..])
  }

  /** toProtectOptions; an empty list stands for a list that is not sent. */
  function ToOptions(ctx: Context, rule: Rule): Options {
    Options(rule.count,
            Map(p => ToAccess(ctx, p), rule.access),
            Map((a: Approval) => ApprovalOption(ToAccess(ctx, a.who), a.required), rule.approvals)
            + UserApprovals(ctx, rule.approvalUsers) + GroupApprovals(ctx, rule.approvalGroups))
  }

  // ---------------------------------------------------------------- comparing with the live state

  function Or(n: Option<int>, default: int): int {
    if n.Some? then n.value else default
  }

  function AccessTuple(a: AccessOption): (int, int, int) {
    (Or(a.level, 0), Or(a.user, 0), Or(a.group, 0))
  }

  /** An approval rule without a count asks for one approval. */
  function ApprovalTuple(a: ApprovalOption): (int, int, int, int) {
    (Or(a.who.level, 0), Or(a.who.user, 0), Or(a.who.group, 0), Or(a.required, 1))
  }

  ghost predicate AccessDiffers(live: seq<(int, int, int)>, desired: seq<AccessOption>) {
    desired != [] && multiset(live) != multiset(Map(AccessTuple, desired))
  }

  ghost predicate ApprovalsDiffer(live: seq<(int, int, int, int)>, desired: seq<ApprovalOption>) {
    desired != [] && multiset(live) != multiset(Map(ApprovalTuple, desired))
  }

  predicate CountDiffers(live: int, desired: Option<int>) {
    desired.Some? && desired.value != live
  }

  ghost predicate Differs(live: LiveEnv, o: Options) {
    CountDiffers(live.count, o.count) || AccessDiffers(live.access, o.access) || ApprovalsDiffer(live.approvals, o.approvals)
  }

  function Itself(s: string): string { s }

  lemma SortedStringsCompareMultisets(a: seq<string>, b: seq<string>)
    ensures SortBy(Itself, a) == SortBy(Itself, b) <==> multiset(a) == multiset(b)
  {
    SortedKeysCompareMultisets(Itself, a, b);
    assert Map(Itself, SortBy(Itself, a)) == SortBy(Itself, a);
    assert Map(Itself, SortBy(Itself, b)) == SortBy(Itself, b);
  }

  /** The loop that ends both comparisons. */
  method SameSortedKeys(liveKeys: seq<string>, desiredKeys: seq<string>) returns (same: bool)
    ensures same <==> multiset(liveKeys) == multiset(desiredKeys)
  {
    SortedStringsCompareMultisets(liveKeys, desiredKeys);
    var live := SortBy(Itself, liveKeys);
    var desired := SortBy(Itself, desiredKeys);
    if |live| != |desired| {
      return false;
    }
    for i := 0 to |live|
      invariant live[..i] == desired[..i]
    {
      if live[i] != desired[i] {
        return false;
      }
    }
    return true;
  }

  /** equalEnvAccess. */
  method EqualEnvAccess(live: seq<(int, int, int)>, desired: seq<AccessOption>) returns (equal: bool)
    ensures equal <==> multiset(live) == multiset(Map(AccessTuple, desired))
  {
    var tuples := Map(AccessTuple, desired);
    equal := SameSortedKeys(Map(Key3, live), Map(Key3, tuples));
    if equal {
      forall x, y | x in live && y in tuples && Key3(x) == Key3(y) ensures x == y {
        Key3Injective(x, y);
      }
      InjectiveImage(Key3, live, tuples);
    } else if multiset(live) == multiset(tuples) {
      ImageOfMultiset(Key3, live, tuples);
    }
  }

  /** equalEnvApprovalRules. */
  method EqualEnvApprovalRules(live: seq<(int, int, int, int)>, desired: seq<ApprovalOption>) returns (equal: bool)
    ensures equal <==> multiset(live) == multiset(Map(ApprovalTuple, desired))
  {
    var tuples := Map(ApprovalTuple, desired);
    equal := SameSortedKeys(Map(Key4, live), Map(Key4, tuples));
    if equal {
      forall x, y | x in live && y in tuples && Key4(x) == Key4(y) ensures x == y {
        Key4Injective(x, y);
      }
      InjectiveImage(Key4, live, tuples);
    } else if multiset(live) == multiset(tuples) {
      ImageOfMultiset(Key4, live, tuples);
    }
  }

  /** buildUpdateDiff: does the live protection differ from the rule in a field the rule sets? */
  method BuildUpdateDiff(live: LiveEnv, o: Options) returns (changed: bool)
    ensures changed <==> Differs(live, o)
  {
    changed := CountDiffers(live.count, o.count);
    if |o.access| > 0 {
      var equal := EqualEnvAccess(live.access, o.access);
      changed := changed || !equal;
    }
    if |o.approvals| > 0 {
      var equal := EqualEnvApprovalRules(live.approvals, o.approvals);
      changed := changed || !equal;
    }
  }

  /** The protection a protect request creates. */
  function Protected(ctx: Context, rule: Rule): LiveEnv {
    var o := ToOptions(ctx, rule);
    LiveEnv(Or(o.count, ctx.defaults.count),
            if o.access == [] then ctx.defaults.access else Map(AccessTuple, o.access),
            if o.approvals == [] then ctx.defaults.approvals else Map(ApprovalTuple, o.approvals))
  }

  ghost predicate Drifts(ctx: Context, live: LiveEnv, rule: Rule) {
    Differs(live, ToOptions(ctx, rule))
  }

  lemma ProtectedDoesNotDrift(ctx: Context, rule: Rule)
    ensures !Drifts(ctx, Protected(ctx, rule), rule)
  {
  }

  // ---------------------------------------------------------------- what a rule grants

  /** The number an ID or, without one, a name stands for; 0 for nobody. */
  ghost function Number(id: int, name: string, ids: string -> int): int {
    if id > 0 then id
    else if id == 0 && name != "" && ids(name) > 0 then ids(name)
    else 0
  }

  /** The entry for a principal: its role, its user and its group. */
  ghost function EntryFor(ctx: Context, p: Principal): (int, int, int) {
    (if p.level > 0 then p.level else 0,
     Number(p.userId, p.username, ctx.userId),
     Number(p.groupId, p.groupPath, ctx.groupId))
  }

  /** One access entry for each principal the rule lets deploy. */
  ghost function Deployers(ctx: Context, rule: Rule): seq<(int, int, int)> {
    seq(|rule.access|, i requires 0 <= i < |rule.access| => EntryFor(ctx, rule.access[i]))
  }

  /** The numbers of those who stand for somebody. */
  ghost function Known(names: seq<(int, string)>, ids: string -> int): seq<int> {
    if names == [] then []
    else
      var n := Number(names[0].0, names[0].1, ids);
      (if n == 0 then [] else [n]) + Known(names[1..], ids)
  }

  /** One approval rule for each approver of the rule with the approvals it asks for, one by default;
      then one for each approval user and each approval group that stands for somebody. */
  ghost function Approvers(ctx: Context, rule: Rule): seq<(int, int, int, int)> {
    var users, groups := Known(rule.approvalUsers, ctx.userId), Known(rule.approvalGroups, ctx.groupId);
    seq(|rule.approvals|, i requires 0 <= i < |rule.approvals| =>
      var (level, user, group) := EntryFor(ctx, rule.approvals[i].who);
      (level, user, group, if rule.approvals[i].required.Some? then rule.approvals[i].required.value else 1))
    + seq(|users|, k requires 0 <= k < |users| => (0, users[k], 0, 1))
    + seq(|groups|, k requires 0 <= k < |groups| => (0, 0, groups[k], 1))
  }

  /** The protection made for a rule: what the rule does not say is as the server has it. */
  ghost function MadeFor(ctx: Context, rule: Rule): LiveEnv {
    LiveEnv(if rule.count.Some? then rule.count.value else ctx.defaults.count,
            if rule.access == [] then ctx.defaults.access else Deployers(ctx, rule),
            if Approvers(ctx, rule) == [] then ctx.defaults.approvals else Approvers(ctx, rule))
  }

  /** A protection that does all the rule says, in whatever order the server lists it. */
  ghost predicate Fulfils(ctx: Context, rule: Rule, live: LiveEnv) {
    && (rule.count.Some? ==> live.count == rule.count.value)
    && (rule.access != [] ==> multiset(live.access) == multiset(Deployers(ctx, rule)))
    && (Approvers(ctx, rule) != [] ==> multiset(live.approvals) == multiset(Approvers(ctx, rule)))
  }

  lemma StandsFor(id: int, name: string, ids: string -> int)
    ensures Or(Resolved(id, name, ids), 0) == Number(id, name, ids) >= 0
    ensures Resolved(id, name, ids).Some? <==> Number(id, name, ids) != 0
  {
  }

  lemma AccessIsFor(ctx: Context, p: Principal)
    ensures AccessTuple(ToAccess(ctx, p)) == EntryFor(ctx, p)
  {
    StandsFor(p.userId, p.username, ctx.userId);
    StandsFor(p.groupId, p.groupPath, ctx.groupId);
  }

  lemma DeployersAreSent(ctx: Context, rule: Rule)
    ensures Map(AccessTuple, ToOptions(ctx, rule).access) == Deployers(ctx, rule)
  {
    hide EntryFor, AccessTuple, ToAccess;
    var access := Map(AccessTuple, ToOptions(ctx, rule).access);
    forall i | 0 <= i < |access| ensures access[i] == EntryFor(ctx, rule.access[i]) {
      AccessIsFor(ctx, rule.access[i]);
    }
  }

  lemma {:induction false} UsersAreSent(ctx: Context, names: seq<(int, string)>)
    ensures |UserApprovals(ctx, names)| == |Known(names, ctx.userId)|
    ensures forall k :: 0 <= k < |UserApprovals(ctx, names)| ==>
              ApprovalTuple(UserApprovals(ctx, names)[k]) == (0, Known(names, ctx.userId)[k], 0, 1)
  {
    if names != [] {
      hide Number, Resolved;
      UsersAreSent(ctx, names[1..]);
      StandsFor(names[0].0, names[0].1, ctx.userId);
    }
  }

  lemma {:induction false} GroupsAreSent(ctx: Context, names: seq<(int, string)>)
    ensures |GroupApprovals(ctx, names)| == |Known(names, ctx.groupId)|
    ensures forall k :: 0 <= k < |GroupApprovals(ctx, names)| ==>
              ApprovalTuple(GroupApprovals(ctx, names)[k]) == (0, 0, Known(names, ctx.groupId)[k], 1)
  {
    if names != [] {
      hide Number, Resolved;
      GroupsAreSent(ctx, names[1..]);
      StandsFor(names[0].0, names[0].1, ctx.groupId);
    }
  }

  lemma ApproversAreSent(ctx: Context, rule: Rule)
    ensures Map(ApprovalTuple, ToOptions(ctx, rule).approvals) == Approvers(ctx, rule)
  {
    hide EntryFor, ToAccess, Known, UserApprovals, GroupApprovals;
    UsersAreSent(ctx, rule.approvalUsers);
    GroupsAreSent(ctx, rule.approvalGroups);
    forall i | 0 <= i < |rule.approvals|
      ensures AccessTuple(ToAccess(ctx, rule.approvals[i].who)) == EntryFor(ctx, rule.approvals[i].who)
    {
      AccessIsFor(ctx, rule.approvals[i].who);
    }
  }

  /** A protect request makes the protection the rule asks for; what drifts does not fulfil the rule. */
  lemma ProtectedAsAsked(ctx: Context, rule: Rule, live: LiveEnv)
    ensures Protected(ctx, rule) == MadeFor(ctx, rule)
    ensures Drifts(ctx, live, rule) <==> !Fulfils(ctx, rule, live)
  {
    hide Deployers, Approvers, UserApprovals, GroupApprovals;
    DeployersAreSent(ctx, rule);
    ApproversAreSent(ctx, rule);
    var o := ToOptions(ctx, rule);
    assert |o.access| == |rule.access| && |o.approvals| == |Approvers(ctx, rule)|;
  }

  // ---------------------------------------------------------------- expanding the rules

  /** strings.ContainsAny(name, "*?["). */
  predicate IsWild(name: string) {
    exists i :: 0 <= i < |name| && name[i] in {'*', '?', '['}
  }

  predicate HasWildcards(rules: seq<Rule>) {
    exists i :: 0 <= i < |rules| && IsWild(rules[i].name)
  }

  /** The names a wildcard can expand to: the project's environments and the protected ones. */
  function Candidates(ctx: Context, envs: Envs): set<string> {
    set name | name in ctx.projectEnvs + envs.Keys && name != ""
  }

  /** A rule applies to a name: a wildcard to the candidates it matches, any other rule to its own. */
  predicate Covers(ctx: Context, candidates: set<string>, rule: Rule, name: string) {
    if IsWild(rule.name) then name in candidates && ctx.matches(rule.name, name) else rule.name == name
  }

  /** The position of the first rule, in declared order, that covers `name`. */
  function FirstCovering(ctx: Context, candidates: set<string>, rules: seq<Rule>, name: string): (r: Option<nat>)
    ensures r.Some? ==> r.value < |rules| && Covers(ctx, candidates, rules[r.value], name)
    ensures r.Some? ==> forall i :: 0 <= i < r.value ==> !Covers(ctx, candidates, rules[i], name)
    ensures r.None? ==> forall i :: 0 <= i < |rules| ==> !Covers(ctx, candidates, rules[i], name)
  {
    if rules == [] then None
    else
      var front := FirstCovering(ctx, candidates, rules[..|rules| - 1], name);
      assert forall i :: 0 <= i < |rules| - 1 ==> rules[..|rules| - 1][i] == rules[i];
      if front.Some? then front
      else if Covers(ctx, candidates, rules[|rules| - 1], name) then Some(|rules| - 1)
      else None
  }

  /** The rule a name is assigned to, made concrete. */
  function Assigned(ctx: Context, candidates: set<string>, rules: seq<Rule>, name: string): Option<Rule> {
    match FirstCovering(ctx, candidates, rules, name)
    case None => None
    case Some(i) => Some(rules[i].(name := name))
  }

  /** `expanded` assigns every name the first rule that covers it, once. */
  ghost predicate Assigns(ctx: Context, candidates: set<string>, rules: seq<Rule>, expanded: seq<Rule>) {
    && (forall a, b :: 0 <= a < b < |expanded| ==> expanded[a].name != expanded[b].name)
    && (forall k :: 0 <= k < |expanded| ==> Assigned(ctx, candidates, rules, expanded[k].name) == Some(expanded[k]))
    && (forall name :: Assigned(ctx, candidates, rules, name).Some? ==>
          exists k :: 0 <= k < |expanded| && expanded[k].name == name)
  }

  function NamesOf(rules: seq<Rule>): set<string> {
    set r | r in rules :: r.name
  }

  ghost predicate DistinctNames(rules: seq<Rule>) {
    forall a, b :: 0 <= a < b < |rules| ==> rules[a].name != rules[b].name
  }

  /** One rule's turn: its names that are not taken yet are appended, each once. */
  ghost predicate Extends(ctx: Context, candidates: set<string>, rule: Rule, before: seq<Rule>, after: seq<Rule>) {
    && before <= after && DistinctNames(after)
    && (forall k :: |before| <= k < |after| ==>
          after[k] == rule.(name := after[k].name) && Covers(ctx, candidates, rule, after[k].name))
    && (forall name :: Covers(ctx, candidates, rule, name) ==> name in NamesOf(after))
  }

  lemma CoveringAtEnd(ctx: Context, candidates: set<string>, rules: seq<Rule>, name: string)
    requires rules != []
    ensures var n := |rules| - 1;
            var front := Assigned(ctx, candidates, rules[..n], name);
            Assigned(ctx, candidates, rules, name) ==
              if front.Some? then front
              else if Covers(ctx, candidates, rules[n], name) then Some(rules[n].(name := name)) else None
  {
  }

  lemma AssignsOneMore(ctx: Context, candidates: set<string>, rules: seq<Rule>, before: seq<Rule>, after: seq<Rule>)
    requires rules != [] && Assigns(ctx, candidates, rules[..|rules| - 1], before)
    requires Extends(ctx, candidates, rules[|rules| - 1], before, after)
    ensures Assigns(ctx, candidates, rules, after)
  {
    var n := |rules| - 1;
    forall k | 0 <= k < |after| ensures Assigned(ctx, candidates, rules, after[k].name) == Some(after[k]) {
      CoveringAtEnd(ctx, candidates, rules, after[k].name);
      if k < |before| {
        assert after[k] == before[k];
      } else {
        assert forall l :: 0 <= l < |before| ==> before[l] == after[l] && before[l].name != after[k].name;
      }
    }
    forall name | Assigned(ctx, candidates, rules, name).Some?
      ensures exists k :: 0 <= k < |after| && after[k].name == name
    {
      CoveringAtEnd(ctx, candidates, rules, name);
      if Assigned(ctx, candidates, rules[..n], name).Some? {
        var l :| 0 <= l < |before| && before[l].name == name;
        assert after[l] == before[l];
      } else {
        assert name in NamesOf(after);
      }
    }
  }

  /** The inner loop over the candidate map, in whatever order the map iteration gives. */
  method ExpandWildcard(ctx: Context, candidates: set<string>, rule: Rule, before: seq<Rule>, seen: set<string>)
    returns (expanded: seq<Rule>, seen': set<string>)
    requires IsWild(rule.name) && DistinctNames(before) && seen == NamesOf(before)
    ensures Extends(ctx, candidates, rule, before, expanded) && seen' == NamesOf(expanded)
  {
    expanded, seen' := before, seen;
    var remaining := candidates;
    while remaining != {}
      invariant remaining <= candidates && before <= expanded && DistinctNames(expanded) && seen' == NamesOf(expanded)
      invariant forall k :: |before| <= k < |expanded| ==>
                  expanded[k] == rule.(name := expanded[k].name) && Covers(ctx, candidates, rule, expanded[k].name)
      invariant forall name :: name in candidates - remaining && ctx.matches(rule.name, name) ==> name in seen'
      decreases |remaining|
    {
      var name :| name in remaining;
      remaining := remaining - {name};
      if ctx.matches(rule.name, name) && name !in seen' {
        NamesOfAppended(expanded, rule.(name := name));
        seen' := seen' + {name};
        expanded := expanded + [rule.(name := name)];
      }
    }
  }

  lemma NamesOfAppended(rules: seq<Rule>, r: Rule)
    ensures NamesOf(rules + [r]) == NamesOf(rules) + {r.name}
    ensures DistinctNames(rules) && r.name !in NamesOf(rules) ==> DistinctNames(rules + [r])
  {
    var all := rules + [r];
    assert forall x :: x in all <==> x in rules || x == r;
    assert forall k :: 0 <= k < |rules| ==> rules[k] in rules;
  }

  /** expandRules: without wildcards the declared list itself; otherwise every name gets the first
      rule in declared order that covers it, whatever the map iteration order. */
  method ExpandRules(ctx: Context, envs: Envs) returns (expanded: seq<Rule>)
    ensures !HasWildcards(ctx.rules) ==> expanded == ctx.rules
    ensures HasWildcards(ctx.rules) || DistinctNames(ctx.rules) ==> Assigns(ctx, Candidates(ctx, envs), ctx.rules, expanded)
  {
    if !HasWildcards(ctx.rules) {
      if DistinctNames(ctx.rules) {
        DistinctPlainRulesAssign(ctx, Candidates(ctx, envs), ctx.rules);
      }
      return ctx.rules;
    }
    var candidates := Candidates(ctx, envs);
    var seen: set<string> := {};
    expanded := [];
    for k := 0 to |ctx.rules|
      invariant Assigns(ctx, candidates, ctx.rules[..k], expanded) && seen == NamesOf(expanded)
    {
      var rule := ctx.rules[k];
      ghost var before := expanded;
      if IsWild(rule.name) {
        expanded, seen := ExpandWildcard(ctx, candidates, rule, expanded, seen);
      } else {
        if rule.name !in seen {
          NamesOfAppended(expanded, rule);
          seen := seen + {rule.name};
          expanded := expanded + [rule];
        }
        assert rule == rule.(name := rule.name);
      }
      assert ctx.rules[..k + 1][..k] == ctx.rules[..k];
      AssignsOneMore(ctx, candidates, ctx.rules[..k + 1], before, expanded);
    }
    assert ctx.rules[..|ctx.rules|] == ctx.rules;
  }

  lemma {:induction false} DistinctPlainRulesAssign(ctx: Context, candidates: set<string>, rules: seq<Rule>)
    requires DistinctNames(rules) && !HasWildcards(rules)
    ensures Assigns(ctx, candidates, rules, rules)
  {
    if rules != [] {
      var n := |rules| - 1;
      var front := rules[..n];
      assert forall i :: 0 <= i < n ==> front[i] == rules[i];
      DistinctPlainRulesAssign(ctx, candidates, front);
      assert rules[n] == rules[n].(name := rules[n].name) && rules[n] in rules;
      AssignsOneMore(ctx, candidates, rules, front, rules);
    }
  }

  // ---------------------------------------------------------------- plan and apply

  /** isManaged, given the names the expansion produced. */
  predicate IsManaged(ctx: Context, expandedNames: set<string>, name: string) {
    name in expandedNames || NamedByRules(ctx, name)
  }

  predicate NamedByRules(ctx: Context, name: string) {
    exists i :: 0 <= i < |ctx.rules| &&
      (ctx.rules[i].name == name || (IsWild(ctx.rules[i].name) && ctx.matches(ctx.rules[i].name, name)))
  }

  datatype Diff = Create(name: string) | Update(name: string) | Delete(name: string)

  /** The diff an expanded rule calls for on the listed protections. */
  ghost function RuleDiff(ctx: Context, envs: Envs, rule: Rule): seq<Diff> {
    if rule.name !in envs then [Create(rule.name)]
    else if Drifts(ctx, envs[rule.name], rule) then [Update(rule.name)] else []
  }

  ghost function RuleDiffs(ctx: Context, envs: Envs, expanded: seq<Rule>): seq<Diff> {
    if expanded == [] then []
    else RuleDiffs(ctx, envs, expanded[..|expanded| - 1]) + RuleDiff(ctx, envs, expanded[|expanded| - 1])
  }

  /** The protections pruning removes. */
  function Unmanaged(ctx: Context, envs: Envs, expandedNames: set<string>): set<string> {
    if ctx.prune then set name | name in envs && !IsManaged(ctx, expandedNames, name) else {}
  }

  /** Deletions of exactly these names, in some order. */
  ghost predicate Deletes(diffs: seq<Diff>, names: set<string>) {
    && (forall k :: 0 <= k < |diffs| ==> diffs[k].Delete? && diffs[k].name in names)
    && (forall name :: name in names ==> Delete(name) in diffs)
  }

  lemma PrefixStep(rules: seq<Rule>, k: nat)
    requires k < |rules|
    ensures NamesOf(rules[..k + 1]) == NamesOf(rules[..k]) + {rules[k].name}
    ensures rules[..k + 1][..k] == rules[..k] && rules[..k + 1][k] == rules[k]
  {
    assert rules[..k + 1] == rules[..k] + [rules[k]];
    NamesOfAppended(rules[..k], rules[k]);
  }

  /** Plan's loop over the expanded rules. */
  method PlanRules(ctx: Context, envs: Envs, rules: seq<Rule>) returns (diffs: seq<Diff>, managedNames: set<string>)
    ensures diffs == RuleDiffs(ctx, envs, rules) && managedNames == NamesOf(rules)
  {
    diffs, managedNames := [], {};
    for k := 0 to |rules|
      invariant diffs == RuleDiffs(ctx, envs, rules[..k]) && managedNames == NamesOf(rules[..k])
    {
      PrefixStep(rules, k);
      managedNames := managedNames + {rules[k].name};
      if rules[k].name !in envs {
        diffs := diffs + [Create(rules[k].name)];
      } else {
        var changed := BuildUpdateDiff(envs[rules[k].name], ToOptions(ctx, rules[k]));
        if changed {
          diffs := diffs + [Update(rules[k].name)];
        }
      }
    }
    assert rules[..|rules|] == rules;
  }

  /** Plan's pruning loop over the listed protections. */
  method PlanPrune(ctx: Context, envs: Envs, managedNames: set<string>) returns (diffs: seq<Diff>)
    requires ctx.prune
    ensures Deletes(diffs, Unmanaged(ctx, envs, managedNames))
  {
    var unmanaged := Unmanaged(ctx, envs, managedNames);
    diffs := [];
    var remaining := envs.Keys;
    while remaining != {}
      invariant remaining <= envs.Keys
      invariant Deletes(diffs, unmanaged - remaining)
      decreases |remaining|
    {
      var name :| name in remaining;
      remaining := remaining - {name};
      if !IsManaged(ctx, managedNames, name) {
        diffs := diffs + [Delete(name)];
      }
    }
  }

  lemma NothingToDelete(diffs: seq<Diff>, names: set<string>)
    requires Deletes(diffs, names)
    ensures diffs == [] <==> names == {}
  {
    if names != {} {
      var name :| name in names;
      assert Delete(name) in diffs;
    }
    if diffs != [] {
      assert diffs[0].name in names;
    }
  }

  /** Plan.  `expanded` is the expansion it worked on. */
  method Plan(ctx: Context, envs: Envs) returns (diffs: seq<Diff>, ghost expanded: seq<Rule>)
    ensures !HasWildcards(ctx.rules) ==> expanded == ctx.rules
    ensures HasWildcards(ctx.rules) || DistinctNames(ctx.rules) ==> Assigns(ctx, Candidates(ctx, envs), ctx.rules, expanded)
    ensures RuleDiffs(ctx, envs, expanded) <= diffs
    ensures Deletes(diffs[|RuleDiffs(ctx, envs, expanded)|..], Unmanaged(ctx, envs, NamesOf(expanded)))
    ensures HasWildcards(ctx.rules) || DistinctNames(ctx.rules) ==> (diffs == [] <==> InSync(ctx, envs))
    ensures HasWildcards(ctx.rules) || DistinctNames(ctx.rules) ==> PlansRules(ctx, envs, diffs)
  {
    var rules := ExpandRules(ctx, envs);
    expanded := rules;
    if HasWildcards(ctx.rules) || DistinctNames(ctx.rules) {
      PlanIsEmptyExactlyInSync(ctx, envs, expanded);
    }
    var managedNames;
    diffs, managedNames := PlanRules(ctx, envs, rules);
    ghost var ruleDiffs := diffs;
    var deletions := [];
    if ctx.prune {
      deletions := PlanPrune(ctx, envs, managedNames);
      NothingToDelete(deletions, Unmanaged(ctx, envs, managedNames));
      assert (diffs + deletions)[|diffs|..] == deletions;
      diffs := diffs + deletions;
    }
    if HasWildcards(ctx.rules) || DistinctNames(ctx.rules) {
      assert diffs == ruleDiffs + deletions;
      PlanFollowsRules(ctx, envs, rules, deletions);
    }
  }

  /** The protections after the rules' turn: decided on the listing taken at the start. */
  ghost function AfterRules(ctx: Context, listing: Envs, expanded: seq<Rule>): Envs {
    if expanded == [] then listing
    else
      var rule := expanded[|expanded| - 1];
      var before := AfterRules(ctx, listing, expanded[..|expanded| - 1]);
      if rule.name in listing && !Drifts(ctx, listing[rule.name], rule) then before
      else before[rule.name := Protected(ctx, rule)]
  }

  ghost function AfterApply(ctx: Context, listing: Envs, expanded: seq<Rule>): Envs {
    AfterRules(ctx, listing, expanded) - Unmanaged(ctx, listing, NamesOf(expanded))
  }

  class Project {
    var envs: Envs

    constructor (envs: Envs)
      ensures this.envs == envs
    {
      this.envs := envs;
    }

    method Protect(name: string, live: LiveEnv)
      modifies this
      ensures envs == old(envs)[name := live]
    {
      envs := envs[name := live];
    }

    method Unprotect(name: string)
      modifies this
      ensures envs == old(envs) - {name}
    {
      envs := envs - {name};
    }
  }

  /** The body of Apply's loop: create, leave alone, or unprotect and protect again. */
  method ApplyRule(ctx: Context, project: Project, listing: Envs, rule: Rule)
    modifies project
    ensures project.envs ==
              if rule.name in listing && !Drifts(ctx, listing[rule.name], rule) then old(project.envs)
              else old(project.envs)[rule.name := Protected(ctx, rule)]
  {
    if rule.name !in listing {
      project.Protect(rule.name, Protected(ctx, rule));
    } else {
      var changed := BuildUpdateDiff(listing[rule.name], ToOptions(ctx, rule));
      if changed {
        project.Unprotect(rule.name);
        project.Protect(rule.name, Protected(ctx, rule));
      }
    }
  }

  /** Apply's loop over the expanded rules. */
  method ApplyRules(ctx: Context, project: Project, listing: Envs, rules: seq<Rule>) returns (managedNames: set<string>)
    requires project.envs == listing
    modifies project
    ensures project.envs == AfterRules(ctx, listing, rules) && managedNames == NamesOf(rules)
  {
    managedNames := {};
    for k := 0 to |rules|
      invariant project.envs == AfterRules(ctx, listing, rules[..k]) && managedNames == NamesOf(rules[..k])
    {
      PrefixStep(rules, k);
      managedNames := managedNames + {rules[k].name};
      ApplyRule(ctx, project, listing, rules[k]);
    }
    assert rules[..|rules|] == rules;
  }

  /** Apply's pruning loop over the listing taken at its start. */
  method ApplyPrune(ctx: Context, project: Project, listing: Envs, managedNames: set<string>)
    requires ctx.prune
    modifies project
    ensures project.envs == old(project.envs) - Unmanaged(ctx, listing, managedNames)
  {
    ghost var unmanaged := Unmanaged(ctx, listing, managedNames);
    var remaining := listing.Keys;
    while remaining != {}
      invariant remaining <= listing.Keys
      invariant project.envs == old(project.envs) - (unmanaged - remaining)
      decreases |remaining|
    {
      var name :| name in remaining;
      if !IsManaged(ctx, managedNames, name) {
        project.Unprotect(name);
      }
      remaining := remaining - {name};
    }
    assert unmanaged - {} == unmanaged;
  }

  /** Apply.  `expanded` is the expansion it worked on. */
  method Apply(ctx: Context, project: Project) returns (ghost expanded: seq<Rule>)
    modifies project
    ensures !HasWildcards(ctx.rules) ==> expanded == ctx.rules
    ensures HasWildcards(ctx.rules) || DistinctNames(ctx.rules) ==>
              Assigns(ctx, Candidates(ctx, old(project.envs)), ctx.rules, expanded)
    ensures project.envs == AfterApply(ctx, old(project.envs), expanded)
    ensures HasWildcards(ctx.rules) || DistinctNames(ctx.rules) ==> Applied(ctx, old(project.envs), project.envs)
    ensures HasWildcards(ctx.rules) || DistinctNames(ctx.rules) ==> FollowsRules(ctx, old(project.envs), project.envs)
  {
    var listing := project.envs;
    var rules := ExpandRules(ctx, listing);
    expanded := rules;
    if HasWildcards(ctx.rules) || DistinctNames(ctx.rules) {
      EveryOrderApplies(ctx, listing, expanded);
      AppliedFollowsRules(ctx, listing, AfterApply(ctx, listing, expanded));
    }
    var managedNames := ApplyRules(ctx, project, listing, rules);
    if ctx.prune {
      ApplyPrune(ctx, project, listing, managedNames);
    }
  }

  // ---------------------------------------------------------------- what one Apply does

  ghost function Lookup(envs: Envs, name: string): Option<LiveEnv> {
    if name in envs then Some(envs[name]) else None
  }

  /** What one Apply leaves under a name, told without reference to any expansion order. */
  ghost function Outcome(ctx: Context, envs: Envs, name: string): Option<LiveEnv> {
    match Assigned(ctx, Candidates(ctx, envs), ctx.rules, name)
    case Some(rule) =>
      if name in envs && !Drifts(ctx, envs[name], rule) then Some(envs[name]) else Some(Protected(ctx, rule))
    case None =>
      if ctx.prune && !NamedByRules(ctx, name) then None else Lookup(envs, name)
  }

  lemma {:induction false} AfterRulesElsewhere(ctx: Context, listing: Envs, expanded: seq<Rule>, name: string)
    requires forall k :: 0 <= k < |expanded| ==> expanded[k].name != name
    ensures Lookup(AfterRules(ctx, listing, expanded), name) == Lookup(listing, name)
  {
    if expanded != [] {
      AfterRulesElsewhere(ctx, listing, expanded[..|expanded| - 1], name);
    }
  }

  lemma {:induction false} AfterRulesAt(ctx: Context, listing: Envs, expanded: seq<Rule>, k: nat)
    requires DistinctNames(expanded) && k < |expanded|
    ensures var r := expanded[k];
            Lookup(AfterRules(ctx, listing, expanded), r.name) ==
              if r.name in listing && !Drifts(ctx, listing[r.name], r) then Some(listing[r.name]) else Some(Protected(ctx, r))
  {
    var n := |expanded| - 1;
    if k < n {
      AfterRulesAt(ctx, listing, expanded[..n], k);
      assert expanded[..n][k] == expanded[k] && expanded[k].name != expanded[n].name;
    } else {
      AfterRulesElsewhere(ctx, listing, expanded[..n], expanded[n].name);
    }
  }

  lemma AssignedOutcome(ctx: Context, envs: Envs, expanded: seq<Rule>, k: nat)
    requires DistinctNames(expanded) && k < |expanded|
    requires Assigned(ctx, Candidates(ctx, envs), ctx.rules, expanded[k].name) == Some(expanded[k])
    ensures Lookup(AfterApply(ctx, envs, expanded), expanded[k].name) == Outcome(ctx, envs, expanded[k].name)
  {
    AfterRulesAt(ctx, envs, expanded, k);
    assert expanded[k] in expanded;
    assert expanded[k].name !in Unmanaged(ctx, envs, NamesOf(expanded));
  }

  lemma UnassignedOutcome(ctx: Context, envs: Envs, expanded: seq<Rule>, name: string)
    requires forall k :: 0 <= k < |expanded| ==> expanded[k].name != name
    requires Assigned(ctx, Candidates(ctx, envs), ctx.rules, name).None?
    ensures Lookup(AfterApply(ctx, envs, expanded), name) == Outcome(ctx, envs, name)
  {
    AfterRulesElsewhere(ctx, envs, expanded, name);
    assert name !in NamesOf(expanded);
  }

  /** Every expansion order leaves the same protections. */
  lemma ApplyIsOrderIndependent(ctx: Context, envs: Envs, expanded: seq<Rule>, name: string)
    requires Assigns(ctx, Candidates(ctx, envs), ctx.rules, expanded)
    ensures Lookup(AfterApply(ctx, envs, expanded), name) == Outcome(ctx, envs, name)
  {
    var rule := Assigned(ctx, Candidates(ctx, envs), ctx.rules, name);
    if rule.Some? {
      var k :| 0 <= k < |expanded| && expanded[k].name == name;
      AssignedOutcome(ctx, envs, expanded, k);
    } else {
      forall k | 0 <= k < |expanded| ensures expanded[k].name != name {
        assert Assigned(ctx, Candidates(ctx, envs), ctx.rules, expanded[k].name) == Some(expanded[k]);
      }
      UnassignedOutcome(ctx, envs, expanded, name);
    }
  }

  /** `after` is what one Apply leaves of `before`, whatever its expansion order. */
  ghost predicate Applied(ctx: Context, before: Envs, after: Envs) {
    forall name :: Lookup(after, name) == Outcome(ctx, before, name)
  }

  lemma EveryOrderApplies(ctx: Context, envs: Envs, expanded: seq<Rule>)
    requires Assigns(ctx, Candidates(ctx, envs), ctx.rules, expanded)
    ensures Applied(ctx, envs, AfterApply(ctx, envs, expanded))
  {
    forall name ensures Lookup(AfterApply(ctx, envs, expanded), name) == Outcome(ctx, envs, name) {
      ApplyIsOrderIndependent(ctx, envs, expanded, name);
    }
  }

  // ---------------------------------------------------------------- what the rules say

  /** The rule's name is a pattern. */
  predicate IsPattern(rule: Rule) {
    '*' in rule.name || '?' in rule.name || '[' in rule.name
  }

  /** The rule is for this environment: for its name, or for a pattern that matches one that exists. */
  ghost predicate IsFor(ctx: Context, envs: Envs, rule: Rule, name: string) {
    if IsPattern(rule) then name != "" && (name in ctx.projectEnvs || name in envs) && ctx.matches(rule.name, name)
    else rule.name == name
  }

  /** Rule i is the first in declared order for this environment. */
  ghost predicate Governs(ctx: Context, envs: Envs, i: int, name: string) {
    && 0 <= i < |ctx.rules| && IsFor(ctx, envs, ctx.rules[i], name)
    && forall k :: 0 <= k < i ==> !IsFor(ctx, envs, ctx.rules[k], name)
  }

  /** No rule has the name or matches it. */
  ghost predicate Unclaimed(ctx: Context, name: string) {
    forall i :: 0 <= i < |ctx.rules| ==>
      ctx.rules[i].name != name && !(IsPattern(ctx.rules[i]) && ctx.matches(ctx.rules[i].name, name))
  }

  /** What an Apply does, name by name: a governed environment that fulfils its rule is left alone, any
      other is protected as the rule says; without a rule it stays, unless it is pruned. */
  ghost predicate FollowsRules(ctx: Context, before: Envs, after: Envs) {
    && (forall name, i :: Governs(ctx, before, i, name) ==>
          if name in before && Fulfils(ctx, ctx.rules[i], before[name]) then name in after && after[name] == before[name]
          else name in after && after[name] == MadeFor(ctx, ctx.rules[i]))
    && (forall name :: (forall i :: !Governs(ctx, before, i, name)) ==>
          Lookup(after, name) == if ctx.prune && Unclaimed(ctx, name) then None else Lookup(before, name))
  }

  /** What a plan says, name by name. */
  ghost predicate PlansRules(ctx: Context, envs: Envs, diffs: seq<Diff>) {
    && (forall name :: Create(name) in diffs <==> name !in envs && exists i :: Governs(ctx, envs, i, name))
    && (forall name :: Update(name) in diffs <==>
          name in envs && exists i :: Governs(ctx, envs, i, name) && !Fulfils(ctx, ctx.rules[i], envs[name]))
    && (forall name :: Delete(name) in diffs <==> name in envs && ctx.prune && Unclaimed(ctx, name))
  }

  lemma PatternIsWild(rule: Rule)
    ensures IsPattern(rule) <==> IsWild(rule.name)
  {
    if IsWild(rule.name) {
      var i :| 0 <= i < |rule.name| && rule.name[i] in {'*', '?', '['};
      assert rule.name[i] in rule.name;
    }
    if IsPattern(rule) {
      var c :| c in rule.name && c in {'*', '?', '['};
      var i :| 0 <= i < |rule.name| && rule.name[i] == c;
    }
  }

  lemma CoveringIsFor(ctx: Context, envs: Envs, rule: Rule, name: string)
    ensures Covers(ctx, Candidates(ctx, envs), rule, name) <==> IsFor(ctx, envs, rule, name)
  {
    hide IsPattern, IsWild;
    PatternIsWild(rule);
  }

  /** The rule assigned to a name is the one that governs it. */
  lemma AssignedGoverns(ctx: Context, envs: Envs, name: string)
    ensures var a := Assigned(ctx, Candidates(ctx, envs), ctx.rules, name);
            && (a.None? <==> forall i :: !Governs(ctx, envs, i, name))
            && forall i :: Governs(ctx, envs, i, name) ==> a == Some(ctx.rules[i].(name := name))
  {
    hide Covers, IsFor, Candidates, FirstCovering;
    var candidates := Candidates(ctx, envs);
    forall i | 0 <= i < |ctx.rules|
      ensures Covers(ctx, candidates, ctx.rules[i], name) <==> IsFor(ctx, envs, ctx.rules[i], name)
    {
      CoveringIsFor(ctx, envs, ctx.rules[i], name);
    }
    var first := FirstCovering(ctx, candidates, ctx.rules, name);
    FirstCoveringIsFirst(ctx, candidates, ctx.rules, name);
    if first.Some? {
      assert Governs(ctx, envs, first.value, name);
      forall i | Governs(ctx, envs, i, name) ensures i == first.value {
        assert !(i < first.value) && !(first.value < i);
      }
    }
  }

  lemma FirstCoveringIsFirst(ctx: Context, candidates: set<string>, rules: seq<Rule>, name: string)
    ensures var r := FirstCovering(ctx, candidates, rules, name);
            && (r.Some? ==> r.value < |rules| && Covers(ctx, candidates, rules[r.value], name)
                            && forall i :: 0 <= i < r.value ==> !Covers(ctx, candidates, rules[i], name))
            && (r.None? ==> forall i :: 0 <= i < |rules| ==> !Covers(ctx, candidates, rules[i], name))
  {
    hide Covers;
  }

  lemma UnclaimedIsUnnamed(ctx: Context, name: string)
    ensures Unclaimed(ctx, name) <==> !NamedByRules(ctx, name)
  {
    hide IsPattern, IsWild;
    forall i | 0 <= i < |ctx.rules| ensures IsPattern(ctx.rules[i]) <==> IsWild(ctx.rules[i].name) {
      PatternIsWild(ctx.rules[i]);
    }
  }

  /** A rule grants the same under any name. */
  lemma NameAside(ctx: Context, rule: Rule, name: string, live: LiveEnv)
    ensures Fulfils(ctx, rule.(name := name), live) <==> Fulfils(ctx, rule, live)
    ensures MadeFor(ctx, rule.(name := name)) == MadeFor(ctx, rule)
  {
    hide EntryFor, Known;
    assert Deployers(ctx, rule.(name := name)) == Deployers(ctx, rule);
    assert Approvers(ctx, rule.(name := name)) == Approvers(ctx, rule);
  }

  lemma AppliedFollowsRules(ctx: Context, before: Envs, after: Envs)
    requires Applied(ctx, before, after)
    ensures FollowsRules(ctx, before, after)
  {
    hide Fulfils, MadeFor, Governs, Unclaimed, Assigned, Candidates, Drifts, Protected, NamedByRules;
    forall name, i | Governs(ctx, before, i, name) && 0 <= i < |ctx.rules|
      ensures if name in before && Fulfils(ctx, ctx.rules[i], before[name]) then name in after && after[name] == before[name]
              else name in after && after[name] == MadeFor(ctx, ctx.rules[i])
    {
      var rule := ctx.rules[i].(name := name);
      var live := if name in before then before[name] else ctx.defaults;
      AssignedGoverns(ctx, before, name);
      assert Lookup(after, name) == Outcome(ctx, before, name);
      ProtectedAsAsked(ctx, rule, live);
      NameAside(ctx, ctx.rules[i], name, live);
    }
    forall name | forall i :: !Governs(ctx, before, i, name)
      ensures Lookup(after, name) == if ctx.prune && Unclaimed(ctx, name) then None else Lookup(before, name)
    {
      AssignedGoverns(ctx, before, name);
      UnclaimedIsUnnamed(ctx, name);
      assert Lookup(after, name) == Outcome(ctx, before, name);
    }
    assert forall name, i :: Governs(ctx, before, i, name) ==> 0 <= i < |ctx.rules| by { GovernsIsRule(ctx, before); }
  }

  lemma {:induction false} RuleDiffsMembers(ctx: Context, envs: Envs, expanded: seq<Rule>, d: Diff)
    ensures d in RuleDiffs(ctx, envs, expanded) <==> exists k :: 0 <= k < |expanded| && d in RuleDiff(ctx, envs, expanded[k])
  {
    if expanded != [] {
      hide RuleDiff;
      var n := |expanded| - 1;
      RuleDiffsMembers(ctx, envs, expanded[..n], d);
      if k :| 0 <= k < n && d in RuleDiff(ctx, envs, expanded[..n][k]) {
        assert expanded[k] == expanded[..n][k];
      }
      if k :| 0 <= k < n && d in RuleDiff(ctx, envs, expanded[k]) {
        assert expanded[k] == expanded[..n][k];
      }
    }
  }

  /** Planned changes come from the rule that governs the name. */
  lemma PlannedForRule(ctx: Context, envs: Envs, expanded: seq<Rule>, d: Diff)
    requires Assigns(ctx, Candidates(ctx, envs), ctx.rules, expanded)
    ensures d in RuleDiffs(ctx, envs, expanded) <==>
            exists i :: Governs(ctx, envs, i, d.name) && d in RuleDiff(ctx, envs, ctx.rules[i].(name := d.name))
  {
    hide RuleDiff, RuleDiffs, Governs, Assigned, Candidates;
    RuleDiffsMembers(ctx, envs, expanded, d);
    AssignedGoverns(ctx, envs, d.name);
    GovernsIsRule(ctx, envs);
    if k :| 0 <= k < |expanded| && d in RuleDiff(ctx, envs, expanded[k]) {
      assert expanded[k].name == d.name by { RuleDiffName(ctx, envs, expanded[k]); }
      var i :| Governs(ctx, envs, i, d.name);
    }
    if i :| Governs(ctx, envs, i, d.name) && d in RuleDiff(ctx, envs, ctx.rules[i].(name := d.name)) {
      var k :| 0 <= k < |expanded| && expanded[k].name == d.name;
    }
  }

  lemma RuleDiffName(ctx: Context, envs: Envs, rule: Rule)
    ensures forall d :: d in RuleDiff(ctx, envs, rule) ==> d.name == rule.name
  {
  }

  /** The diff of one rule, told by what the rule asks for. */
  lemma RuleDiffMeans(ctx: Context, envs: Envs, rule: Rule, name: string)
    ensures var diff := RuleDiff(ctx, envs, rule.(name := name));
            && (Create(name) in diff <==> name !in envs)
            && (Update(name) in diff <==> name in envs && !Fulfils(ctx, rule, envs[name]))
            && Delete(name) !in diff
  {
    hide Fulfils, Drifts;
    var live := if name in envs then envs[name] else ctx.defaults;
    ProtectedAsAsked(ctx, rule.(name := name), live);
    NameAside(ctx, rule, name, live);
  }

  lemma PlanFollowsRules(ctx: Context, envs: Envs, expanded: seq<Rule>, deletions: seq<Diff>)
    requires Assigns(ctx, Candidates(ctx, envs), ctx.rules, expanded)
    requires if ctx.prune then Deletes(deletions, Unmanaged(ctx, envs, NamesOf(expanded))) else deletions == []
    ensures PlansRules(ctx, envs, RuleDiffs(ctx, envs, expanded) + deletions)
  {
    hide RuleDiff, RuleDiffs, Governs, Assigned, Candidates, Fulfils, Unclaimed, NamedByRules, NamesOf;
    var diffs := RuleDiffs(ctx, envs, expanded) + deletions;
    GovernsIsRule(ctx, envs);
    forall name
      ensures Create(name) in diffs <==> name !in envs && exists i :: Governs(ctx, envs, i, name)
      ensures Update(name) in diffs <==>
                name in envs && exists i :: Governs(ctx, envs, i, name) && !Fulfils(ctx, ctx.rules[i], envs[name])
    {
      PlannedForRule(ctx, envs, expanded, Create(name));
      PlannedForRule(ctx, envs, expanded, Update(name));
      forall i | Governs(ctx, envs, i, name)
        ensures Create(name) in RuleDiff(ctx, envs, ctx.rules[i].(name := name)) <==> name !in envs
        ensures Update(name) in RuleDiff(ctx, envs, ctx.rules[i].(name := name)) <==>
                  name in envs && !Fulfils(ctx, ctx.rules[i], envs[name])
      {
        RuleDiffMeans(ctx, envs, ctx.rules[i], name);
      }
    }
    forall name
      ensures Delete(name) in diffs <==> name in envs && ctx.prune && Unclaimed(ctx, name)
    {
      GovernedIsClaimed(ctx, envs, name);
      PlannedForRule(ctx, envs, expanded, Delete(name));
      forall i | Governs(ctx, envs, i, name) ensures Delete(name) !in RuleDiff(ctx, envs, ctx.rules[i].(name := name)) {
        RuleDiffMeans(ctx, envs, ctx.rules[i], name);
      }
      UnclaimedIsUnnamed(ctx, name);
      NamedByExpansion(ctx, envs, expanded, name);
    }
  }

  lemma NamedByExpansion(ctx: Context, envs: Envs, expanded: seq<Rule>, name: string)
    requires Assigns(ctx, Candidates(ctx, envs), ctx.rules, expanded)
    ensures name in NamesOf(expanded) <==> exists i :: Governs(ctx, envs, i, name)
  {
    hide Governs, Assigned, Candidates;
    AssignedGoverns(ctx, envs, name);
    if name in NamesOf(expanded) {
      var k :| 0 <= k < |expanded| && expanded[k].name == name;
    }
    if i :| Governs(ctx, envs, i, name) {
      var k :| 0 <= k < |expanded| && expanded[k].name == name;
      assert expanded[k] in expanded;
    }
  }

  /** Being in sync, told by the rules. */
  lemma InSyncMeans(ctx: Context, envs: Envs)
    ensures InSync(ctx, envs) <==>
              && (forall name, i :: Governs(ctx, envs, i, name) ==> name in envs && Fulfils(ctx, ctx.rules[i], envs[name]))
              && (ctx.prune ==> forall name :: name in envs ==> !Unclaimed(ctx, name))
  {
    hide Governs, Assigned, Candidates, Fulfils, Unclaimed, NamedByRules, Drifts;
    GovernsIsRule(ctx, envs);
    forall name
      ensures NameInSync(ctx, envs, name) <==>
              && (forall i :: Governs(ctx, envs, i, name) ==> name in envs && Fulfils(ctx, ctx.rules[i], envs[name]))
              && (ctx.prune && name in envs ==> !Unclaimed(ctx, name))
    {
      AssignedGoverns(ctx, envs, name);
      UnclaimedIsUnnamed(ctx, name);
      forall i | Governs(ctx, envs, i, name) && name in envs
        ensures Fulfils(ctx, ctx.rules[i], envs[name]) <==> !Drifts(ctx, envs[name], ctx.rules[i].(name := name))
      {
        ProtectedAsAsked(ctx, ctx.rules[i].(name := name), envs[name]);
        NameAside(ctx, ctx.rules[i], name, envs[name]);
      }
    }
  }

  lemma GovernedIsClaimed(ctx: Context, envs: Envs, name: string)
    ensures Unclaimed(ctx, name) ==> forall i :: !Governs(ctx, envs, i, name)
  {
  }

  lemma GovernsIsRule(ctx: Context, envs: Envs)
    ensures forall name, i :: Governs(ctx, envs, i, name) ==> 0 <= i < |ctx.rules|
  {
  }

  // ---------------------------------------------------------------- convergence

  ghost predicate NameInSync(ctx: Context, envs: Envs, name: string) {
    && (match Assigned(ctx, Candidates(ctx, envs), ctx.rules, name)
        case Some(rule) => name in envs && !Drifts(ctx, envs[name], rule)
        case None => true)
    && (ctx.prune && name in envs ==> NamedByRules(ctx, name))
  }

  /** Every name a rule is assigned to is protected as that rule says, and under prune nothing
      unmanaged is left. */
  ghost predicate InSync(ctx: Context, envs: Envs) {
    forall name :: NameInSync(ctx, envs, name)
  }

  lemma {:induction false} NoRuleDiffsAt(ctx: Context, envs: Envs, expanded: seq<Rule>, k: nat)
    requires RuleDiffs(ctx, envs, expanded) == [] && k < |expanded|
    ensures RuleDiff(ctx, envs, expanded[k]) == []
  {
    if k < |expanded| - 1 {
      NoRuleDiffsAt(ctx, envs, expanded[..|expanded| - 1], k);
    }
  }

  lemma {:induction false} NoRuleDiffs(ctx: Context, envs: Envs, expanded: seq<Rule>)
    requires forall k :: 0 <= k < |expanded| ==> RuleDiff(ctx, envs, expanded[k]) == []
    ensures RuleDiffs(ctx, envs, expanded) == []
  {
    if expanded != [] {
      NoRuleDiffs(ctx, envs, expanded[..|expanded| - 1]);
    }
  }

  /** A plan is empty if and only if the protections are in sync. */
  lemma PlanIsEmptyExactlyInSync(ctx: Context, envs: Envs, expanded: seq<Rule>)
    requires Assigns(ctx, Candidates(ctx, envs), ctx.rules, expanded)
    ensures RuleDiffs(ctx, envs, expanded) == [] && Unmanaged(ctx, envs, NamesOf(expanded)) == {} <==> InSync(ctx, envs)
  {
    if InSync(ctx, envs) {
      forall k | 0 <= k < |expanded| ensures RuleDiff(ctx, envs, expanded[k]) == [] {
        assert NameInSync(ctx, envs, expanded[k].name);
      }
      NoRuleDiffs(ctx, envs, expanded);
      forall name | name in envs && ctx.prune ensures name !in Unmanaged(ctx, envs, NamesOf(expanded)) {
        assert NameInSync(ctx, envs, name);
      }
    }
    if RuleDiffs(ctx, envs, expanded) == [] && Unmanaged(ctx, envs, NamesOf(expanded)) == {} {
      forall name ensures NameInSync(ctx, envs, name) {
        if Assigned(ctx, Candidates(ctx, envs), ctx.rules, name).Some? {
          var k :| 0 <= k < |expanded| && expanded[k].name == name;
          NoRuleDiffsAt(ctx, envs, expanded, k);
        }
        if ctx.prune && name in envs && name in NamesOf(expanded) {
          AssignedIsNamed(ctx, Candidates(ctx, envs), name);
        } else if ctx.prune && name in envs {
          assert name !in Unmanaged(ctx, envs, NamesOf(expanded));
        }
      }
    }
  }

  lemma AssignedIsNamed(ctx: Context, candidates: set<string>, name: string)
    requires Assigned(ctx, candidates, ctx.rules, name).Some?
    ensures NamedByRules(ctx, name)
  {
    var i := FirstCovering(ctx, candidates, ctx.rules, name).value;
    assert ctx.rules[i].name == name || (IsWild(ctx.rules[i].name) && ctx.matches(ctx.rules[i].name, name));
  }

  /** Whether a rule covers a name depends on the candidates only through that name. */
  lemma {:induction false} AssignedDependsOnName(ctx: Context, c: set<string>, d: set<string>, rules: seq<Rule>, name: string)
    requires name in c ==> name in d
    ensures name in d ==> name in c ==> Assigned(ctx, c, rules, name) == Assigned(ctx, d, rules, name)
    ensures name !in d ==> Assigned(ctx, c, rules, name) == Assigned(ctx, d, rules, name)
    ensures Assigned(ctx, c, rules, name).Some? ==> Assigned(ctx, d, rules, name).Some?
  {
    if rules != [] {
      AssignedDependsOnName(ctx, c, d, rules[..|rules| - 1], name);
      CoveringAtEnd(ctx, c, rules, name);
      CoveringAtEnd(ctx, d, rules, name);
    }
  }

  /** The rule a name ends up with: that of a candidate, since an assigned name becomes protected. */
  ghost function Settled(ctx: Context, name: string): Option<Rule> {
    Assigned(ctx, if name == "" then {} else {name}, ctx.rules, name)
  }

  /** After one Apply every assigned name has its settled rule, and no name joins or leaves. */
  lemma AssignmentSettles(ctx: Context, before: Envs, after: Envs, name: string)
    requires Applied(ctx, before, after)
    ensures Assigned(ctx, Candidates(ctx, after), ctx.rules, name).Some? <==>
            Assigned(ctx, Candidates(ctx, before), ctx.rules, name).Some?
    ensures Assigned(ctx, Candidates(ctx, after), ctx.rules, name).Some? ==>
              Assigned(ctx, Candidates(ctx, after), ctx.rules, name) == Settled(ctx, name)
    ensures name in Candidates(ctx, before) && Assigned(ctx, Candidates(ctx, before), ctx.rules, name).Some? ==>
              Assigned(ctx, Candidates(ctx, before), ctx.rules, name) == Settled(ctx, name)
  {
    var c, d := Candidates(ctx, before), Candidates(ctx, after);
    var only := if name == "" then {} else {name};
    assert Lookup(after, name) == Outcome(ctx, before, name);
    AssignedDependsOnName(ctx, c, only, ctx.rules, name);
    AssignedDependsOnName(ctx, d, only, ctx.rules, name);
    if name in c {
      if name !in d {
        AssignedDependsOnName(ctx, d, c, ctx.rules, name);
        assert !NamedByRules(ctx, name);
        if Assigned(ctx, c, ctx.rules, name).Some? {
          AssignedIsNamed(ctx, c, name);
        }
      }
    } else {
      AssignedDependsOnName(ctx, c, d, ctx.rules, name);
    }
  }

  /** Two Applies settle every project, from any protections and under any expansion orders. */
  lemma TwoAppliesConverge(ctx: Context, start: Envs, once: Envs, twice: Envs)
    requires Applied(ctx, start, once) && Applied(ctx, once, twice)
    ensures InSync(ctx, twice)
  {
    forall name ensures NameInSync(ctx, twice, name) {
      AssignmentSettles(ctx, start, once, name);
      AssignmentSettles(ctx, once, twice, name);
      assert Lookup(twice, name) == Outcome(ctx, once, name);
      AppliedNameInSync(ctx, once, twice, name);
    }
  }

  /** A name whose rule does not change between two listings is in sync after the Apply between. */
  lemma AppliedNameInSync(ctx: Context, before: Envs, after: Envs, name: string)
    requires Lookup(after, name) == Outcome(ctx, before, name)
    requires Assigned(ctx, Candidates(ctx, after), ctx.rules, name) == Assigned(ctx, Candidates(ctx, before), ctx.rules, name)
    ensures NameInSync(ctx, after, name)
  {
    var rule := Assigned(ctx, Candidates(ctx, before), ctx.rules, name);
    if rule.Some? {
      ProtectedDoesNotDrift(ctx, rule.value);
      AssignedIsNamed(ctx, Candidates(ctx, before), name);
    }
  }

  /** Apply, Apply again, Plan: nothing is left to do. */
  method ApplyTwiceThenPlan(ctx: Context, project: Project) returns (diffs: seq<Diff>)
    requires HasWildcards(ctx.rules) || DistinctNames(ctx.rules)
    modifies project
    ensures InSync(ctx, project.envs) && diffs == []
  {
    ghost var start := project.envs;
    ghost var expanded := Apply(ctx, project);
    ghost var once := project.envs;
    expanded := Apply(ctx, project);
    TwoAppliesConverge(ctx, start, once, project.envs);
    diffs, expanded := Plan(ctx, project.envs);
  }

  /** A name that is no environment of the project yet is first protected by its explicit rule; the
      rule it settles on, which may be an earlier wildcard, must ask for nothing else. */
  ghost predicate FirstRuleSuffices(ctx: Context, name: string) {
    var first := Assigned(ctx, {}, ctx.rules, name);
    name !in ctx.projectEnvs && name != "" && first.Some? ==>
      Settled(ctx, name).Some? && !Drifts(ctx, Protected(ctx, first.value), Settled(ctx, name).value)
  }

  lemma OneApplySufficesFor(ctx: Context, start: Envs, once: Envs)
    requires Applied(ctx, start, once) && forall name :: FirstRuleSuffices(ctx, name)
    ensures InSync(ctx, once)
  {
    forall name ensures NameInSync(ctx, once, name) {
      var c := Candidates(ctx, start);
      var rule := Assigned(ctx, c, ctx.rules, name);
      assert Lookup(once, name) == Outcome(ctx, start, name);
      AssignmentSettles(ctx, start, once, name);
      if rule == Assigned(ctx, Candidates(ctx, once), ctx.rules, name) {
        AppliedNameInSync(ctx, start, once, name);
      } else {
        assert FirstRuleSuffices(ctx, name);
        AssignedDependsOnName(ctx, {}, c, ctx.rules, name);
        AssignedIsNamed(ctx, c, name);
      }
    }
  }

  /** The protections one Apply creates in a project without any. */
  lemma FromNothing(ctx: Context) returns (once: Envs)
    ensures Applied(ctx, map[], once)
  {
    var names := NamesOf(ctx.rules) + ctx.projectEnvs;
    once := map name | name in names && Outcome(ctx, map[], name).Some? :: Outcome(ctx, map[], name).value;
    forall name ensures Lookup(once, name) == Outcome(ctx, map[], name) {
      var i := FirstCovering(ctx, Candidates(ctx, map[]), ctx.rules, name);
      if i.Some? {
        assert ctx.rules[i.value] in ctx.rules;
      }
    }
  }

  /** One Apply settles every project if and only if every explicit rule's name that is no environment
      yet settles on a rule its first protection already satisfies. */
  lemma OneApplySufficesExactly(ctx: Context)
    ensures (forall start, once :: Applied(ctx, start, once) ==> InSync(ctx, once)) <==>
            (forall name :: FirstRuleSuffices(ctx, name))
  {
    if forall name :: FirstRuleSuffices(ctx, name) {
      forall start, once | Applied(ctx, start, once) ensures InSync(ctx, once) {
        OneApplySufficesFor(ctx, start, once);
      }
    }
    if forall start, once :: Applied(ctx, start, once) ==> InSync(ctx, once) {
      var once := FromNothing(ctx);
      forall name ensures FirstRuleSuffices(ctx, name) {
        assert NameInSync(ctx, once, name);
        assert Lookup(once, name) == Outcome(ctx, map[], name);
        AssignedDependsOnName(ctx, {}, Candidates(ctx, map[]), ctx.rules, name);
        AssignmentSettles(ctx, map[], once, name);
      }
    }
  }

  /** In particular it is enough that no explicit rule name matches an earlier wildcard rule. */
  lemma NoShadowingSuffices(ctx: Context, name: string)
    requires forall i, j :: 0 <= i < j < |ctx.rules| && IsWild(ctx.rules[i].name) && !IsWild(ctx.rules[j].name) ==>
               !ctx.matches(ctx.rules[i].name, ctx.rules[j].name)
    ensures FirstRuleSuffices(ctx, name)
  {
    var first := FirstCovering(ctx, {}, ctx.rules, name);
    if name != "" && first.Some? {
      var settled := FirstCovering(ctx, {name}, ctx.rules, name);
      assert Covers(ctx, {name}, ctx.rules[first.value], name);
      assert settled == first;
      ProtectedDoesNotDrift(ctx, ctx.rules[first.value].(name := name));
    }
  }

  /** What the validator demands of the names: none is empty, and they differ once trimmed. */
  ghost predicate Accepted(rules: seq<Rule>) {
    && (forall i :: 0 <= i < |rules| ==> Trim(rules[i].name) != "")
    && forall i, j :: 0 <= i < j < |rules| ==> Trim(rules[i].name) != Trim(rules[j].name)
  }

  /** It can take two: an explicit rule for an environment that does not exist yet, after a wildcard
      rule that matches it and asks for something else. The first Apply creates the environment by its
      own rule; from then on the wildcard governs it. */
  lemma ShadowedNameNeedsTwo(ctx: Context, wild: Rule, explicit: Rule)
    requires ctx.rules == [wild, explicit] && ctx.projectEnvs == {}
    requires IsWild(wild.name) && !IsWild(explicit.name) && explicit.name != "" && ctx.matches(wild.name, explicit.name)
    requires Drifts(ctx, Protected(ctx, explicit), wild.(name := explicit.name))
    ensures !FirstRuleSuffices(ctx, explicit.name) && exists once :: Applied(ctx, map[], once) && !InSync(ctx, once)
  {
    hide Drifts, Protected, IsWild;
    var name := explicit.name;
    assert !Covers(ctx, {}, ctx.rules[0], name) && Covers(ctx, {}, ctx.rules[1], name);
    assert Covers(ctx, {name}, ctx.rules[0], name);
    assert FirstCovering(ctx, {}, ctx.rules, name) == Some(1);
    assert FirstCovering(ctx, {name}, ctx.rules, name) == Some(0);
    var once := FromNothing(ctx);
    assert Candidates(ctx, map[]) == {};
    assert Lookup(once, name) == Outcome(ctx, map[], name);
    AssignmentSettles(ctx, map[], once, name);
    assert !NameInSync(ctx, once, name);
  }

  /** For instance "p*" asking for one approval before "prod" asking for two, which is accepted. */
  lemma ShadowedNameExample(ctx: Context)
    requires ctx.rules == [Rule("p*", [], Some(1), [], [], []), Rule("prod", [], Some(2), [], [], [])]
    requires ctx.projectEnvs == {} && ctx.matches("p*", "prod")
    ensures Accepted(ctx.rules) && exists once :: Applied(ctx, map[], once) && !InSync(ctx, once)
  {
    hide ToOptions, Protected, Differs, Trim, Applied, InSync;
    ExampleNames();
    CountsDrift(ctx, ctx.rules[1], ctx.rules[0].(name := "prod"));
    ShadowedNameNeedsTwo(ctx, ctx.rules[0], ctx.rules[1]);
  }

  lemma ExampleNames()
    ensures Trim("p*") == "p*" && Trim("prod") == "prod" && IsWild("p*") && !IsWild("prod")
  {
    assert "p*"[1] == '*';
  }

  lemma CountsDrift(ctx: Context, a: Rule, b: Rule)
    requires a.count.Some? && b.count.Some? && a.count != b.count
    ensures Drifts(ctx, Protected(ctx, a), b)
  {
  }

  /** So the rules of a loaded policy have distinct names, and two Applies settle it. */
  method ApplyLoadedPolicyTwice(ctx: Context, project: Project) returns (diffs: seq<Diff>)
    requires Accepted(ctx.rules)
    modifies project
    ensures InSync(ctx, project.envs) && diffs == []
  {
    assert DistinctNames(ctx.rules);
    diffs := ApplyTwiceThenPlan(ctx, project);
  }
}
