/** The protected-branch reconciler (internal/governance/protectedbranches.go) against a GitLab
    project that stores what it is sent. */
module ProtectedBranches {
  import opened Prelude
  import opened SortedKeys

  /** An access entry.  The comparison only looks at the first three fields. */
  datatype Access = Access(level: int, user: int, group: int, deployKey: int)

  datatype Rule = Rule(
    name: string,
    push: seq<Access>, merge: seq<Access>, unprotect: seq<Access>,
    forcePush: Option<bool>, codeOwner: Option<bool>)

  datatype Live = Live(
    push: seq<Access>, merge: seq<Access>, unprotect: seq<Access>,
    forcePush: bool, codeOwner: bool)

  // ---------------------------------------------------------------- comparing access lists

  function Triple(a: Access): (int, int, int) {
    (a.level, a.user, a.group)
  }

  function AccessKey(a: Access): string {
    Key3(Triple(a))
  }

  /** The same entries, as multisets of (level, user, group). */
  ghost predicate SameAccess(a: seq<Access>, b: seq<Access>) {
    multiset(Map(Triple, a)) == multiset(Map(Triple, b))
  }

  lemma SortKeepsTriples(a: seq<Access>)
    ensures multiset(Map(Triple, SortBy(AccessKey, a))) == multiset(Map(Triple, a))
  {
    SortBySorts(AccessKey, a);
    ImageOfMultiset(Triple, SortBy(AccessKey, a), a);
  }

  lemma SortedTriplesUnique(sa: seq<Access>, sb: seq<Access>)
    requires Sorted(Map(AccessKey, sa)) && Sorted(Map(AccessKey, sb)) && SameAccess(sa, sb)
    ensures Map(Triple, sa) == Map(Triple, sb)
  {
    var ta, tb := Map(Triple, sa), Map(Triple, sb);
    ImageOfMultiset(Key3, ta, tb);
    assert Map(Key3, ta) == Map(AccessKey, sa) && Map(Key3, tb) == Map(AccessKey, sb);
    SortedUnique(Map(Key3, ta), Map(Key3, tb));
    forall i | 0 <= i < |ta| ensures |tb| == |ta| && ta[i] == tb[i] {
      assert Map(Key3, ta)[i] == Map(Key3, tb)[i];
      Key3Injective(ta[i], tb[i]);
    }
    assert |ta| == |Map(Key3, ta)| == |tb|;
  }

  /** Pairwise equality of the key-sorted lists is equality as multisets. */
  lemma SortedPairsCompareMultisets(a: seq<Access>, b: seq<Access>)
    ensures Map(Triple, SortBy(AccessKey, a)) == Map(Triple, SortBy(AccessKey, b)) <==> SameAccess(a, b)
  {
    SortKeepsTriples(a);
    SortKeepsTriples(b);
    if SameAccess(a, b) {
      SortBySorts(AccessKey, a);
      SortBySorts(AccessKey, b);
      SortedTriplesUnique(SortBy(AccessKey, a), SortBy(AccessKey, b));
    }
  }

  /** equalAccessDescriptions. */
  method EqualAccessDescriptions(a: seq<Access>, b: seq<Access>) returns (equal: bool)
    ensures equal <==> SameAccess(a, b)
  {
    SortedPairsCompareMultisets(a, b);
    assert |SortBy(AccessKey, a)| == |a| && |SortBy(AccessKey, b)| == |b| by {
      SortBySorts(AccessKey, a);
      SortBySorts(AccessKey, b);
    }
    if |a| != |b| {
      return false;
    }
    var sa := SortBy(AccessKey, a);
    var sb := SortBy(AccessKey, b);
    equal := PairwiseEqual(sa, sb);
  }

  /** The comparison loop over the sorted copies. */
  method PairwiseEqual(sa: seq<Access>, sb: seq<Access>) returns (equal: bool)
    requires |sa| == |sb|
    ensures equal <==> Map(Triple, sa) == Map(Triple, sb)
  {
    for i := 0 to |sa|
      invariant forall k :: 0 <= k < i ==> Map(Triple, sa)[k] == Map(Triple, sb)[k]
    {
      if sa[i].level != sb[i].level || sa[i].user != sb[i].user || sa[i].group != sb[i].group {
        assert Map(Triple, sa)[i] != Map(Triple, sb)[i];
        return false;
      }
    }
    return true;
  }

  // ---------------------------------------------------------------- diffs

  /** Which fields of an existing protection differ from the rule. */
  datatype Changes = Changes(push: bool, merge: bool, unprotect: bool, forcePush: bool, codeOwner: bool)

  const UNCHANGED := Changes(false, false, false, false, false)
  const ONLY_CODE_OWNER := Changes(false, false, false, false, true)

  ghost predicate AccessDiffers(live: seq<Access>, desired: seq<Access>) {
    desired != [] && !SameAccess(live, desired)
  }

  predicate FlagDiffers(live: bool, desired: Option<bool>) {
    desired.Some? && live != desired.value
  }

  /** What the rule leaves unset never differs. */
  ghost function Differences(live: Live, rule: Rule): Changes {
    Changes(AccessDiffers(live.push, rule.push), AccessDiffers(live.merge, rule.merge),
            AccessDiffers(live.unprotect, rule.unprotect),
            FlagDiffers(live.forcePush, rule.forcePush), FlagDiffers(live.codeOwner, rule.codeOwner))
  }

  datatype Field = Push | Merge | Unprotect | ForcePush | CodeOwner

  function When(changed: bool, field: Field): seq<Field> {
    if changed then [field] else []
  }

  /** The changed fields in the order the diff lists them. */
  function Fields(c: Changes): (fields: seq<Field>)
    ensures fields == [] <==> c == UNCHANGED
    ensures |fields| == 1 && fields[0] == CodeOwner <==> c == ONLY_CODE_OWNER
  {
    When(c.push, Push) + When(c.merge, Merge) + When(c.unprotect, Unprotect) +
    When(c.forcePush, ForcePush) + When(c.codeOwner, CodeOwner)
  }

  method CompareAccess(live: seq<Access>, desired: seq<Access>) returns (differs: bool)
    ensures differs == AccessDiffers(live, desired)
  {
    differs := false;
    if |desired| > 0 {
      var same := EqualAccessDescriptions(live, desired);
      differs := !same;
    }
  }

  /** buildUpdateDiff. */
  method BuildUpdateDiff(live: Live, rule: Rule) returns (fields: seq<Field>)
    ensures fields == Fields(Differences(live, rule))
  {
    var push := CompareAccess(live.push, rule.push);
    var merge := CompareAccess(live.merge, rule.merge);
    var unprotect := CompareAccess(live.unprotect, rule.unprotect);
    fields := Fields(Changes(push, merge, unprotect,
                             FlagDiffers(live.forcePush, rule.forcePush), FlagDiffers(live.codeOwner, rule.codeOwner)));
  }

  // ---------------------------------------------------------------- protect options

  datatype Permission = Permission(level: Option<int>, user: Option<int>, group: Option<int>, deployKey: Option<int>)

  datatype Grant = Grant(allowed: Option<seq<Permission>>, level: Option<int>)

  datatype ProtectOptions = ProtectOptions(push: Grant, merge: Grant, unprotect: Grant, forcePush: Option<bool>, codeOwner: Option<bool>)

  function Positive(n: int): Option<int> {
    if n > 0 then Some(n) else None
  }

  function ToPermission(a: Access): Permission {
    Permission(Positive(a.level), Positive(a.user), Positive(a.group), Positive(a.deployKey))
  }

  /** A single entry that names only a role is also sent as a plain access level. */
  function ToGrant(list: seq<Access>, deployKeys: bool): Grant {
    if list == [] then Grant(None, None)
    else
      Grant(Some(Map(ToPermission, list)),
            if |list| == 1 && list[0].user == 0 && list[0].group == 0 && (deployKeys ==> list[0].deployKey == 0)
            then Some(list[0].level) else None)
  }

  function ToProtectOptions(rule: Rule): ProtectOptions {
    ProtectOptions(ToGrant(rule.push, true), ToGrant(rule.merge, false), ToGrant(rule.unprotect, false), rule.forcePush, rule.codeOwner)
  }

  /** A list is sent entry by entry, numbers that are not positive left out. A plain level is sent along
      exactly when it says all that the comparison sees of the list and no deploy key is at stake. */
  lemma PlainLevelSaysAll(list: seq<Access>, deployKeys: bool)
    ensures var g := ToGrant(list, deployKeys);
            && (g.allowed.Some? <==> list != [])
            && (list != [] ==> |g.allowed.value| == |list|)
            && (forall k :: 0 <= k < |list| ==>
                  var (sent, a) := (g.allowed.value[k], list[k]);
                  && (forall n :: sent.level == Some(n) <==> n == a.level && n > 0)
                  && (forall n :: sent.user == Some(n) <==> n == a.user && n > 0)
                  && (forall n :: sent.group == Some(n) <==> n == a.group && n > 0)
                  && (forall n :: sent.deployKey == Some(n) <==> n == a.deployKey && n > 0))
            && forall n :: g.level == Some(n) <==>
                 SameAccess(list, [Access(n, 0, 0, 0)]) && (deployKeys ==> list[0].deployKey == 0)
  {
    forall n ensures SameAccess(list, [Access(n, 0, 0, 0)]) <==> |list| == 1 && Triple(list[0]) == (n, 0, 0) {
      SingleAccess(list, Access(n, 0, 0, 0));
    }
    hide SameAccess;
  }

  lemma SingleAccess(list: seq<Access>, a: Access)
    ensures SameAccess(list, [a]) <==> |list| == 1 && Triple(list[0]) == Triple(a)
  {
    assert Map(Triple, [a]) == [Triple(a)];
    if |list| == 1 {
      assert Map(Triple, list) == [Triple(list[0])];
    } else {
      assert |multiset(Map(Triple, list))| == |list|;
    }
  }

  // ---------------------------------------------------------------- the GitLab project

  function OrZero(n: Option<int>): int {
    if n.Some? then n.value else 0
  }

  function StoredPermission(p: Permission): Access {
    Access(OrZero(p.level), OrZero(p.user), OrZero(p.group), OrZero(p.deployKey))
  }

  /** What the server keeps of one grant: the list, else the plain level, else its default. */
  function StoredGrant(g: Grant, default: seq<Access>): seq<Access> {
    if g.allowed.Some? then Map(StoredPermission, g.allowed.value)
    else if g.level.Some? then [Access(g.level.value, 0, 0, 0)]
    else default
  }

  /** The protection a protect request creates on a server with these defaults. */
  function Protected(o: ProtectOptions, defaults: Live): Live {
    Live(StoredGrant(o.push, defaults.push), StoredGrant(o.merge, defaults.merge), StoredGrant(o.unprotect, defaults.unprotect),
         if o.forcePush.Some? then o.forcePush.value else defaults.forcePush,
         if o.codeOwner.Some? then o.codeOwner.value else defaults.codeOwner)
  }

  class Project {
    const defaults: Live
    var branches: map<string, Live>

    constructor (defaults: Live, branches: map<string, Live>)
      ensures this.defaults == defaults && this.branches == branches
    {
      this.defaults := defaults;
      this.branches := branches;
    }

    method ProtectBranch(name: string, o: ProtectOptions)
      modifies this
      ensures branches == old(branches)[name := Protected(o, defaults)]
    {
      branches := branches[name := Protected(o, defaults)];
    }

    method UnprotectBranch(name: string)
      modifies this
      ensures branches == old(branches) - {name}
    {
      branches := branches - {name};
    }

    method PatchCodeOwner(name: string, required: bool)
      requires name in branches
      modifies this
      ensures branches == old(branches)[name := old(branches)[name].(codeOwner := required)]
    {
      branches := branches[name := branches[name].(codeOwner := required)];
    }
  }

  // ---------------------------------------------------------------- plan and apply

  datatype Diff = CreateProtection(name: string) | UpdateProtection(name: string, fields: seq<Field>)

  ghost function RuleDiff(branches: map<string, Live>, rule: Rule): seq<Diff> {
    if rule.name !in branches then [CreateProtection(rule.name)]
    else if Differences(branches[rule.name], rule) == UNCHANGED then []
    else [UpdateProtection(rule.name, Fields(Differences(branches[rule.name], rule)))]
  }

  ghost function Diffs(branches: map<string, Live>, rules: seq<Rule>): seq<Diff> {
    if rules == [] then [] else Diffs(branches, rules[..|rules| - 1]) + RuleDiff(branches, rules[|rules| - 1])
  }

  method Plan(project: Project, rules: seq<Rule>) returns (diffs: seq<Diff>)
    ensures diffs == Diffs(project.branches, rules)
  {
    diffs := [];
    for k := 0 to |rules|
      invariant diffs == Diffs(project.branches, rules[..k])
    {
      assert rules[..k + 1][..k] == rules[..k];
      if rules[k].name !in project.branches {
        diffs := diffs + [CreateProtection(rules[k].name)];
      } else {
        var fields := BuildUpdateDiff(project.branches[rules[k].name], rules[k]);
        if |fields| > 0 {
          diffs := diffs + [UpdateProtection(rules[k].name, fields)];
        }
      }
    }
    assert rules[..|rules|] == rules;
  }

  ghost function Listed(branches: map<string, Live>, name: string): Option<Live> {
    if name in branches then Some(branches[name]) else None
  }

  /** The protection one rule leaves on a branch: decided on the listing, written to the branch as it
      is by then. */
  ghost function AfterRule(listed: Option<Live>, current: Option<Live>, rule: Rule, defaults: Live): Option<Live> {
    if listed.None? then Some(Protected(ToProtectOptions(rule), defaults))
    else
      var changes := Differences(listed.value, rule);
      if changes == UNCHANGED then current
      else if changes == ONLY_CODE_OWNER && rule.codeOwner.Some? then
        if current.Some? then Some(current.value.(codeOwner := rule.codeOwner.value)) else None
      else Some(Protected(ToProtectOptions(rule), defaults))
  }

  ghost function Put(branches: map<string, Live>, name: string, live: Option<Live>): map<string, Live> {
    if live.Some? then branches[name := live.value] else branches - {name}
  }

  /** Apply decides every rule on the listing taken at its start. */
  ghost function AfterRules(listing: map<string, Live>, rules: seq<Rule>, defaults: Live): (after: map<string, Live>)
    ensures listing.Keys <= after.Keys
  {
    if rules == [] then listing
    else
      var rule := rules[|rules| - 1];
      var before := AfterRules(listing, rules[..|rules| - 1], defaults);
      Put(before, rule.name, AfterRule(Listed(listing, rule.name), Listed(before, rule.name), rule, defaults))
  }

  ghost predicate DistinctNames(rules: seq<Rule>) {
    forall a, b :: 0 <= a < b < |rules| ==> rules[a].name != rules[b].name
  }

  /** Branches no rule names are left alone. */
  lemma {:induction false} OthersUntouched(listing: map<string, Live>, rules: seq<Rule>, defaults: Live, name: string)
    requires forall k :: 0 <= k < |rules| ==> rules[k].name != name
    ensures Listed(AfterRules(listing, rules, defaults), name) == Listed(listing, name)
  {
    if rules != [] {
      OthersUntouched(listing, rules[..|rules| - 1], defaults, name);
    }
  }

  /** A branch is affected by the last rule only if that rule names it. */
  lemma LastRuleOnly(listing: map<string, Live>, rules: seq<Rule>, defaults: Live, name: string)
    requires rules != []
    ensures var n := |rules| - 1;
            var before := Listed(AfterRules(listing, rules[..n], defaults), name);
            Listed(AfterRules(listing, rules, defaults), name) ==
            if rules[n].name == name then AfterRule(Listed(listing, name), before, rules[n], defaults) else before
  {
    hide AfterRule;
  }

  /** With distinct names a declared branch ends up as its own rule leaves it. */
  lemma {:induction false} DeclaredSettled(listing: map<string, Live>, rules: seq<Rule>, defaults: Live, k: nat)
    requires DistinctNames(rules) && k < |rules|
    ensures var listed := Listed(listing, rules[k].name);
            Listed(AfterRules(listing, rules, defaults), rules[k].name) == AfterRule(listed, listed, rules[k], defaults)
  {
    hide AfterRules, AfterRule;
    var n := |rules| - 1;
    LastRuleOnly(listing, rules, defaults, rules[k].name);
    if k < n {
      DeclaredSettled(listing, rules[..n], defaults, k);
      assert rules[..n][k] == rules[k] && rules[k].name != rules[n].name;
    } else {
      OthersUntouched(listing, rules[..n], defaults, rules[n].name);
    }
  }

  /** The body of Apply's loop for one rule, through the create, the PATCH or the recreate path. */
  method ApplyRule(project: Project, listing: map<string, Live>, rule: Rule) returns (diff: seq<Diff>)
    requires listing.Keys <= project.branches.Keys
    modifies project
    ensures diff == RuleDiff(listing, rule)
    ensures project.branches == Put(old(project.branches), rule.name,
              AfterRule(Listed(listing, rule.name), Listed(old(project.branches), rule.name), rule, project.defaults))
  {
    if rule.name !in listing {
      project.ProtectBranch(rule.name, ToProtectOptions(rule));
      return [CreateProtection(rule.name)];
    }
    var fields := BuildUpdateDiff(listing[rule.name], rule);
    if |fields| == 0 {
      return [];
    }
    var onlyCodeOwnerChanged := |fields| == 1 && fields[0] == CodeOwner;
    if onlyCodeOwnerChanged && rule.codeOwner.Some? {
      project.PatchCodeOwner(rule.name, rule.codeOwner.value);
    } else {
      project.UnprotectBranch(rule.name);
      project.ProtectBranch(rule.name, ToProtectOptions(rule));
    }
    return [UpdateProtection(rule.name, fields)];
  }

  method Apply(project: Project, rules: seq<Rule>) returns (diffs: seq<Diff>)
    modifies project
    ensures diffs == Diffs(old(project.branches), rules)
    ensures project.branches == AfterRules(old(project.branches), rules, project.defaults)
  {
    var listing := project.branches;
    diffs := [];
    for k := 0 to |rules|
      invariant diffs == Diffs(listing, rules[..k])
      invariant project.branches == AfterRules(listing, rules[..k], project.defaults)
    {
      assert rules[..k + 1][..k] == rules[..k];
      var diff := ApplyRule(project, listing, rules[k]);
      diffs := diffs + diff;
    }
    assert rules[..|rules|] == rules;
  }

  // ---------------------------------------------------------------- convergence

  ghost predicate NonNegative(list: seq<Access>) {
    forall k :: 0 <= k < |list| ==> list[k].level >= 0 && list[k].user >= 0 && list[k].group >= 0
  }

  /** What the validator guarantees of a rule's access lists. */
  ghost predicate Validated(rule: Rule) {
    NonNegative(rule.push) && NonNegative(rule.merge) && NonNegative(rule.unprotect)
  }

  /** A list survives the trip through the protect request and the server if and only if it holds
      no negative number. */
  lemma GrantRoundTrips(list: seq<Access>, deployKeys: bool, default: seq<Access>)
    requires list != []
    ensures SameAccess(StoredGrant(ToGrant(list, deployKeys), default), list) <==> NonNegative(list)
  {
    hide SameAccess;
    StoredEntries(list, deployKeys, default);
    if NonNegative(list) {
      StoredKeepsTriples(list);
    } else {
      var k :| 0 <= k < |list| && (list[k].level < 0 || list[k].user < 0 || list[k].group < 0);
      NegativeIsLost(list, k);
    }
  }

  function StoredAccess(a: Access): Access {
    StoredPermission(ToPermission(a))
  }

  lemma StoredEntries(list: seq<Access>, deployKeys: bool, default: seq<Access>)
    requires list != []
    ensures StoredGrant(ToGrant(list, deployKeys), default) == Map(StoredAccess, list)
  {
  }

  lemma StoredKeepsTriples(list: seq<Access>)
    requires NonNegative(list)
    ensures SameAccess(Map(StoredAccess, list), list)
  {
    assert Map(Triple, Map(StoredAccess, list)) == Map(Triple, list);
  }

  /** No negative number comes back from the server. */
  lemma NegativeIsLost(list: seq<Access>, k: nat)
    requires k < |list| && (list[k].level < 0 || list[k].user < 0 || list[k].group < 0)
    ensures !SameAccess(Map(StoredAccess, list), list)
  {
    var declared, stored := Map(Triple, list), Map(Triple, Map(StoredAccess, list));
    assert declared[k] in multiset(declared);
    forall i | 0 <= i < |stored| ensures stored[i] != declared[k] {
      assert stored[i] == Triple(StoredAccess(list[i]));
    }
    assert declared[k] !in multiset(stored);
  }

  /** The live branch has every value the rule sets. */
  ghost predicate Satisfies(live: Live, rule: Rule) {
    Differences(live, rule) == UNCHANGED
  }

  /** The protection a rule creates, or recreates. */
  function Fresh(rule: Rule, defaults: Live): Live {
    Protected(ToProtectOptions(rule), defaults)
  }

  lemma FreshSatisfies(rule: Rule, defaults: Live)
    ensures Satisfies(Fresh(rule, defaults), rule) <==> Validated(rule)
  {
    hide AccessDiffers, StoredGrant, NonNegative;
    StoredDiffers(rule.push, true, defaults.push);
    StoredDiffers(rule.merge, false, defaults.merge);
    StoredDiffers(rule.unprotect, false, defaults.unprotect);
  }

  lemma StoredDiffers(list: seq<Access>, deployKeys: bool, default: seq<Access>)
    ensures AccessDiffers(StoredGrant(ToGrant(list, deployKeys), default), list) <==> !NonNegative(list)
  {
    if list != [] {
      GrantRoundTrips(list, deployKeys, default);
    }
  }

  lemma {:induction false} NoDiffs(branches: map<string, Live>, rules: seq<Rule>)
    ensures Diffs(branches, rules) == [] <==> forall k :: 0 <= k < |rules| ==> RuleDiff(branches, rules[k]) == []
  {
    if rules != [] {
      hide RuleDiff;
      NoDiffs(branches, rules[..|rules| - 1]);
      assert forall k :: 0 <= k < |rules| - 1 ==> rules[..|rules| - 1][k] == rules[k];
    }
  }

  ghost predicate Converges(rules: seq<Rule>, branches: map<string, Live>, defaults: Live) {
    Diffs(AfterRules(branches, rules, defaults), rules) == []
  }

  // ---------------------------------------------------------------- rules that share a name

  predicate Sets(rule: Rule, field: Field) {
    match field
    case Push => rule.push != []
    case Merge => rule.merge != []
    case Unprotect => rule.unprotect != []
    case ForcePush => rule.forcePush.Some?
    case CodeOwner => rule.codeOwner.Some?
  }

  ghost predicate DiffersAt(live: Live, rule: Rule, field: Field) {
    match field
    case Push => AccessDiffers(live.push, rule.push)
    case Merge => AccessDiffers(live.merge, rule.merge)
    case Unprotect => AccessDiffers(live.unprotect, rule.unprotect)
    case ForcePush => FlagDiffers(live.forcePush, rule.forcePush)
    case CodeOwner => FlagDiffers(live.codeOwner, rule.codeOwner)
  }

  /** The rule and the branch differ in more than the code-owner flag, so the branch is recreated. */
  ghost predicate Recreates(live: Live, rule: Rule) {
    exists f: Field :: f != CodeOwner && DiffersAt(live, rule, f)
  }

  lemma RecreatesExactly(live: Live, rule: Rule)
    ensures Recreates(live, rule) <==> Differences(live, rule) != UNCHANGED && Differences(live, rule) != ONLY_CODE_OWNER
    ensures Satisfies(live, rule) <==> !Recreates(live, rule) && !DiffersAt(live, rule, CodeOwner)
  {
    hide AccessDiffers, FlagDiffers;
    var c := Differences(live, rule);
    assert c.push == DiffersAt(live, rule, Push);
    assert c.merge == DiffersAt(live, rule, Merge);
    assert c.unprotect == DiffersAt(live, rule, Unprotect);
    assert c.forcePush == DiffersAt(live, rule, ForcePush);
    assert c.codeOwner == DiffersAt(live, rule, CodeOwner);
  }

  ghost predicate LastOfName(rules: seq<Rule>, k: nat)
    requires k < |rules|
  {
    forall l :: k < l < |rules| ==> rules[l].name != rules[k].name
  }

  /** Rule k sets a field, the code-owner flag aside, that no later rule for the branch sets. */
  ghost predicate SetsAlone(rules: seq<Rule>, k: nat)
    requires k < |rules|
  {
    exists f: Field :: f != CodeOwner && AloneAt(rules, k, f)
  }

  ghost predicate AloneAt(rules: seq<Rule>, k: nat, f: Field)
    requires k < |rules|
  {
    Sets(rules[k], f) && forall l :: k < l < |rules| && rules[l].name == rules[k].name ==> !Sets(rules[l], f)
  }

  /** Some project makes rule k the last to write the whole branch. */
  ghost predicate Decisive(rules: seq<Rule>, k: nat)
    requires k < |rules|
  {
    LastOfName(rules, k) || SetsAlone(rules, k)
  }

  /** What a decisive rule creates satisfies all rules of its name. */
  ghost predicate Cooperate(rules: seq<Rule>, defaults: Live) {
    forall k, l :: 0 <= k < |rules| && 0 <= l < |rules| && rules[l].name == rules[k].name && Decisive(rules, k) ==>
      Satisfies(Fresh(rules[k], defaults), rules[l])
  }

  ghost predicate AllSatisfied(live: Live, rules: seq<Rule>, name: string) {
    forall l :: 0 <= l < |rules| && rules[l].name == name ==> Satisfies(live, rules[l])
  }

  lemma {:induction false} FindLast(rules: seq<Rule>, name: string, k: nat) returns (last: nat)
    requires k < |rules| && rules[k].name == name
    ensures last < |rules| && rules[last].name == name && LastOfName(rules, last)
    decreases |rules| - k
  {
    if l :| k < l < |rules| && rules[l].name == name {
      last := FindLast(rules, name, l);
    } else {
      last := k;
    }
  }

  /** A branch that was not listed is created by every rule of its name, the last one finally. */
  lemma {:induction false} CreatedByLast(listing: map<string, Live>, rules: seq<Rule>, defaults: Live, last: nat)
    requires last < |rules| && LastOfName(rules, last) && rules[last].name !in listing
    ensures Listed(AfterRules(listing, rules, defaults), rules[last].name) == Some(Fresh(rules[last], defaults))
  {
    hide AfterRules;
    var n := |rules| - 1;
    LastRuleOnly(listing, rules, defaults, rules[last].name);
    if last < n {
      CreatedByLast(listing, rules[..n], defaults, last);
    }
  }

  /** The state of a listed branch while its rules are applied: rewritten last by rule k (or by none,
      when k is -1), with the code-owner flag possibly patched to the value `agreed`. */
  ghost predicate Tracks(live: Live, now: Live, rules: seq<Rule>, defaults: Live, name: string, agreed: bool, k: int) {
    && -1 <= k < |rules|
    && (k >= 0 ==> rules[k].name == name && Recreates(live, rules[k]))
    && (forall l :: k < l < |rules| && rules[l].name == name ==> !Recreates(live, rules[l]))
    && var base := if k < 0 then live else Fresh(rules[k], defaults);
       && now == base.(codeOwner := now.codeOwner)
       && (now.codeOwner == base.codeOwner || now.codeOwner == agreed)
       && (k < 0 ==> forall l :: 0 <= l < |rules| && rules[l].name == name && rules[l].codeOwner.Some? ==> now.codeOwner == agreed)
  }

  lemma {:induction false} Track(listing: map<string, Live>, rules: seq<Rule>, defaults: Live, name: string, agreed: bool)
      returns (now: Live, k: int)
    requires name in listing
    requires forall l :: 0 <= l < |rules| && rules[l].name == name && rules[l].codeOwner.Some? ==> rules[l].codeOwner.value == agreed
    ensures Listed(AfterRules(listing, rules, defaults), name) == Some(now)
    ensures Tracks(listing[name], now, rules, defaults, name, agreed, k)
  {
    hide AfterRules, Recreates, Fresh;
    var live := listing[name];
    if rules == [] {
      now, k := live, -1;
      NothingApplied(listing, defaults);
    } else {
      var n := |rules| - 1;
      var before;
      before, k := Track(listing, rules[..n], defaults, name, agreed);
      now := before;
      LastRuleOnly(listing, rules, defaults, name);
      if rules[n].name == name {
        now := AfterRule(Some(live), Some(before), rules[n], defaults).value;
        k := if Recreates(live, rules[n]) then n else k;
        TrackRule(live, before, rules[n], defaults, agreed);
      }
    }
  }

  lemma NothingApplied(listing: map<string, Live>, defaults: Live)
    ensures AfterRules(listing, [], defaults) == listing
  {
  }

  /** One rule on a listed branch: it recreates it, patches the flag, or leaves it alone. */
  lemma TrackRule(live: Live, before: Live, rule: Rule, defaults: Live, agreed: bool)
    requires rule.codeOwner.Some? ==> rule.codeOwner.value == agreed
    ensures var after := AfterRule(Some(live), Some(before), rule, defaults);
            && after.Some?
            && (Recreates(live, rule) ==> after.value == Fresh(rule, defaults))
            && (!Recreates(live, rule) && DiffersAt(live, rule, CodeOwner) ==> after.value == before.(codeOwner := agreed))
            && (!Recreates(live, rule) && !DiffersAt(live, rule, CodeOwner) ==> after.value == before)
  {
    RecreatesExactly(live, rule);
    hide Recreates;
    assert Differences(live, rule).codeOwner == DiffersAt(live, rule, CodeOwner);
  }

  /** Rules of one name that some branch satisfies agree wherever two of them set a field. */
  lemma Agreement(q: Live, live: Live, a: Rule, b: Rule, f: Field)
    requires Satisfies(q, a) && Satisfies(q, b) && Sets(a, f) && Sets(b, f)
    ensures DiffersAt(live, a, f) <==> DiffersAt(live, b, f)
  {
    RecreatesExactly(q, a);
    RecreatesExactly(q, b);
    assert !DiffersAt(q, a, f) && !DiffersAt(q, b, f);
  }

  /** The flag does not matter to what else a rule compares. */
  lemma FlagAside(live: Live, rule: Rule, flag: bool)
    ensures Recreates(live.(codeOwner := flag), rule) <==> Recreates(live, rule)
  {
    forall f: Field | f != CodeOwner ensures DiffersAt(live.(codeOwner := flag), rule, f) <==> DiffersAt(live, rule, f) {}
  }

  lemma CooperatingSettles(listing: map<string, Live>, rules: seq<Rule>, defaults: Live, k: nat)
    requires Cooperate(rules, defaults) && k < |rules|
    ensures RuleDiff(AfterRules(listing, rules, defaults), rules[k]) == []
  {
    hide AfterRules, Satisfies, Fresh, Decisive;
    var name := rules[k].name;
    var last := FindLast(rules, name, k);
    LastIsDecisive(rules, last);
    var q := Fresh(rules[last], defaults);
    if name !in listing {
      CreatedByLast(listing, rules, defaults, last);
      SatisfiedHasNoDiff(AfterRules(listing, rules, defaults), rules[k]);
    } else {
      var now := ListedSettles(listing, rules, defaults, name, q);
      SatisfiedHasNoDiff(AfterRules(listing, rules, defaults), rules[k]);
    }
  }

  lemma LastIsDecisive(rules: seq<Rule>, k: nat)
    requires k < |rules| && LastOfName(rules, k)
    ensures Decisive(rules, k)
  {
  }

  lemma SatisfiedHasNoDiff(branches: map<string, Live>, rule: Rule)
    ensures RuleDiff(branches, rule) == [] <==> rule.name in branches && Satisfies(branches[rule.name], rule)
  {
  }

  lemma ListedSettles(listing: map<string, Live>, rules: seq<Rule>, defaults: Live, name: string, q: Live) returns (now: Live)
    requires Cooperate(rules, defaults) && name in listing && AllSatisfied(q, rules, name)
    ensures Listed(AfterRules(listing, rules, defaults), name) == Some(now)
    ensures AllSatisfied(now, rules, name)
  {
    hide AfterRules, Recreates, Fresh, Decisive;
    forall l | 0 <= l < |rules| && rules[l].name == name && rules[l].codeOwner.Some?
      ensures rules[l].codeOwner.value == q.codeOwner
    {
      RecreatesExactly(q, rules[l]);
    }
    var k;
    now, k := Track(listing, rules, defaults, name, q.codeOwner);
    if k >= 0 {
      RewriterIsDecisive(listing[name], rules, name, q, k);
    }
    forall l | 0 <= l < |rules| && rules[l].name == name ensures Satisfies(now, rules[l]) {
      var base := if k < 0 then listing[name] else Fresh(rules[k], defaults);
      FlagAside(base, rules[l], now.codeOwner);
      RecreatesExactly(base, rules[l]);
      RecreatesExactly(now, rules[l]);
    }
  }

  /** The last rule to rewrite a branch sets a field no later rule of its name sets. */
  lemma RewriterIsDecisive(live: Live, rules: seq<Rule>, name: string, q: Live, k: nat)
    requires k < |rules| && rules[k].name == name && AllSatisfied(q, rules, name)
    requires Recreates(live, rules[k])
    requires forall l :: k < l < |rules| && rules[l].name == name ==> !Recreates(live, rules[l])
    ensures Decisive(rules, k)
  {
    hide Satisfies;
    var f: Field :| f != CodeOwner && DiffersAt(live, rules[k], f);
    forall l | k < l < |rules| && rules[l].name == name ensures !Sets(rules[l], f) {
      if Sets(rules[l], f) {
        Agreement(q, live, rules[k], rules[l], f);
      }
    }
    assert AloneAt(rules, k, f);
  }

  /** A branch like q, except that field f is not what the rule asks for. */
  function Perturbed(q: Live, f: Field): Live {
    match f
    case Push => q.(push := [])
    case Merge => q.(merge := [])
    case Unprotect => q.(unprotect := [])
    case ForcePush => q.(forcePush := !q.forcePush)
    case CodeOwner => q
  }

  lemma PerturbedDiffers(q: Live, rule: Rule, f: Field)
    requires f != CodeOwner && Satisfies(q, rule)
    ensures Sets(rule, f) ==> Recreates(Perturbed(q, f), rule)
    ensures !Sets(rule, f) ==> Satisfies(Perturbed(q, f), rule)
  {
    if Sets(rule, f) {
      assert |multiset(Map(Triple, []))| == 0;
      assert DiffersAt(Perturbed(q, f), rule, f);
    }
  }

  /** On a project with the perturbed branch, a rule that sets the field alone has the last word. */
  lemma {:induction false} AloneWritesLast(rules: seq<Rule>, defaults: Live, listing: map<string, Live>, q: Live, k: nat, f: Field)
    requires k < |rules| && f != CodeOwner && Sets(rules[k], f)
    requires forall l :: k < l < |rules| && rules[l].name == rules[k].name ==> !Sets(rules[l], f)
    requires forall l :: k <= l < |rules| && rules[l].name == rules[k].name ==> Satisfies(q, rules[l])
    requires rules[k].name in listing && listing[rules[k].name] == Perturbed(q, f)
    ensures Listed(AfterRules(listing, rules, defaults), rules[k].name) == Some(Fresh(rules[k], defaults))
  {
    hide AfterRules, Satisfies, Perturbed, Fresh, Sets;
    var n, name := |rules| - 1, rules[k].name;
    LastRuleOnly(listing, rules, defaults, name);
    assert rules[n].name == name ==> Satisfies(q, rules[n]);
    if k < n {
      AloneWritesLast(rules[..n], defaults, listing, q, k, f);
      if rules[n].name == name {
        PerturbedDiffers(q, rules[n], f);
        UnchangedStays(listing[name], Fresh(rules[k], defaults), rules[n], defaults);
      }
    } else {
      PerturbedDiffers(q, rules[k], f);
      RecreatesExactly(listing[name], rules[k]);
      RecreatedIsFresh(listing[name], Listed(AfterRules(listing, rules[..n], defaults), name), rules[k], defaults);
    }
  }

  lemma UnchangedStays(live: Live, now: Live, rule: Rule, defaults: Live)
    requires Satisfies(live, rule)
    ensures AfterRule(Some(live), Some(now), rule, defaults) == Some(now)
  {
  }

  lemma RecreatedIsFresh(live: Live, now: Option<Live>, rule: Rule, defaults: Live)
    requires Differences(live, rule) != UNCHANGED && Differences(live, rule) != ONLY_CODE_OWNER
    ensures AfterRule(Some(live), now, rule, defaults) == Some(Fresh(rule, defaults))
  {
  }

  lemma ConvergingCooperates(rules: seq<Rule>, defaults: Live, k: nat, l: nat)
    requires forall branches :: Converges(rules, branches, defaults)
    requires k < |rules| && l < |rules| && rules[l].name == rules[k].name && Decisive(rules, k)
    ensures Satisfies(Fresh(rules[k], defaults), rules[l])
  {
    hide AfterRules, Satisfies, Fresh, Perturbed, Diffs;
    var name := rules[k].name;
    var last := FindLast(rules, name, k);
    var q := Fresh(rules[last], defaults);
    CreatedByLast(map[], rules, defaults, last);
    ConvergedIsSatisfied(rules, defaults, map[], name, q);
    if k != last {
      var f: Field :| f != CodeOwner && AloneAt(rules, k, f);
      var listing := map[name := Perturbed(q, f)];
      AloneWritesLast(rules, defaults, listing, q, k, f);
      ConvergedIsSatisfied(rules, defaults, listing, name, Fresh(rules[k], defaults));
    }
  }

  lemma ConvergedIsSatisfied(rules: seq<Rule>, defaults: Live, branches: map<string, Live>, name: string, now: Live)
    requires Converges(rules, branches, defaults)
    requires Listed(AfterRules(branches, rules, defaults), name) == Some(now)
    ensures AllSatisfied(now, rules, name)
  {
    hide AfterRules, Satisfies;
    var after := AfterRules(branches, rules, defaults);
    NoDiffs(after, rules);
    forall l | 0 <= l < |rules| && rules[l].name == name ensures Satisfies(now, rules[l]) {
      assert RuleDiff(after, rules[l]) == [];
      SatisfiedHasNoDiff(after, rules[l]);
    }
  }

  /** The program accepts several rules for one branch. For any list of rules, one Apply settles every
      project if and only if what each decisive rule creates satisfies all rules of its name. */
  lemma OneApplyConverges(rules: seq<Rule>, defaults: Live)
    ensures (forall branches :: Converges(rules, branches, defaults)) <==> Cooperate(rules, defaults)
  {
    hide Diffs, AfterRules, Decisive, Satisfies;
    if Cooperate(rules, defaults) {
      forall branches ensures Converges(rules, branches, defaults) {
        forall k | 0 <= k < |rules| ensures RuleDiff(AfterRules(branches, rules, defaults), rules[k]) == [] {
          CooperatingSettles(branches, rules, defaults, k);
        }
        NoDiffs(AfterRules(branches, rules, defaults), rules);
      }
    }
    if forall branches :: Converges(rules, branches, defaults) {
      forall k, l | 0 <= k < |rules| && 0 <= l < |rules| && rules[l].name == rules[k].name && Decisive(rules, k)
        ensures Satisfies(Fresh(rules[k], defaults), rules[l])
      {
        ConvergingCooperates(rules, defaults, k, l);
      }
    }
  }

  /** For distinct names that is: the rules' access lists hold no negative number. */
  lemma DistinctNamesConverge(rules: seq<Rule>, defaults: Live)
    requires DistinctNames(rules)
    ensures (forall branches :: Converges(rules, branches, defaults)) <==>
            (forall k :: 0 <= k < |rules| ==> Validated(rules[k]))
  {
    hide Converges, Satisfies, Validated;
    OneApplyConverges(rules, defaults);
    forall k | 0 <= k < |rules|
      ensures Satisfies(Fresh(rules[k], defaults), rules[k]) <==> Validated(rules[k])
      ensures Decisive(rules, k)
    {
      FreshSatisfies(rules[k], defaults);
      LastIsDecisive(rules, k);
    }
    if forall k :: 0 <= k < |rules| ==> Validated(rules[k]) {
      forall k, l | 0 <= k < |rules| && 0 <= l < |rules| && rules[l].name == rules[k].name && Decisive(rules, k)
        ensures Satisfies(Fresh(rules[k], defaults), rules[l])
      {
        assert k == l;
      }
    }
  }

  /** Two rules agree on every field both set. */
  ghost predicate Compatible(a: Rule, b: Rule) {
    && (a.push != [] && b.push != [] ==> SameAccess(a.push, b.push))
    && (a.merge != [] && b.merge != [] ==> SameAccess(a.merge, b.merge))
    && (a.unprotect != [] && b.unprotect != [] ==> SameAccess(a.unprotect, b.unprotect))
    && (a.forcePush.Some? && b.forcePush.Some? ==> a.forcePush == b.forcePush)
    && (a.codeOwner.Some? && b.codeOwner.Some? ==> a.codeOwner == b.codeOwner)
  }

  function Override(base: Live, rule: Rule): Live {
    Live(if rule.push != [] then rule.push else base.push,
         if rule.merge != [] then rule.merge else base.merge,
         if rule.unprotect != [] then rule.unprotect else base.unprotect,
         if rule.forcePush.Some? then rule.forcePush.value else base.forcePush,
         if rule.codeOwner.Some? then rule.codeOwner.value else base.codeOwner)
  }

  function Combined(rules: seq<Rule>): map<string, Live> {
    if rules == [] then map[]
    else
      var front, last := Combined(rules[..|rules| - 1]), rules[|rules| - 1];
      front[last.name := Override(if last.name in front then front[last.name] else Live([], [], [], false, false), last)]
  }

  lemma OverrideSatisfies(base: Live, rule: Rule, earlier: Rule)
    ensures Satisfies(Override(base, rule), rule)
    ensures Satisfies(base, earlier) && Compatible(earlier, rule) ==> Satisfies(Override(base, rule), earlier)
  {
  }

  lemma {:induction false} CombinedSatisfies(rules: seq<Rule>, k: nat)
    requires forall i, j :: 0 <= i < j < |rules| && rules[i].name == rules[j].name ==> Compatible(rules[i], rules[j])
    requires k < |rules|
    ensures rules[k].name in Combined(rules) && Satisfies(Combined(rules)[rules[k].name], rules[k])
  {
    hide Satisfies, Compatible, Override;
    var n := |rules| - 1;
    var front := Combined(rules[..n]);
    var base := if rules[n].name in front then front[rules[n].name] else Live([], [], [], false, false);
    if k < n {
      CombinedSatisfies(rules[..n], k);
      if rules[k].name == rules[n].name {
        OverrideSatisfies(base, rules[n], rules[k]);
      }
    } else {
      OverrideSatisfies(base, rules[n], rules[n]);
    }
  }

  /** Some state of the branches has an empty plan if and only if no two rules for one branch disagree
      on a field; otherwise no number of Applies settles any project. */
  lemma SatisfiableExactly(rules: seq<Rule>)
    ensures (exists branches :: Diffs(branches, rules) == []) <==>
            forall i, j :: 0 <= i < j < |rules| && rules[i].name == rules[j].name ==> Compatible(rules[i], rules[j])
  {
    hide Diffs;
    if branches :| Diffs(branches, rules) == [] {
      NoDiffs(branches, rules);
      forall i, j | 0 <= i < j < |rules| && rules[i].name == rules[j].name ensures Compatible(rules[i], rules[j]) {
        SatisfiedHasNoDiff(branches, rules[i]);
        SatisfiedHasNoDiff(branches, rules[j]);
      }
    }
    if forall i, j :: 0 <= i < j < |rules| && rules[i].name == rules[j].name ==> Compatible(rules[i], rules[j]) {
      forall k | 0 <= k < |rules| ensures RuleDiff(Combined(rules), rules[k]) == [] {
        CombinedSatisfies(rules, k);
        SatisfiedHasNoDiff(Combined(rules), rules[k]);
      }
      NoDiffs(Combined(rules), rules);
    }
  }

  /** For instance "main" declared twice, with different push levels, which is accepted. */
  lemma RepeatedBranchNeverSettles(branches: map<string, Live>)
    ensures var a := Rule("main", [Access(40, 0, 0, 0)], [], [], None, None);
            var b := Rule("main", [Access(30, 0, 0, 0)], [], [], None, None);
            Validated(a) && Validated(b) && Diffs(branches, [a, b]) != []
  {
    var a := Rule("main", [Access(40, 0, 0, 0)], [], [], None, None);
    var b := Rule("main", [Access(30, 0, 0, 0)], [], [], None, None);
    assert Map(Triple, a.push) == [(40, 0, 0)] && Map(Triple, b.push) == [(30, 0, 0)];
    assert (40, 0, 0) !in multiset([(30, 0, 0)]);
    assert !Compatible([a, b][0], [a, b][1]);
    SatisfiableExactly([a, b]);
  }

  // ---------------------------------------------------------------- deploy keys

  /** Nothing in the list is granted to a deploy key. */
  ghost predicate Keyless(list: seq<Access>) {
    forall k :: 0 <= k < |list| ==> list[k].deployKey == 0
  }

  ghost predicate KeylessLive(live: Live) {
    Keyless(live.push) && Keyless(live.merge) && Keyless(live.unprotect)
  }

  ghost predicate KeylessRule(rule: Rule) {
    Keyless(rule.push) && Keyless(rule.merge) && Keyless(rule.unprotect)
  }

  /** Every list the rule sets is the live one, deploy keys included. */
  ghost predicate Granted(live: Live, rule: Rule) {
    && (rule.push != [] ==> multiset(live.push) == multiset(rule.push))
    && (rule.merge != [] ==> multiset(live.merge) == multiset(rule.merge))
    && (rule.unprotect != [] ==> multiset(live.unprotect) == multiset(rule.unprotect))
  }

  function WithoutKey(t: (int, int, int)): Access {
    Access(t.0, t.1, t.2, 0)
  }

  function Stripped(list: seq<Access>): seq<Access> {
    Map(WithoutKey, Map(Triple, list))
  }

  lemma KeylessIsStripped(list: seq<Access>)
    ensures Keyless(Stripped(list)) && SameAccess(Stripped(list), list)
    ensures Keyless(list) ==> Stripped(list) == list
    ensures !Keyless(list) ==> multiset(Stripped(list)) != multiset(list)
  {
    assert Map(Triple, Stripped(list)) == Map(Triple, list);
    if k :| 0 <= k < |list| && list[k].deployKey != 0 {
      assert list[k] in multiset(list) && list[k] !in multiset(Stripped(list));
    }
  }

  lemma SameKeylessAccess(a: seq<Access>, b: seq<Access>)
    requires SameAccess(a, b) && Keyless(a) && Keyless(b)
    ensures multiset(a) == multiset(b)
  {
    hide Keyless, Stripped;
    KeylessIsStripped(a);
    KeylessIsStripped(b);
    ImageOfMultiset(WithoutKey, Map(Triple, a), Map(Triple, b));
    assert Stripped(a) == Map(WithoutKey, Map(Triple, a)) && Stripped(b) == Map(WithoutKey, Map(Triple, b)) by { StrippedIsMap(a); StrippedIsMap(b); }
  }

  lemma StrippedIsMap(list: seq<Access>)
    ensures Stripped(list) == Map(WithoutKey, Map(Triple, list))
  {
  }

  /** The comparison does not look at deploy keys. On branches without any, an empty plan means that the
      declared access is granted if and only if the rule names no deploy key either. */
  lemma EmptyPlanGrantsExactly(rule: Rule)
    ensures (forall live :: KeylessLive(live) && Satisfies(live, rule) ==> Granted(live, rule)) <==> KeylessRule(rule)
  {
    hide Keyless, SameAccess, Stripped;
    if KeylessRule(rule) {
      forall live | KeylessLive(live) && Satisfies(live, rule) ensures Granted(live, rule) {
        SatisfiedIsGranted(live, rule);
      }
    } else {
      var live := StrippedLive(rule);
      StrippedSatisfies(rule);
      assert KeylessLive(live) && Satisfies(live, rule) && !Granted(live, rule);
    }
  }

  lemma SatisfiedIsGranted(live: Live, rule: Rule)
    requires KeylessLive(live) && KeylessRule(rule) && Satisfies(live, rule)
    ensures Granted(live, rule)
  {
    hide Keyless, SameAccess;
    var c := Differences(live, rule);
    assert !c.push && !c.merge && !c.unprotect;
    if rule.push != [] { SameKeylessAccess(live.push, rule.push); }
    if rule.merge != [] { SameKeylessAccess(live.merge, rule.merge); }
    if rule.unprotect != [] { SameKeylessAccess(live.unprotect, rule.unprotect); }
  }

  function Or(flag: Option<bool>, otherwise: bool): bool {
    if flag.Some? then flag.value else otherwise
  }

  /** A branch that grants what the rule does, but not to its deploy keys. */
  function StrippedLive(rule: Rule): Live {
    Live(Stripped(rule.push), Stripped(rule.merge), Stripped(rule.unprotect),
         Or(rule.forcePush, false), Or(rule.codeOwner, false))
  }

  lemma StrippedSatisfies(rule: Rule)
    ensures KeylessLive(StrippedLive(rule)) && Satisfies(StrippedLive(rule), rule)
    ensures !KeylessRule(rule) ==> !Granted(StrippedLive(rule), rule)
  {
    KeylessIsStripped(rule.push);
    KeylessIsStripped(rule.merge);
    KeylessIsStripped(rule.unprotect);
    hide Stripped, SameAccess;
  }

  /** What the validator guarantees of the deploy keys. */
  ghost predicate KeysValidated(rule: Rule) {
    forall k ::
      && (0 <= k < |rule.push| ==> rule.push[k].deployKey >= 0)
      && (0 <= k < |rule.merge| ==> rule.merge[k].deployKey >= 0)
      && (0 <= k < |rule.unprotect| ==> rule.unprotect[k].deployKey >= 0)
  }

  /** One Apply of validated rules leaves the declared access, deploy keys included, on every project
      whose branches have no deploy keys, if and only if no rule names one: where nothing else differs,
      a declared deploy key is never granted. */
  lemma ApplyGrantsExactly(rules: seq<Rule>, defaults: Live)
    requires DistinctNames(rules) && forall k :: 0 <= k < |rules| ==> Validated(rules[k]) && KeysValidated(rules[k])
    ensures (forall listing, k :: KeylessBranches(listing) && 0 <= k < |rules| ==> GrantedAfter(listing, rules, defaults, k)) <==>
            forall k :: 0 <= k < |rules| ==> KeylessRule(rules[k])
  {
    hide Validated, KeysValidated, KeylessRule, KeylessLive, DistinctNames, AfterRules, Granted;
    if forall k :: 0 <= k < |rules| ==> KeylessRule(rules[k]) {
      forall listing, k | KeylessBranches(listing) && 0 <= k < |rules| ensures GrantedAfter(listing, rules, defaults, k) {
        KeylessRuleIsGranted(listing, rules, defaults, k);
      }
    }
    if k :| 0 <= k < |rules| && !KeylessRule(rules[k]) {
      var live := StrippedLive(rules[k]);
      var listing := map[rules[k].name := live];
      StrippedSatisfies(rules[k]);
      DeclaredSettled(listing, rules, defaults, k);
      UnchangedStays(live, live, rules[k], defaults);
      assert KeylessBranches(listing) && !GrantedAfter(listing, rules, defaults, k);
    }
  }

  ghost predicate KeylessBranches(listing: map<string, Live>) {
    forall name :: name in listing ==> KeylessLive(listing[name])
  }

  ghost predicate GrantedAfter(listing: map<string, Live>, rules: seq<Rule>, defaults: Live, k: nat)
    requires k < |rules|
  {
    var after := AfterRules(listing, rules, defaults);
    rules[k].name in after && Granted(after[rules[k].name], rules[k])
  }

  lemma KeylessRuleIsGranted(listing: map<string, Live>, rules: seq<Rule>, defaults: Live, k: nat)
    requires DistinctNames(rules) && k < |rules| && Validated(rules[k]) && KeysValidated(rules[k]) && KeylessRule(rules[k])
    requires KeylessBranches(listing)
    ensures GrantedAfter(listing, rules, defaults, k)
  {
    hide Validated, KeysValidated, KeylessRule, KeylessLive, DistinctNames, AfterRules, Granted, AfterRule;
    var rule := rules[k];
    DeclaredSettled(listing, rules, defaults, k);
    FreshIsGranted(rule, defaults);
    if rule.name in listing {
      var live := listing[rule.name];
      if Recreates(live, rule) {
        RecreatesExactly(live, rule);
        RecreatedIsFresh(live, Some(live), rule, defaults);
      } else {
        PatchedIsGranted(live, rule, defaults);
      }
    } else {
      CreatedIsFresh(rule, defaults);
    }
  }

  lemma CreatedIsFresh(rule: Rule, defaults: Live)
    ensures AfterRule(None, None, rule, defaults) == Some(Fresh(rule, defaults))
  {
  }

  lemma FreshIsGranted(rule: Rule, defaults: Live)
    requires Validated(rule) && KeysValidated(rule)
    ensures Granted(Fresh(rule, defaults), rule)
  {
    if rule.push != [] {
      StoredEntries(rule.push, true, defaults.push);
      assert Map(StoredAccess, rule.push) == rule.push;
    }
    if rule.merge != [] {
      StoredEntries(rule.merge, false, defaults.merge);
      assert Map(StoredAccess, rule.merge) == rule.merge;
    }
    if rule.unprotect != [] {
      StoredEntries(rule.unprotect, false, defaults.unprotect);
      assert Map(StoredAccess, rule.unprotect) == rule.unprotect;
    }
  }

  lemma PatchedIsGranted(live: Live, rule: Rule, defaults: Live)
    requires KeylessLive(live) && KeylessRule(rule) && !Recreates(live, rule)
    ensures var after := AfterRule(Some(live), Some(live), rule, defaults); after.Some? && Granted(after.value, rule)
  {
    hide KeylessLive, KeylessRule, AccessDiffers, Recreates;
    RecreatesExactly(live, rule);
    var patched := live.(codeOwner := Or(rule.codeOwner, live.codeOwner));
    assert KeylessLive(patched) by { KeysAside(live, patched.codeOwner); }
    assert Differences(patched, rule) == UNCHANGED;
    SatisfiedIsGranted(patched, rule);
    GrantsAside(live, rule, patched.codeOwner);
    if Differences(live, rule) == UNCHANGED {
      UnchangedStays(live, live, rule, defaults);
    }
  }

  lemma KeysAside(live: Live, flag: bool)
    ensures KeylessLive(live.(codeOwner := flag)) <==> KeylessLive(live)
  {
  }

  lemma GrantsAside(live: Live, rule: Rule, flag: bool)
    ensures Granted(live.(codeOwner := flag), rule) <==> Granted(live, rule)
  {
  }

  // ---------------------------------------------------------------- fields no rule sets

  /** Some rule for the branch sets the field. */
  ghost predicate SetByName(rules: seq<Rule>, name: string, field: Field) {
    exists k :: 0 <= k < |rules| && rules[k].name == name && Sets(rules[k], field)
  }

  /** Every field that no rule for the branch sets is as before. */
  ghost predicate UnsetKept(before: Live, after: Live, rules: seq<Rule>, name: string) {
    && (after.push == before.push || SetByName(rules, name, Push))
    && (after.merge == before.merge || SetByName(rules, name, Merge))
    && (after.unprotect == before.unprotect || SetByName(rules, name, Unprotect))
    && (after.forcePush == before.forcePush || SetByName(rules, name, ForcePush))
    && (after.codeOwner == before.codeOwner || SetByName(rules, name, CodeOwner))
  }

  ghost predicate RecreatedByName(live: Live, rules: seq<Rule>, name: string) {
    exists k :: 0 <= k < |rules| && rules[k].name == name && Recreates(live, rules[k])
  }

  /** For any rules, repeated names included, Apply keeps the fields no rule for a protected branch sets
      if and only if no rule for it differs in more than the code-owner flag, or the server's defaults
      happen to be the same: the PATCH path keeps them, the recreate path resets them. */
  lemma UnsetFieldsKeptExactly(listing: map<string, Live>, rules: seq<Rule>, defaults: Live, name: string)
    requires name in listing
    ensures var live, after := listing[name], AfterRules(listing, rules, defaults);
            && name in after
            && (UnsetKept(live, after[name], rules, name) <==>
                !RecreatedByName(live, rules, name) || UnsetKept(live, defaults, rules, name))
  {
    hide AfterRules, SetByName, RecreatedByName;
    TrackUnset(listing, rules, defaults, name, rules);
  }

  /** Until some rule recreates the branch those fields are the live ones, then the server's. */
  lemma {:induction false} TrackUnset(listing: map<string, Live>, rules: seq<Rule>, defaults: Live, name: string, all: seq<Rule>)
    requires name in listing && rules <= all
    ensures var after := AfterRules(listing, rules, defaults);
            && name in after
            && UnsetKept(if RecreatedByName(listing[name], rules, name) then defaults else listing[name], after[name], all, name)
  {
    if rules == [] {
      NothingApplied(listing, defaults);
    } else {
      hide AfterRules, SetByName, Recreates, UnsetKept;
      var n, live := |rules| - 1, listing[name];
      TrackUnset(listing, rules[..n], defaults, name, all);
      LastRuleOnly(listing, rules, defaults, name);
      RecreatedByLast(live, rules, name);
      if rules[n].name == name {
        assert all[n] == rules[n];
        var before := AfterRules(listing, rules[..n], defaults)[name];
        UnsetByRule(live, before, all, n, defaults);
        if !Recreates(live, rules[n]) {
          var after := AfterRule(Some(live), Some(before), rules[n], defaults).value;
          UnsetKeptTwice(if RecreatedByName(live, rules[..n], name) then defaults else live, before, after, all, name);
        }
      }
    }
  }

  lemma RecreatedByLast(live: Live, rules: seq<Rule>, name: string)
    requires rules != []
    ensures var n := |rules| - 1;
            RecreatedByName(live, rules, name) <==>
            RecreatedByName(live, rules[..n], name) || (rules[n].name == name && Recreates(live, rules[n]))
  {
    hide Recreates;
    if RecreatedByName(live, rules[..|rules| - 1], name) {
      var k :| 0 <= k < |rules| - 1 && rules[..|rules| - 1][k].name == name && Recreates(live, rules[..|rules| - 1][k]);
      assert rules[k].name == name;
    }
  }

  lemma UnsetByRule(live: Live, before: Live, rules: seq<Rule>, k: nat, defaults: Live)
    requires k < |rules|
    ensures var after := AfterRule(Some(live), Some(before), rules[k], defaults);
            && after.Some?
            && UnsetKept(if Recreates(live, rules[k]) then defaults else before, after.value, rules, rules[k].name)
  {
    hide Recreates, Fresh, AfterRule, SetByName;
    forall f: Field | Sets(rules[k], f) ensures SetByName(rules, rules[k].name, f) {
      SetByItself(rules, k, f);
    }
    TrackRule(live, before, rules[k], defaults, Or(rules[k].codeOwner, false));
    if Recreates(live, rules[k]) {
      FreshUnset(rules[k], defaults);
    } else if DiffersAt(live, rules[k], CodeOwner) {
      assert Sets(rules[k], CodeOwner);
    }
  }

  lemma SetByItself(rules: seq<Rule>, k: nat, f: Field)
    requires k < |rules| && Sets(rules[k], f)
    ensures SetByName(rules, rules[k].name, f)
  {
  }

  lemma FreshUnset(rule: Rule, defaults: Live)
    ensures var made := Fresh(rule, defaults);
            && (made.push == defaults.push || Sets(rule, Push)) && (made.merge == defaults.merge || Sets(rule, Merge))
            && (made.unprotect == defaults.unprotect || Sets(rule, Unprotect))
            && (made.forcePush == defaults.forcePush || Sets(rule, ForcePush))
            && (made.codeOwner == defaults.codeOwner || Sets(rule, CodeOwner))
  {
  }

  lemma UnsetKeptTwice(a: Live, b: Live, c: Live, rules: seq<Rule>, name: string)
    requires UnsetKept(b, c, rules, name)
    ensures UnsetKept(a, b, rules, name) ==> UnsetKept(a, c, rules, name)
  {
    hide SetByName;
  }

  /** A rule that only sets who may push resets who may merge. */
  lemma UnsetFieldIsReset()
    ensures var live := Live([Access(40, 0, 0, 0)], [Access(40, 0, 0, 0)], [], false, false);
            var defaults := Live([], [], [], false, false);
            var rule := Rule("main", [Access(30, 0, 0, 0)], [], [], None, None);
            var after := AfterRules(map["main" := live], [rule], defaults);
            "main" in after && after["main"].merge == [] && live.merge != []
  {
    var live := Live([Access(40, 0, 0, 0)], [Access(40, 0, 0, 0)], [], false, false);
    var defaults := Live([], [], [], false, false);
    var rule := Rule("main", [Access(30, 0, 0, 0)], [], [], None, None);
    assert Map(Triple, live.push) == [(40, 0, 0)] && Map(Triple, rule.push) == [(30, 0, 0)];
    assert (40, 0, 0) !in multiset([(30, 0, 0)]);
    assert Differences(live, rule).push;
    DeclaredSettled(map["main" := live], [rule], defaults, 0);
    RecreatedIsFresh(live, Some(live), rule, defaults);
  }
}
