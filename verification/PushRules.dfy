/** The push-rule reconciler (internal/governance/pushrules.go) against a project that stores what it
    is sent, and the field comparisons of internal/governance/diff.go. */
module PushRules {
  import opened Prelude

  /** The regular expressions of a push rule. */
  datatype Patterns = Patterns(authorEmail: string, branchName: string, commitMessage: string,
                               commitMessageNegative: string, fileName: string)

  datatype Live = Live(patterns: Patterns, maxFileSize: int, committerCheck: bool, memberCheck: bool, preventSecrets: bool,
                       denyDeleteTag: bool, rejectUnsigned: bool, rejectNonDco: bool)

  /** What a policy declares: an empty pattern and an absent value leave the live one alone. */
  datatype Config = Config(patterns: Patterns, maxFileSize: Option<int>, committerCheck: Option<bool>, memberCheck: Option<bool>,
                           preventSecrets: Option<bool>, denyDeleteTag: Option<bool>, rejectUnsigned: Option<bool>,
                           rejectNonDco: Option<bool>)

  const NO_PATTERNS := Patterns("", "", "", "", "")
  const EMPTY := Config(NO_PATTERNS, None, None, None, None, None, None, None)

  datatype Field =
    | AuthorEmail | BranchName | CommitMessage | CommitMessageNegative | FileName | MaxFileSize
    | CommitterCheck | MemberCheck | PreventSecrets | DenyDeleteTag | RejectUnsigned | RejectNonDco

  function CompareString(field: Field, live: string, desired: string): (r: seq<Field>)
    ensures r == if PatternSatisfied(live, desired) then [] else [field]
  {
    if desired == "" || live == desired then [] else [field]
  }

  /** CompareIntPtr and CompareBoolPtr. */
  function Compare<T(==)>(field: Field, live: T, desired: Option<T>): (r: seq<Field>)
    ensures r == if Satisfied(live, desired) then [] else [field]
  {
    if desired.None? || live == desired.value then [] else [field]
  }

  /** buildProjectUpdateDiff: the fields that differ, in the order they are listed. */
  function UpdateDiff(live: Live, c: Config): seq<Field> {
    PatternDiff(live, c) + ValueDiff(live, c)
  }

  function PatternDiff(live: Live, c: Config): seq<Field> {
    CompareString(AuthorEmail, live.patterns.authorEmail, c.patterns.authorEmail) +
    CompareString(BranchName, live.patterns.branchName, c.patterns.branchName) +
    CompareString(CommitMessage, live.patterns.commitMessage, c.patterns.commitMessage) +
    CompareString(CommitMessageNegative, live.patterns.commitMessageNegative, c.patterns.commitMessageNegative) +
    CompareString(FileName, live.patterns.fileName, c.patterns.fileName)
  }

  function ValueDiff(live: Live, c: Config): seq<Field> {
    Compare(MaxFileSize, live.maxFileSize, c.maxFileSize) +
    Compare(CommitterCheck, live.committerCheck, c.committerCheck) +
    Compare(MemberCheck, live.memberCheck, c.memberCheck) +
    Compare(PreventSecrets, live.preventSecrets, c.preventSecrets) +
    Compare(DenyDeleteTag, live.denyDeleteTag, c.denyDeleteTag) +
    Compare(RejectUnsigned, live.rejectUnsigned, c.rejectUnsigned) +
    Compare(RejectNonDco, live.rejectNonDco, c.rejectNonDco)
  }

  ghost predicate PatternSatisfied(live: string, desired: string) {
    desired == "" || live == desired
  }

  ghost predicate Satisfied<T>(live: T, desired: Option<T>) {
    desired.None? || live == desired.value
  }

  /** The live rule has every value the policy declares. */
  ghost predicate Complies(live: Live, c: Config) {
    && PatternSatisfied(live.patterns.authorEmail, c.patterns.authorEmail)
    && PatternSatisfied(live.patterns.branchName, c.patterns.branchName)
    && PatternSatisfied(live.patterns.commitMessage, c.patterns.commitMessage)
    && PatternSatisfied(live.patterns.commitMessageNegative, c.patterns.commitMessageNegative)
    && PatternSatisfied(live.patterns.fileName, c.patterns.fileName)
    && Satisfied(live.maxFileSize, c.maxFileSize)
    && Satisfied(live.committerCheck, c.committerCheck)
    && Satisfied(live.memberCheck, c.memberCheck)
    && Satisfied(live.preventSecrets, c.preventSecrets)
    && Satisfied(live.denyDeleteTag, c.denyDeleteTag)
    && Satisfied(live.rejectUnsigned, c.rejectUnsigned)
    && Satisfied(live.rejectNonDco, c.rejectNonDco)
  }

  /** A rule shows no difference exactly when it complies. */
  lemma NoDiffExactlyCompliant(live: Live, c: Config)
    ensures UpdateDiff(live, c) == [] <==> Complies(live, c)
  {
  }

  /** The live rule has the value the policy declares for this field. */
  ghost predicate Meets(live: Live, c: Config, field: Field) {
    match field
    case AuthorEmail => PatternSatisfied(live.patterns.authorEmail, c.patterns.authorEmail)
    case BranchName => PatternSatisfied(live.patterns.branchName, c.patterns.branchName)
    case CommitMessage => PatternSatisfied(live.patterns.commitMessage, c.patterns.commitMessage)
    case CommitMessageNegative => PatternSatisfied(live.patterns.commitMessageNegative, c.patterns.commitMessageNegative)
    case FileName => PatternSatisfied(live.patterns.fileName, c.patterns.fileName)
    case MaxFileSize => Satisfied(live.maxFileSize, c.maxFileSize)
    case CommitterCheck => Satisfied(live.committerCheck, c.committerCheck)
    case MemberCheck => Satisfied(live.memberCheck, c.memberCheck)
    case PreventSecrets => Satisfied(live.preventSecrets, c.preventSecrets)
    case DenyDeleteTag => Satisfied(live.denyDeleteTag, c.denyDeleteTag)
    case RejectUnsigned => Satisfied(live.rejectUnsigned, c.rejectUnsigned)
    case RejectNonDco => Satisfied(live.rejectNonDco, c.rejectNonDco)
  }

  /** Exactly the fields that do not have their declared value are listed. */
  lemma DiffListsExactly(live: Live, c: Config, field: Field)
    ensures field in UpdateDiff(live, c) <==> !Meets(live, c, field)
  {
    hide PatternSatisfied, Satisfied, CompareString, Compare, PatternDiff, ValueDiff;
    PatternsListed(live, c, field);
    ValuesListed(live, c, field);
  }

  lemma PatternsListed(live: Live, c: Config, field: Field)
    ensures field in PatternDiff(live, c) <==>
            field in {AuthorEmail, BranchName, CommitMessage, CommitMessageNegative, FileName} && !Meets(live, c, field)
  {
    hide PatternSatisfied, Satisfied, CompareString, Compare;
  }

  lemma ValuesListed(live: Live, c: Config, field: Field)
    ensures field in ValueDiff(live, c) <==>
            field !in {AuthorEmail, BranchName, CommitMessage, CommitMessageNegative, FileName} && !Meets(live, c, field)
  {
    hide PatternSatisfied, Satisfied, CompareString, Compare;
  }

  datatype Plan = Noop | Create | Update(fields: seq<Field>)

  /** Plan, on the rule the project has, if it has one. */
  function PlanFor(live: Option<Live>, policy: Option<Config>): Plan {
    if policy.None? then Noop
    else if live.None? then Create
    else
      var fields := UpdateDiff(live.value, policy.value);
      if fields == [] then Noop else Update(fields)
  }

  function Overwrite(live: string, desired: string): string {
    if desired == "" then live else desired
  }

  function Set<T>(live: T, desired: Option<T>): T {
    if desired.None? then live else desired.value
  }

  /** The server's reading of add and edit options: it changes what it is sent. */
  function Written(base: Live, c: Config): Live {
    Live(Patterns(Overwrite(base.patterns.authorEmail, c.patterns.authorEmail),
                  Overwrite(base.patterns.branchName, c.patterns.branchName),
                  Overwrite(base.patterns.commitMessage, c.patterns.commitMessage),
                  Overwrite(base.patterns.commitMessageNegative, c.patterns.commitMessageNegative),
                  Overwrite(base.patterns.fileName, c.patterns.fileName)),
         Set(base.maxFileSize, c.maxFileSize), Set(base.committerCheck, c.committerCheck),
         Set(base.memberCheck, c.memberCheck), Set(base.preventSecrets, c.preventSecrets),
         Set(base.denyDeleteTag, c.denyDeleteTag), Set(base.rejectUnsigned, c.rejectUnsigned),
         Set(base.rejectNonDco, c.rejectNonDco))
  }

  ghost predicate PatternKept(before: string, after: string, desired: string) {
    desired == "" ==> after == before
  }

  ghost predicate Kept<T>(before: T, after: T, desired: Option<T>) {
    desired.None? ==> after == before
  }

  /** Every value the policy does not declare is as before. */
  ghost predicate UndeclaredKept(before: Live, after: Live, c: Config) {
    && PatternKept(before.patterns.authorEmail, after.patterns.authorEmail, c.patterns.authorEmail)
    && PatternKept(before.patterns.branchName, after.patterns.branchName, c.patterns.branchName)
    && PatternKept(before.patterns.commitMessage, after.patterns.commitMessage, c.patterns.commitMessage)
    && PatternKept(before.patterns.commitMessageNegative, after.patterns.commitMessageNegative, c.patterns.commitMessageNegative)
    && PatternKept(before.patterns.fileName, after.patterns.fileName, c.patterns.fileName)
    && Kept(before.maxFileSize, after.maxFileSize, c.maxFileSize)
    && Kept(before.committerCheck, after.committerCheck, c.committerCheck)
    && Kept(before.memberCheck, after.memberCheck, c.memberCheck)
    && Kept(before.preventSecrets, after.preventSecrets, c.preventSecrets)
    && Kept(before.denyDeleteTag, after.denyDeleteTag, c.denyDeleteTag)
    && Kept(before.rejectUnsigned, after.rejectUnsigned, c.rejectUnsigned)
    && Kept(before.rejectNonDco, after.rejectNonDco, c.rejectNonDco)
  }

  class Project {
    var rule: Option<Live>
    const defaults: Live

    constructor (rule: Option<Live>, defaults: Live)
      ensures this.rule == rule && this.defaults == defaults
    {
      this.rule, this.defaults := rule, defaults;
    }

    /** AddProjectPushRule. */
    method Add(c: Config)
      modifies this
      ensures rule == Some(Written(defaults, c))
    {
      rule := Some(Written(defaults, c));
    }

    /** EditProjectPushRule. */
    method Edit(c: Config)
      requires rule.Some?
      modifies this
      ensures rule == Some(Written(old(rule).value, c))
    {
      rule := Some(Written(rule.value, c));
    }

    /** Apply: it reports what the plan announces, afterwards nothing is left to do, and a rule that
        was there keeps everything the policy does not declare. */
    method Apply(policy: Option<Config>) returns (done: Plan)
      modifies this
      ensures done == PlanFor(old(rule), policy)
      ensures PlanFor(rule, policy) == Noop
      ensures done == Noop ==> rule == old(rule)
      ensures policy.None? ==> rule == old(rule)
      ensures policy.Some? ==>
                && rule.Some? && Complies(rule.value, policy.value)
                && UndeclaredKept(if old(rule).Some? then old(rule).value else defaults, rule.value, policy.value)
    {
      if policy.None? {
        return Noop;
      }
      var c := policy.value;
      hide UpdateDiff, Written, Complies, UndeclaredKept;
      WrittenComplies(defaults, c);
      if rule.None? {
        Add(c);
        return Create;
      }
      var fields := UpdateDiff(rule.value, c);
      NoDiffExactlyCompliant(rule.value, c);
      KeepsItself(rule.value, c);
      if |fields| == 0 {
        return Noop;
      }
      WrittenComplies(rule.value, c);
      Edit(c);
      return Update(fields);
    }
  }

  lemma KeepsItself(live: Live, c: Config)
    ensures UndeclaredKept(live, live, c)
  {
  }

  lemma WrittenComplies(base: Live, c: Config)
    ensures UpdateDiff(Written(base, c), c) == []
    ensures Complies(Written(base, c), c) && UndeclaredKept(base, Written(base, c), c)
  {
    hide UpdateDiff;
    NoDiffExactlyCompliant(Written(base, c), c);
  }
}
