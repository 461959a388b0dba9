/** The CI/CD variable reconciler for projects (internal/governance/variables.go) against a GitLab
    project that stores what it is sent. */
module Variables {
  import opened Prelude
  import SortedKeys

  /** A variable's identity on the server: its key and its environment scope. */
  type Id = (string, string)

  datatype Fields = Fields(value: string, kind: string, masked: bool, protected: bool, raw: bool, description: string)

  type Vars = map<Id, Fields>

  /** A declared variable; an empty kind or description and a missing flag are unset. */
  datatype Decl = Decl(
    key: string, scope: string, value: string, kind: string,
    masked: Option<bool>, protected: Option<bool>, raw: Option<bool>, description: string)

  datatype Policy = Policy(decls: seq<Decl>, prune: bool)

  // ---------------------------------------------------------------- composite keys

  function DefaultScope(scope: string): string {
    if scope == "" then "*" else scope
  }

  /** varCompositeKey. */
  function CompositeKey(id: Id): string {
    Trim(id.0) + "::" + Trim(DefaultScope(id.1))
  }

  /** The composite key tells variables apart up to white space and the default scope, provided their
      keys hold no ':'. */
  lemma CompositeKeyInjective(a: Id, b: Id)
    requires ':' !in a.0 && ':' !in b.0
    ensures CompositeKey(a) == CompositeKey(b) <==>
            Trim(a.0) == Trim(b.0) && Trim(DefaultScope(a.1)) == Trim(DefaultScope(b.1))
  {
    hide Trim;
    TrimHasNoColon(a.0);
    TrimHasNoColon(b.0);
    CompositeKeyIsJoin(a);
    CompositeKeyIsJoin(b);
    var t, t' := Trim(DefaultScope(a.1)), Trim(DefaultScope(b.1));
    if CompositeKey(a) == CompositeKey(b) {
      SortedKeys.JoinInjective(Trim(a.0), ":" + t, Trim(b.0), ":" + t');
      assert (":" + t)[1..] == t && (":" + t')[1..] == t';
    }
  }

  lemma TrimHasNoColon(s: string)
    requires ':' !in s
    ensures ':' !in Trim(s)
  {
  }

  lemma CompositeKeyIsJoin(id: Id)
    ensures CompositeKey(id) == SortedKeys.Join(Trim(id.0), ":" + Trim(DefaultScope(id.1)))
  {
  }

  /** An identity GitLab stores: no ':' in the key, no white space around either part. */
  predicate CleanId(id: Id) {
    Trim(id.0) == id.0 && ':' !in id.0 && Trim(id.1) == id.1 && id.1 != ""
  }

  ghost predicate Clean(vars: Vars) {
    forall id :: id in vars ==> CleanId(id)
  }

  function IdOf(d: Decl): Id {
    (d.key, DefaultScope(d.scope))
  }

  // ---------------------------------------------------------------- requests

  function Or<T>(desired: Option<T>, otherwise: T): T {
    if desired.Some? then desired.value else otherwise
  }

  function OrText(desired: string, otherwise: string): string {
    if desired != "" then desired else otherwise
  }

  /** The server's variable after a create request: unset fields take its defaults. */
  function Created(d: Decl): Fields {
    Fields(d.value, OrText(d.kind, "env_var"), Or(d.masked, false), Or(d.protected, false), Or(d.raw, false), d.description)
  }

  /** The server's variable after an update request: unset fields stay. */
  function Updated(f: Fields, d: Decl): Fields {
    Fields(d.value, OrText(d.kind, f.kind), Or(d.masked, f.masked), Or(d.protected, f.protected), Or(d.raw, f.raw),
           OrText(d.description, f.description))
  }

  predicate FlagDiffers(live: bool, desired: Option<bool>) {
    desired.Some? && live != desired.value
  }

  /** diffProjectVariable: does the live variable differ in a field the declaration sets? */
  predicate Differs(f: Fields, d: Decl) {
    || f.value != d.value
    || (d.kind != "" && f.kind != d.kind)
    || FlagDiffers(f.protected, d.protected) || FlagDiffers(f.masked, d.masked) || FlagDiffers(f.raw, d.raw)
    || (d.description != "" && f.description != d.description)
  }

  /** A request brings a variable in line with its declaration, and changes it only if it differed. */
  lemma RequestsSatisfy(f: Fields, d: Decl)
    ensures !Differs(Created(d), d) && !Differs(Updated(f, d), d)
    ensures Updated(f, d) == f <==> !Differs(f, d)
  {
  }

  /** Every field the declaration does not set is as before. */
  ghost predicate UnsetKept(before: Fields, after: Fields, d: Decl) {
    && (d.kind == "" ==> after.kind == before.kind)
    && (d.masked == None ==> after.masked == before.masked)
    && (d.protected == None ==> after.protected == before.protected)
    && (d.raw == None ==> after.raw == before.raw)
    && (d.description == "" ==> after.description == before.description)
  }

  class Project {
    var vars: Vars

    constructor (vars: Vars)
      ensures this.vars == vars
    {
      this.vars := vars;
    }

    method Create(d: Decl)
      modifies this
      ensures vars == old(vars)[IdOf(d) := Created(d)]
    {
      vars := vars[IdOf(d) := Created(d)];
    }

    /** The update request names the variable by the declared key and scope; it fails when there is
        no such variable. */
    method Update(d: Decl) returns (ok: bool)
      modifies this
      ensures ok <==> IdOf(d) in old(vars)
      ensures vars == if ok then old(vars)[IdOf(d) := Updated(old(vars)[IdOf(d)], d)] else old(vars)
    {
      ok := IdOf(d) in vars;
      if ok {
        vars := vars[IdOf(d) := Updated(vars[IdOf(d)], d)];
      }
    }

    method Remove(id: Id)
      modifies this
      ensures vars == old(vars) - {id}
    {
      vars := vars - {id};
    }
  }

  // ---------------------------------------------------------------- plan

  /** Some listed variable has this key. */
  ghost predicate Found(key: Id -> string, vars: Vars, k: string) {
    exists id :: id in vars && key(id) == k
  }

  /** The key-indexed map of a listing: of the variables with one key it holds the one listed last. */
  ghost predicate Picks(key: Id -> string, vars: Vars, m: map<string, Id>) {
    && (forall k :: k in m ==> m[k] in vars && key(m[k]) == k)
    && (forall id :: id in vars ==> key(id) in m)
  }

  /** Indexing a listing, which may come in any order. */
  method LiveMap(key: Id -> string, vars: Vars) returns (m: map<string, Id>)
    ensures Picks(key, vars, m)
  {
    m := map[];
    var remaining := vars.Keys;
    while remaining != {}
      invariant remaining <= vars.Keys
      invariant forall k :: k in m ==> m[k] in vars && key(m[k]) == k
      invariant forall id :: id in vars.Keys - remaining ==> key(id) in m
      decreases |remaining|
    {
      var id :| id in remaining;
      remaining := remaining - {id};
      m := m[key(id) := id];
    }
  }

  ghost predicate Matched(key: Id -> string, decls: seq<Decl>, id: Id) {
    exists k :: 0 <= k < |decls| && key(IdOf(decls[k])) == key(id)
  }

  /** The variable picked for a declaration is as declared. */
  ghost predicate PickInSync(key: Id -> string, vars: Vars, m: map<string, Id>, d: Decl)
    requires Picks(key, vars, m)
  {
    key(IdOf(d)) in m && !Differs(vars[m[key(IdOf(d))]], d)
  }

  /** What Plan sees of a listing is in sync: every declared variable and, under prune, nothing else.
      An empty policy asks for nothing, pruning included. */
  ghost predicate SeenInSync(key: Id -> string, vars: Vars, m: map<string, Id>, p: Policy)
    requires Picks(key, vars, m)
  {
    && (forall k :: 0 <= k < |p.decls| ==> PickInSync(key, vars, m, p.decls[k]))
    && (p.prune && p.decls != [] ==> forall id :: id in vars ==> Matched(key, p.decls, id))
  }

  /** The declared variable is live, and all that is live under its key is as declared. */
  ghost predicate DeclInSync(key: Id -> string, vars: Vars, d: Decl) {
    && Found(key, vars, key(IdOf(d)))
    && forall id :: id in vars && key(id) == key(IdOf(d)) ==> !Differs(vars[id], d)
  }

  ghost predicate InSync(key: Id -> string, vars: Vars, p: Policy) {
    && (forall k :: 0 <= k < |p.decls| ==> DeclInSync(key, vars, p.decls[k]))
    && (p.prune && p.decls != [] ==> forall id :: id in vars ==> Matched(key, p.decls, id))
  }

  /** A project is in sync exactly when it is seen so in whatever order it is listed. */
  lemma InSyncInEveryOrder(key: Id -> string, vars: Vars, p: Policy)
    ensures InSync(key, vars, p) <==> forall m :: Picks(key, vars, m) ==> SeenInSync(key, vars, m, p)
  {
    hide Differs, Matched;
    forall m | InSync(key, vars, p) && Picks(key, vars, m) ensures SeenInSync(key, vars, m, p) {
      forall k | 0 <= k < |p.decls| ensures PickInSync(key, vars, m, p.decls[k]) {
        assert DeclInSync(key, vars, p.decls[k]);
      }
    }
    if forall m :: Picks(key, vars, m) ==> SeenInSync(key, vars, m, p) {
      var m := SomePick(key, vars);
      forall k | 0 <= k < |p.decls| ensures DeclInSync(key, vars, p.decls[k]) {
        var c := key(IdOf(p.decls[k]));
        assert PickInSync(key, vars, m, p.decls[k]);
        forall id | id in vars && key(id) == c ensures !Differs(vars[id], p.decls[k]) {
          assert Picks(key, vars, m[c := id]) && PickInSync(key, vars, m[c := id], p.decls[k]);
        }
      }
      assert SeenInSync(key, vars, m, p);
    }
  }

  lemma SomePick(key: Id -> string, vars: Vars) returns (m: map<string, Id>)
    ensures Picks(key, vars, m)
  {
    m := map k | k in KeysOf(key, vars) :: Holder(key, vars, k);
  }

  ghost function KeysOf(key: Id -> string, vars: Vars): set<string> {
    set id | id in vars :: key(id)
  }

  ghost function Holder(key: Id -> string, vars: Vars, k: string): Id
    requires k in KeysOf(key, vars)
  {
    var id :| id in vars && key(id) == k;
    id
  }

  /** No two listed variables share their key. */
  ghost predicate TellsApart(key: Id -> string, vars: Vars) {
    forall a, b :: a in vars && b in vars && key(a) == key(b) ==> a == b
  }

  /** Then the order of the listing does not matter. */
  lemma OneOrder(key: Id -> string, vars: Vars, m: map<string, Id>, p: Policy)
    requires Picks(key, vars, m) && TellsApart(key, vars)
    ensures SeenInSync(key, vars, m, p) <==> InSync(key, vars, p)
  {
    hide Differs, Matched;
    forall k | 0 <= k < |p.decls|
      ensures PickInSync(key, vars, m, p.decls[k]) <==> DeclInSync(key, vars, p.decls[k])
    {
      if id :| id in vars && key(id) == key(IdOf(p.decls[k])) {
        assert key(id) in m;
      }
    }
  }

  /** The keys of the first k declarations that are live. */
  ghost function LiveKeys(key: Id -> string, liveMap: map<string, Id>, decls: seq<Decl>, k: nat): set<string>
    requires k <= |decls|
  {
    set l | 0 <= l < k && key(IdOf(decls[l])) in liveMap :: key(IdOf(decls[l]))
  }

  lemma LiveKeysMatch(key: Id -> string, vars: Vars, liveMap: map<string, Id>, decls: seq<Decl>)
    requires Picks(key, vars, liveMap)
    ensures forall id :: id in vars ==> (key(id) in LiveKeys(key, liveMap, decls, |decls|) <==> Matched(key, decls, id))
  {
  }

  /** Plan's loop over the declarations. */
  method PlanDecls(key: Id -> string, vars: Vars, decls: seq<Decl>)
    returns (hasChanges: bool, matchedKeys: set<string>, ghost liveMap: map<string, Id>)
    ensures Picks(key, vars, liveMap)
    ensures hasChanges <==> exists k :: 0 <= k < |decls| && !PickInSync(key, vars, liveMap, decls[k])
    ensures forall id :: id in vars ==> (key(id) in matchedKeys <==> Matched(key, decls, id))
  {
    hasChanges, matchedKeys := false, {};
    var m := LiveMap(key, vars);
    for k := 0 to |decls|
      invariant hasChanges <==> exists l :: 0 <= l < k && !PickInSync(key, vars, m, decls[l])
      invariant matchedKeys == LiveKeys(key, m, decls, k)
    {
      var cKey := key(IdOf(decls[k]));
      if cKey !in m {
        hasChanges := true;
      } else {
        matchedKeys := matchedKeys + {cKey};
        if Differs(vars[m[cKey]], decls[k]) {
          hasChanges := true;
        }
      }
    }
    LiveKeysMatch(key, vars, m, decls);
    liveMap := m;
  }

  /** Plan's pruning loop. */
  method PlanPrune(key: Id -> string, vars: Vars, matchedKeys: set<string>) returns (hasChanges: bool)
    ensures hasChanges <==> exists id :: id in vars && key(id) !in matchedKeys
  {
    hasChanges := false;
    var remaining := vars.Keys;
    while remaining != {}
      invariant remaining <= vars.Keys
      invariant hasChanges <==> exists id :: id in vars.Keys - remaining && key(id) !in matchedKeys
      decreases |remaining|
    {
      var id :| id in remaining;
      remaining := remaining - {id};
      if key(id) !in matchedKeys {
        hasChanges := true;
      }
    }
  }

  /** Plan: does anything seen differ?  (The diff texts are not modelled.) */
  method Plan(key: Id -> string, vars: Vars, p: Policy) returns (hasChanges: bool, ghost seen: map<string, Id>)
    ensures Picks(key, vars, seen) && (hasChanges <==> !SeenInSync(key, vars, seen, p))
    ensures InSync(key, vars, p) ==> !hasChanges
    ensures TellsApart(key, vars) ==> (hasChanges <==> !InSync(key, vars, p))
  {
    hide PickInSync, DeclInSync, Matched, TellsApart, Picks;
    if |p.decls| == 0 {
      seen := SomePick(key, vars);
      return false, seen;
    }
    var matchedKeys;
    hasChanges, matchedKeys, seen := PlanDecls(key, vars, p.decls);
    if p.prune {
      var pruned := PlanPrune(key, vars, matchedKeys);
      hasChanges := hasChanges || pruned;
    }
    InSyncInEveryOrder(key, vars, p);
    if TellsApart(key, vars) {
      OneOrder(key, vars, seen, p);
    }
  }

  // ---------------------------------------------------------------- apply

  /** How far an Apply got: all requests done, or one failed on the way. */
  datatype Progress = Done(vars: Vars) | Failed(vars: Vars)

  /** Create what the listing lacks, update the rest. */
  function Request(found: bool, current: Vars, d: Decl): Progress {
    if !found then Done(current[IdOf(d) := Created(d)])
    else if IdOf(d) in current then Done(current[IdOf(d) := Updated(current[IdOf(d)], d)])
    else Failed(current)
  }

  /** The variables after the declarations' requests, decided on the listing. */
  ghost function AfterDecls(key: Id -> string, listing: Vars, decls: seq<Decl>): Progress {
    if decls == [] then Done(listing)
    else
      var front := AfterDecls(key, listing, decls[..|decls| - 1]);
      if front.Failed? then front
      else Request(Found(key, listing, key(IdOf(decls[|decls| - 1]))), front.vars, decls[|decls| - 1])
  }

  ghost function Unmanaged(key: Id -> string, listing: Vars, p: Policy): set<Id> {
    if p.prune then set id | id in listing && !Matched(key, p.decls, id) else {}
  }

  /** Apply plans first, and ends when the plan, for the order `seen`, shows nothing. */
  ghost function AfterApply(key: Id -> string, vars: Vars, seen: map<string, Id>, p: Policy): Progress
    requires Picks(key, vars, seen)
  {
    if p.decls == [] || SeenInSync(key, vars, seen, p) then Done(vars)
    else
      var after := AfterDecls(key, vars, p.decls);
      if after.Failed? then after else Done(after.vars - Unmanaged(key, vars, p))
  }

  /** The request Apply's loop makes for one declaration. */
  method ApplyDecl(project: Project, found: bool, d: Decl) returns (ok: bool)
    modifies project
    ensures (if ok then Done(project.vars) else Failed(project.vars)) == Request(found, old(project.vars), d)
  {
    if !found {
      project.Create(d);
      ok := true;
    } else {
      ok := project.Update(d);
    }
  }

  /** Apply's loop over the declarations; the first failing request ends it. */
  method ApplyDecls(key: Id -> string, project: Project, listing: Vars, decls: seq<Decl>)
    returns (ok: bool, matchedKeys: set<string>)
    requires project.vars == listing
    modifies project
    ensures (if ok then Done(project.vars) else Failed(project.vars)) == AfterDecls(key, listing, decls)
    ensures ok ==> forall id :: id in listing ==> (key(id) in matchedKeys <==> Matched(key, decls, id))
  {
    hide AfterDecls, Request, Matched, Found;
    NothingApplied(key, listing);
    var liveMap := LiveMap(key, listing);
    ok, matchedKeys := true, {};
    ghost var progress := Done(listing);
    for k := 0 to |decls|
      invariant ok && progress == Done(project.vars) && progress == AfterDecls(key, listing, decls[..k])
      invariant matchedKeys == LiveKeys(key, liveMap, decls, k)
    {
      var cKey := key(IdOf(decls[k]));
      progress := AfterDeclsStep(key, listing, liveMap, decls, k, progress);
      ok := ApplyDecl(project, cKey in liveMap, decls[k]);
      if !ok {
        FailureStays(key, listing, decls, k + 1);
        return;
      }
      if cKey in liveMap {
        matchedKeys := matchedKeys + {cKey};
      }
    }
    assert decls[..|decls|] == decls;
    LiveKeysMatch(key, listing, liveMap, decls);
  }

  lemma NothingApplied(key: Id -> string, listing: Vars)
    ensures AfterDecls(key, listing, []) == Done(listing)
  {
  }

  lemma AfterDeclsStep(key: Id -> string, listing: Vars, liveMap: map<string, Id>, decls: seq<Decl>, k: nat, progress: Progress)
    returns (next: Progress)
    requires k < |decls| && progress.Done? && progress == AfterDecls(key, listing, decls[..k])
    requires Picks(key, listing, liveMap)
    ensures next == Request(key(IdOf(decls[k])) in liveMap, progress.vars, decls[k])
    ensures next == AfterDecls(key, listing, decls[..k + 1])
  {
    assert decls[..k + 1][..k] == decls[..k];
    assert key(IdOf(decls[k])) in liveMap <==> Found(key, listing, key(IdOf(decls[k])));
    next := AfterDecls(key, listing, decls[..k + 1]);
  }

  lemma {:induction false} FailureStays(key: Id -> string, listing: Vars, decls: seq<Decl>, k: nat)
    requires k <= |decls| && AfterDecls(key, listing, decls[..k]).Failed?
    ensures AfterDecls(key, listing, decls) == AfterDecls(key, listing, decls[..k])
    decreases |decls| - k
  {
    if k == |decls| {
      assert decls[..k] == decls;
    } else {
      assert decls[..k + 1][..k] == decls[..k];
      FailureStays(key, listing, decls, k + 1);
    }
  }

  /** Apply's pruning loop over the listing taken at its start. */
  method ApplyPrune(key: Id -> string, project: Project, listing: Vars, ghost p: Policy, matchedKeys: set<string>)
    requires p.prune && forall id :: id in listing ==> (key(id) in matchedKeys <==> Matched(key, p.decls, id))
    modifies project
    ensures project.vars == old(project.vars) - Unmanaged(key, listing, p)
  {
    ghost var unmanaged := Unmanaged(key, listing, p);
    var remaining := listing.Keys;
    while remaining != {}
      invariant remaining <= listing.Keys
      invariant project.vars == old(project.vars) - (unmanaged - remaining)
      decreases |remaining|
    {
      var id :| id in remaining;
      if key(id) !in matchedKeys {
        project.Remove(id);
      }
      remaining := remaining - {id};
    }
    assert unmanaged - {} == unmanaged;
  }

  /** Apply. */
  method Apply(key: Id -> string, project: Project, p: Policy) returns (ok: bool, ghost seen: map<string, Id>)
    modifies project
    ensures Picks(key, old(project.vars), seen)
    ensures (if ok then Done(project.vars) else Failed(project.vars)) == AfterApply(key, old(project.vars), seen, p)
  {
    hide Picks, SeenInSync, InSync, AfterDecls, TellsApart;
    var listing := project.vars;
    var hasChanges;
    hasChanges, seen := Plan(key, listing, p);
    if |p.decls| == 0 || !hasChanges {
      return true, seen;
    }
    var matchedKeys;
    ok, matchedKeys := ApplyDecls(key, project, listing, p.decls);
    if !ok {
      return;
    }
    if p.prune {
      ApplyPrune(key, project, listing, p, matchedKeys);
    } else {
      assert project.vars - {} == project.vars;
    }
  }

  // ---------------------------------------------------------------- convergence

  ghost predicate DistinctIds(decls: seq<Decl>) {
    forall k, l :: 0 <= k < l < |decls| ==> IdOf(decls[k]) != IdOf(decls[l])
  }

  ghost predicate DeclaredId(decls: seq<Decl>, id: Id) {
    exists k :: 0 <= k < |decls| && IdOf(decls[k]) == id
  }

  ghost function Lookup(vars: Vars, id: Id): Option<Fields> {
    if id in vars then Some(vars[id]) else None
  }

  /** What the requests leave of a declared variable. */
  function Settled(listing: Vars, d: Decl): Fields {
    if IdOf(d) in listing then Updated(listing[IdOf(d)], d) else Created(d)
  }

  lemma SettledIsInSync(listing: Vars, d: Decl)
    ensures !Differs(Settled(listing, d), d)
  {
    RequestsSatisfy(if IdOf(d) in listing then listing[IdOf(d)] else Created(d), d);
  }

  /** Every declaration that is found under its key is stored under its own name. */
  ghost predicate Stored(key: Id -> string, vars: Vars, decls: seq<Decl>) {
    forall k :: 0 <= k < |decls| && Found(key, vars, key(IdOf(decls[k]))) ==> IdOf(decls[k]) in vars
  }

  /** Whatever shares the key of a declaration agrees with it: the other declarations, as their
      requests leave them, and the listed variables that no request names. */
  ghost predicate Agreeing(key: Id -> string, vars: Vars, decls: seq<Decl>) {
    && (forall k, l :: 0 <= k < |decls| && 0 <= l < |decls| && key(IdOf(decls[k])) == key(IdOf(decls[l])) ==>
          !Differs(Settled(vars, decls[l]), decls[k]))
    && (forall k, id :: 0 <= k < |decls| && id in vars && !DeclaredId(decls, id) && key(id) == key(IdOf(decls[k])) ==>
          !Differs(vars[id], decls[k]))
  }

  /** One Apply completes and leaves the project in sync. */
  ghost predicate Settles(key: Id -> string, vars: Vars, seen: map<string, Id>, p: Policy)
    requires Picks(key, vars, seen)
  {
    var after := AfterApply(key, vars, seen, p);
    after.Done? && InSync(key, after.vars, p)
  }

  /** When that is so. */
  ghost predicate InOrder(key: Id -> string, vars: Vars, seen: map<string, Id>, p: Policy)
    requires Picks(key, vars, seen)
  {
    if SeenInSync(key, vars, seen, p) then InSync(key, vars, p)
    else Stored(key, vars, p.decls) && Agreeing(key, vars, p.decls)
  }

  lemma InitStored(key: Id -> string, listing: Vars, decls: seq<Decl>)
    requires DistinctIds(decls) && Stored(key, listing, decls) && decls != []
    ensures var n := |decls| - 1;
            && DistinctIds(decls[..n]) && Stored(key, listing, decls[..n])
            && (forall k :: 0 <= k < n ==> decls[..n][k] == decls[k] && IdOf(decls[k]) != IdOf(decls[n]))
            && (Found(key, listing, key(IdOf(decls[n]))) <==> IdOf(decls[n]) in listing)
  {
    hide Found;
    var n := |decls| - 1;
    if IdOf(decls[n]) in listing {
      FoundIfListed(key, listing, IdOf(decls[n]));
    }
  }

  lemma FoundIfListed(key: Id -> string, listing: Vars, id: Id)
    requires id in listing
    ensures Found(key, listing, key(id))
  {
  }

  /** The requests for declarations so stored succeed; undeclared variables stay, and each declared
      one gets its request. */
  lemma {:induction false} RequestsSettle(key: Id -> string, listing: Vars, decls: seq<Decl>, id: Id)
    requires DistinctIds(decls) && Stored(key, listing, decls)
    ensures var after := AfterDecls(key, listing, decls);
            && after.Done? && listing.Keys <= after.vars.Keys
            && ((forall k :: 0 <= k < |decls| ==> IdOf(decls[k]) != id) ==> Lookup(after.vars, id) == Lookup(listing, id))
            && (forall k :: 0 <= k < |decls| && IdOf(decls[k]) == id ==> Lookup(after.vars, id) == Some(Settled(listing, decls[k])))
  {
    if decls != [] {
      hide Updated, Created, Found, Stored, DistinctIds;
      InitStored(key, listing, decls);
      RequestsSettle(key, listing, decls[..|decls| - 1], id);
    }
  }

  lemma UpdateFails(key: Id -> string, listing: Vars, decls: seq<Decl>, k: nat)
    requires DistinctIds(decls) && k < |decls|
    requires Found(key, listing, key(IdOf(decls[k]))) && IdOf(decls[k]) !in listing
    ensures AfterDecls(key, listing, decls).Failed?
  {
    hide Found, Updated, Created;
    var front := decls[..k];
    assert decls[..k + 1][..k] == front;
    if AfterDecls(key, listing, front).Done? {
      RequestsAddDeclared(key, listing, front);
      assert !DeclaredId(front, IdOf(decls[k]));
    }
    assert AfterDecls(key, listing, decls[..k + 1]).Failed?;
    FailureStays(key, listing, decls, k + 1);
  }

  /** The requests succeed exactly for declarations so stored. */
  lemma RequestsSucceedExactly(key: Id -> string, listing: Vars, decls: seq<Decl>)
    requires DistinctIds(decls)
    ensures AfterDecls(key, listing, decls).Done? <==> Stored(key, listing, decls)
  {
    hide AfterDecls, Found, DistinctIds;
    if Stored(key, listing, decls) {
      RequestsSettle(key, listing, decls, ("", ""));
    } else {
      var k :| 0 <= k < |decls| && Found(key, listing, key(IdOf(decls[k]))) && IdOf(decls[k]) !in listing;
      UpdateFails(key, listing, decls, k);
    }
  }

  /** What is left under a variable's name by an Apply that sends requests. */
  lemma AfterApplyAt(key: Id -> string, vars: Vars, seen: map<string, Id>, p: Policy, id: Id)
    requires DistinctIds(p.decls) && Stored(key, vars, p.decls)
    requires Picks(key, vars, seen) && !SeenInSync(key, vars, seen, p)
    ensures var after := AfterApply(key, vars, seen, p);
            && after.Done?
            && (forall k :: 0 <= k < |p.decls| && IdOf(p.decls[k]) == id ==> Lookup(after.vars, id) == Some(Settled(vars, p.decls[k])))
            && (!DeclaredId(p.decls, id) ==>
                  Lookup(after.vars, id) == if p.prune && id in vars && !Matched(key, p.decls, id) then None else Lookup(vars, id))
  {
    hide AfterDecls, Updated, Created, Stored, DistinctIds, Picks;
    assert p.decls != [];
    RequestsSettle(key, vars, p.decls, id);
    forall k | 0 <= k < |p.decls| && IdOf(p.decls[k]) == id ensures id !in Unmanaged(key, vars, p) {
      assert Matched(key, p.decls, id);
    }
  }

  /** After such an Apply the project is in sync exactly when everything agrees. */
  lemma AfterRequestsInSync(key: Id -> string, vars: Vars, seen: map<string, Id>, p: Policy)
    requires DistinctIds(p.decls) && Stored(key, vars, p.decls)
    requires Picks(key, vars, seen) && !SeenInSync(key, vars, seen, p)
    ensures var after := AfterApply(key, vars, seen, p); after.Done? && (InSync(key, after.vars, p) <==> Agreeing(key, vars, p.decls))
  {
    hide AfterApply, Differs, Settled, Stored, DistinctIds, SeenInSync, Picks;
    AfterApplyAt(key, vars, seen, p, ("", ""));
    var after := AfterApply(key, vars, seen, p).vars;
    if Agreeing(key, vars, p.decls) {
      AgreementSyncs(key, vars, seen, p);
    }
    if InSync(key, after, p) {
      forall k, l | 0 <= k < |p.decls| && 0 <= l < |p.decls| && key(IdOf(p.decls[k])) == key(IdOf(p.decls[l]))
        ensures !Differs(Settled(vars, p.decls[l]), p.decls[k])
      {
        AfterApplyAt(key, vars, seen, p, IdOf(p.decls[l]));
        assert DeclInSync(key, after, p.decls[k]);
      }
      forall k, id | 0 <= k < |p.decls| && id in vars && !DeclaredId(p.decls, id) && key(id) == key(IdOf(p.decls[k]))
        ensures !Differs(vars[id], p.decls[k])
      {
        AfterApplyAt(key, vars, seen, p, id);
        assert Matched(key, p.decls, id);
        assert DeclInSync(key, after, p.decls[k]);
      }
    }
  }

  lemma AgreementSyncs(key: Id -> string, vars: Vars, seen: map<string, Id>, p: Policy)
    requires DistinctIds(p.decls) && Stored(key, vars, p.decls)
    requires Picks(key, vars, seen) && !SeenInSync(key, vars, seen, p) && Agreeing(key, vars, p.decls)
    ensures var after := AfterApply(key, vars, seen, p); after.Done? && InSync(key, after.vars, p)
  {
    hide AfterApply, Differs, Settled, Stored, DistinctIds, SeenInSync, Picks;
    AfterApplyAt(key, vars, seen, p, ("", ""));
    var after := AfterApply(key, vars, seen, p).vars;
    forall k | 0 <= k < |p.decls| ensures DeclInSync(key, after, p.decls[k]) {
      AfterApplyAt(key, vars, seen, p, IdOf(p.decls[k]));
      FoundIfListed(key, after, IdOf(p.decls[k]));
      forall id | id in after && key(id) == key(IdOf(p.decls[k])) ensures !Differs(after[id], p.decls[k]) {
        AfterApplyAt(key, vars, seen, p, id);
      }
    }
    forall id | id in after ensures p.prune ==> Matched(key, p.decls, id) {
      AfterApplyAt(key, vars, seen, p, id);
      if DeclaredId(p.decls, id) {
        var k :| 0 <= k < |p.decls| && IdOf(p.decls[k]) == id;
        assert key(IdOf(p.decls[k])) == key(id);
      }
    }
  }

  /** For any project, any order of its listing and any policy without duplicates, one Apply completes
      and leaves the project in sync if and only if either nothing was out of sync, or Plan sees that
      something is, every declaration that is found is stored under its own name, and what shares a
      key agrees. */
  lemma SettlesExactly(key: Id -> string, vars: Vars, seen: map<string, Id>, p: Policy)
    requires DistinctIds(p.decls) && Picks(key, vars, seen)
    ensures Settles(key, vars, seen, p) <==> InOrder(key, vars, seen, p)
  {
    if !SeenInSync(key, vars, seen, p) {
      hide AfterDecls, InSync, Agreeing, Stored, SeenInSync, DistinctIds, Picks;
      RequestsSucceedExactly(key, vars, p.decls);
      if Stored(key, vars, p.decls) {
        AfterRequestsInSync(key, vars, seen, p);
      } else {
        assert p.decls != [] by { NothingIsStored(key, vars); }
      }
    }
  }

  lemma NothingIsStored(key: Id -> string, vars: Vars)
    ensures Stored(key, vars, [])
  {
  }

  /** And then each declared variable is updated field by field or created, and the others stay unless
      they are pruned. */
  lemma OneApplyConverges(key: Id -> string, vars: Vars, seen: map<string, Id>, p: Policy, id: Id)
    requires DistinctIds(p.decls) && Picks(key, vars, seen) && InOrder(key, vars, seen, p)
    ensures var after := AfterApply(key, vars, seen, p);
            && after.Done? && InSync(key, after.vars, p)
            && (SeenInSync(key, vars, seen, p) ==> after.vars == vars)
            && (!SeenInSync(key, vars, seen, p) ==>
                 && (forall k :: 0 <= k < |p.decls| && IdOf(p.decls[k]) == id ==>
                       Lookup(after.vars, id) == Some(Settled(vars, p.decls[k])))
                 && (!DeclaredId(p.decls, id) ==>
                       Lookup(after.vars, id) == if p.prune && id in vars && !Matched(key, p.decls, id) then None else Lookup(vars, id)))
  {
    hide AfterDecls, InSync, Agreeing, Stored, DistinctIds, Picks, Settled;
    SettlesExactly(key, vars, seen, p);
    if !SeenInSync(key, vars, seen, p) {
      AfterApplyAt(key, vars, seen, p, id);
    }
  }

  /** Such an Apply and then a Plan, which finds nothing in whatever order the variables are listed. */
  method ApplyThenPlan(key: Id -> string, project: Project, p: Policy)
    returns (ok: bool, hasChanges: bool, ghost seen: map<string, Id>)
    requires DistinctIds(p.decls)
    modifies project
    ensures Picks(key, old(project.vars), seen)
    ensures InOrder(key, old(project.vars), seen, p) ==> ok && !hasChanges
  {
    hide InSync, InOrder, AfterApply, Picks;
    ok, seen := Apply(key, project, p);
    SettlesExactly(key, old(project.vars), seen, p);
    ghost var later;
    hasChanges, later := Plan(key, project.vars, p);
  }

  // ---------------------------------------------------------------- trimmed listings

  /** A scope of white space only, which no stored variable has. */
  predicate BlankId(id: Id) {
    Trim(id.0) == id.0 && ':' !in id.0 && id.1 != "" && Trim(id.1) == ""
  }

  predicate BlankPair(a: Decl, b: Decl) {
    a.key == b.key && BlankId(IdOf(a)) && BlankId(IdOf(b))
  }

  /** Declarations with a blank scope for one key are created side by side under one composite key. */
  ghost predicate BlanksAgree(decls: seq<Decl>) {
    forall i, j :: 0 <= i < |decls| && 0 <= j < |decls| && BlankPair(decls[i], decls[j]) ==>
      !Differs(Created(decls[i]), decls[j])
  }

  /** A stored variable shares its key with no other stored or declared one, and a blank scope
      shares its key with blank scopes of the same variable only. */
  ghost predicate TellsCleanApart(key: Id -> string) {
    && (forall a, b :: CleanId(a) && (CleanId(b) || BlankId(b)) && key(a) == key(b) ==> a == b)
    && (forall a, b :: BlankId(a) && BlankId(b) ==> (key(a) == key(b) <==> a.0 == b.0))
  }

  lemma CompositeKeyTellsCleanApart()
    ensures TellsCleanApart(CompositeKey)
  {
    forall a, b | CleanId(a) && (CleanId(b) || BlankId(b)) && CompositeKey(a) == CompositeKey(b) ensures a == b {
      CompositeKeyInjective(a, b);
    }
    forall a, b | BlankId(a) && BlankId(b) ensures CompositeKey(a) == CompositeKey(b) <==> a.0 == b.0 {
      CompositeKeyInjective(a, b);
    }
  }

  /** Every scope is trimmed, or white space throughout and then in agreement with the others. */
  ghost predicate ScopesInOrder(decls: seq<Decl>) {
    && (forall k :: 0 <= k < |decls| ==> CleanId(IdOf(decls[k])) || BlankId(IdOf(decls[k])))
    && BlanksAgree(decls)
  }

  /** On a project whose stored scopes are trimmed, such declarations are in order. */
  lemma CleanIsInOrder(key: Id -> string, vars: Vars, seen: map<string, Id>, p: Policy)
    requires TellsCleanApart(key) && Clean(vars) && Picks(key, vars, seen)
    requires DistinctIds(p.decls) && ScopesInOrder(p.decls)
    ensures InOrder(key, vars, seen, p)
  {
    hide CleanId, BlankId, Differs, Created, Updated, InSync, SeenInSync, Picks;
    assert TellsApart(key, vars);
    OneOrder(key, vars, seen, p);
    forall k, l | 0 <= k < |p.decls| && 0 <= l < |p.decls| && key(IdOf(p.decls[k])) == key(IdOf(p.decls[l]))
      ensures !Differs(Settled(vars, p.decls[l]), p.decls[k])
    {
      CleanAgrees(key, vars, p.decls, k, l);
    }
  }

  lemma CleanAgrees(key: Id -> string, vars: Vars, decls: seq<Decl>, k: nat, l: nat)
    requires TellsCleanApart(key) && Clean(vars) && DistinctIds(decls) && ScopesInOrder(decls)
    requires k < |decls| && l < |decls| && key(IdOf(decls[k])) == key(IdOf(decls[l]))
    ensures !Differs(Settled(vars, decls[l]), decls[k])
  {
    hide Differs, Created, Updated;
    SettledIsInSync(vars, decls[k]);
    if k != l {
      assert BlankPair(decls[l], decls[k]);
    }
  }

  // ---------------------------------------------------------------- what an Apply leaves alone

  /** What the requests do to a listed variable that one declaration names: nothing, or its update. */
  lemma {:induction false} RequestsUpdateOnce(key: Id -> string, listing: Vars, decls: seq<Decl>, id: Id)
    requires DistinctIds(decls) && id in listing
    ensures var after := AfterDecls(key, listing, decls).vars;
            && id in after
            && (after[id] == listing[id] || exists k :: 0 <= k < |decls| && IdOf(decls[k]) == id && after[id] == Updated(listing[id], decls[k]))
    ensures (forall k :: 0 <= k < |decls| ==> IdOf(decls[k]) != id) ==> AfterDecls(key, listing, decls).vars[id] == listing[id]
  {
    if decls != [] {
      hide Updated, Created, Found;
      var n := |decls| - 1;
      var front := decls[..n];
      assert forall k :: 0 <= k < n ==> front[k] == decls[k];
      RequestsUpdateOnce(key, listing, front, id);
      if IdOf(decls[n]) == id {
        assert forall k :: 0 <= k < n ==> IdOf(front[k]) != id;
        assert Found(key, listing, key(id)) by { FoundIfListed(key, listing, id); }
      } else {
        assert AfterDecls(key, listing, decls).vars[id] == AfterDecls(key, listing, front).vars[id];
      }
    }
  }

  /** An Apply, completed or stopped at a failing request, keeps every field that the declaration of a
      variable leaves unset, and keeps everything when the project is already in sync. */
  lemma UnsetFieldsPreserved(key: Id -> string, vars: Vars, seen: map<string, Id>, p: Policy, k: nat)
    requires DistinctIds(p.decls) && k < |p.decls| && IdOf(p.decls[k]) in vars && Picks(key, vars, seen)
    ensures var id, after := IdOf(p.decls[k]), AfterApply(key, vars, seen, p).vars;
            id in after && UnsetKept(vars[id], after[id], p.decls[k])
    ensures InSync(key, vars, p) ==> AfterApply(key, vars, seen, p) == Done(vars)
  {
    hide InSync, SeenInSync, AfterDecls, Picks;
    InSyncInEveryOrder(key, vars, p);
    var id := IdOf(p.decls[k]);
    RequestsUpdateOnce(key, vars, p.decls, id);
    assert Matched(key, p.decls, id);
    var after := AfterDecls(key, vars, p.decls).vars;
    if l :| 0 <= l < |p.decls| && IdOf(p.decls[l]) == id && after[id] == Updated(vars[id], p.decls[l]) {
      assert l == k;
    }
  }

  ghost function DeclaredKeys(key: Id -> string, decls: seq<Decl>): set<string> {
    set d | d in decls :: key(IdOf(d))
  }

  /** Requests add declared variables only, and miss none. */
  lemma {:induction false} RequestsAddDeclared(key: Id -> string, listing: Vars, decls: seq<Decl>)
    requires AfterDecls(key, listing, decls).Done?
    ensures var after := AfterDecls(key, listing, decls).vars;
            && listing.Keys <= after.Keys
            && (forall id :: id in after ==> id in listing || DeclaredId(decls, id))
            && (forall k :: 0 <= k < |decls| ==> IdOf(decls[k]) in after || Found(key, listing, key(IdOf(decls[k]))))
  {
    if decls != [] {
      hide Updated, Created, Found;
      var n := |decls| - 1;
      RequestsAddDeclared(key, listing, decls[..n]);
      assert forall k :: 0 <= k < n ==> decls[..n][k] == decls[k];
      assert DeclaredId(decls, IdOf(decls[n]));
      forall id | DeclaredId(decls[..n], id) ensures DeclaredId(decls, id) {
        var k :| 0 <= k < n && IdOf(decls[..n][k]) == id;
        assert IdOf(decls[k]) == id;
      }
    }
  }

  /** With pruning an Apply that completes leaves exactly the declared composite keys if and only if
      the policy declares something or nothing was live: an empty policy prunes nothing. */
  lemma PruningIsExact(key: Id -> string, vars: Vars, seen: map<string, Id>, p: Policy)
    requires p.prune && Picks(key, vars, seen) && AfterApply(key, vars, seen, p).Done?
    ensures KeysOf(key, AfterApply(key, vars, seen, p).vars) == DeclaredKeys(key, p.decls) <==> p.decls != [] || vars == map[]
  {
    var after := AfterApply(key, vars, seen, p).vars;
    if p.decls == [] {
      if vars != map[] {
        var id :| id in vars;
        assert key(id) in KeysOf(key, after);
      }
    } else {
      forall id | id in after ensures key(id) in DeclaredKeys(key, p.decls) {
        SurvivorIsMatched(key, vars, seen, p, id);
        var k :| 0 <= k < |p.decls| && key(IdOf(p.decls[k])) == key(id);
        assert p.decls[k] in p.decls;
      }
      forall d | d in p.decls ensures key(IdOf(d)) in KeysOf(key, after) {
        var k :| 0 <= k < |p.decls| && p.decls[k] == d;
        var id := DeclaredSurvives(key, vars, seen, p, k);
        assert key(id) in KeysOf(key, after);
      }
    }
  }

  lemma SurvivorIsMatched(key: Id -> string, vars: Vars, seen: map<string, Id>, p: Policy, id: Id)
    requires p.prune && p.decls != [] && Picks(key, vars, seen)
    requires AfterApply(key, vars, seen, p).Done? && id in AfterApply(key, vars, seen, p).vars
    ensures Matched(key, p.decls, id)
  {
    hide AfterDecls, PickInSync, Picks;
    if !SeenInSync(key, vars, seen, p) {
      RequestsAddDeclared(key, vars, p.decls);
      if DeclaredId(p.decls, id) {
        var k :| 0 <= k < |p.decls| && IdOf(p.decls[k]) == id;
        assert key(IdOf(p.decls[k])) == key(id);
      }
    }
  }

  lemma DeclaredSurvives(key: Id -> string, vars: Vars, seen: map<string, Id>, p: Policy, k: nat) returns (id: Id)
    requires p.prune && k < |p.decls| && Picks(key, vars, seen) && AfterApply(key, vars, seen, p).Done?
    ensures id in AfterApply(key, vars, seen, p).vars && key(id) == key(IdOf(p.decls[k]))
  {
    hide AfterDecls, Differs;
    if SeenInSync(key, vars, seen, p) {
      assert PickInSync(key, vars, seen, p.decls[k]);
      id := seen[key(IdOf(p.decls[k]))];
    } else {
      RequestsAddDeclared(key, vars, p.decls);
      if IdOf(p.decls[k]) in AfterDecls(key, vars, p.decls).vars {
        id := IdOf(p.decls[k]);
      } else {
        id :| id in vars && key(id) == key(IdOf(p.decls[k]));
      }
      assert Matched(key, p.decls, id);
    }
  }

  // ---------------------------------------------------------------- scopes the validator lets through

  /** The validator's duplicate check compares keys without trimming the scope. */
  function ValidatorKey(d: Decl): string {
    d.key + "::" + DefaultScope(d.scope)
  }

  predicate KeyChar(c: char) {
    'a' <= c <= 'z' || 'A' <= c <= 'Z' || '0' <= c <= '9' || c == '_'
  }

  /** What the validator demands of keys and scopes: keys of letters, digits and '_', and no duplicate. */
  ghost predicate Accepted(decls: seq<Decl>) {
    && (forall k :: 0 <= k < |decls| ==> decls[k].key != "" && forall c :: c in decls[k].key ==> KeyChar(c))
    && (forall k, l :: 0 <= k < l < |decls| ==> ValidatorKey(decls[k]) != ValidatorKey(decls[l]))
  }

  lemma AcceptedKeyIsClean(d: Decl)
    requires d.key != "" && forall c :: c in d.key ==> KeyChar(c)
    ensures Trim(d.key) == d.key && ':' !in d.key
  {
    assert d.key[0] in d.key && d.key[|d.key| - 1] in d.key;
  }

  function TrimmedId(d: Decl): Id {
    (d.key, Trim(DefaultScope(d.scope)))
  }

  /** The key function finds a declared variable under its trimmed scope, unless that is empty. */
  ghost predicate TrimsScopes(key: Id -> string) {
    forall d: Decl :: Trim(d.key) == d.key && ':' !in d.key && TrimmedId(d).1 != "" ==> key(IdOf(d)) == key(TrimmedId(d))
  }

  lemma CompositeKeyTrimsScopes()
    ensures TrimsScopes(CompositeKey)
  {
    forall d: Decl | Trim(d.key) == d.key && ':' !in d.key && TrimmedId(d).1 != ""
      ensures CompositeKey(IdOf(d)) == CompositeKey(TrimmedId(d))
    {
      CompositeKeyInjective(IdOf(d), TrimmedId(d));
    }
  }

  lemma AcceptedIsDistinct(decls: seq<Decl>)
    requires Accepted(decls)
    ensures DistinctIds(decls)
  {
  }

  /** A variable that differs from the declaration, whatever it sets. */
  function Drifted(d: Decl): Fields {
    Fields(d.value + "x", "env_var", false, false, false, "")
  }

  /** A declaration that is found under another name than its own, and has drifted: Apply fails. */
  lemma StoredOtherwiseFails(key: Id -> string, p: Policy, k: nat, id: Id, seen: map<string, Id>)
    requires DistinctIds(p.decls) && k < |p.decls| && id != IdOf(p.decls[k]) && key(id) == key(IdOf(p.decls[k]))
    requires Picks(key, map[id := Drifted(p.decls[k])], seen)
    ensures AfterApply(key, map[id := Drifted(p.decls[k])], seen, p).Failed?
  {
    hide AfterDecls, DistinctIds;
    var d := p.decls[k];
    var vars := map[id := Drifted(d)];
    assert id in vars && seen[key(id)] == id;
    assert Differs(vars[id], d) by { assert |vars[id].value| == |d.value| + 1; }
    assert !PickInSync(key, vars, seen, d);
    UpdateFails(key, vars, p.decls, k);
  }

  /** A declared scope with white space around it is looked up trimmed but requested as it is written:
      when the trimmed variable is live, the update finds nothing and Apply fails. */
  lemma UntrimmedScopeFails(key: Id -> string, p: Policy, k: nat, seen: map<string, Id>)
    requires TrimsScopes(key) && Accepted(p.decls) && k < |p.decls|
    requires !CleanId(IdOf(p.decls[k])) && !BlankId(IdOf(p.decls[k]))
    requires Picks(key, map[TrimmedId(p.decls[k]) := Drifted(p.decls[k])], seen)
    ensures Clean(map[TrimmedId(p.decls[k]) := Drifted(p.decls[k])])
    ensures AfterApply(key, map[TrimmedId(p.decls[k]) := Drifted(p.decls[k])], seen, p).Failed?
  {
    hide AfterApply, Drifted, Picks;
    var d := p.decls[k];
    AcceptedKeyIsClean(d);
    AcceptedIsDistinct(p.decls);
    assert TrimmedId(d) != IdOf(d) && CleanId(TrimmedId(d));
    StoredOtherwiseFails(key, p, k, TrimmedId(d), seen);
  }

  /** The other way round: no accepted policy that declares anything, its own scopes in order or not,
      gets through on every project. A variable stored with a space after its scope, as Apply itself
      stores what is declared so, is found for the declaration but not by its update. */
  lemma UntrimmedVariableFails(p: Policy, k: nat, seen: map<string, Id>)
    requires Accepted(p.decls) && k < |p.decls|
    requires Picks(CompositeKey, map[(p.decls[k].key, IdOf(p.decls[k]).1 + " ") := Drifted(p.decls[k])], seen)
    ensures AfterApply(CompositeKey, map[(p.decls[k].key, IdOf(p.decls[k]).1 + " ") := Drifted(p.decls[k])], seen, p).Failed?
  {
    hide AfterApply, Drifted, Picks;
    var d := p.decls[k];
    AcceptedKeyIsClean(d);
    AcceptedIsDistinct(p.decls);
    var id := (d.key, IdOf(d).1 + " ");
    TrailingSpace(IdOf(d).1);
    assert |id.1| == |IdOf(d).1| + 1;
    StoredOtherwiseFails(CompositeKey, p, k, id, seen);
  }

  lemma {:induction false} TrailingSpace(s: string)
    ensures Trim(s + " ") == Trim(s)
    decreases |s|
  {
    assert (s + " ")[..|s|] == s;
    if s == "" {
      assert Trim(" ") == Trim(" "[1..]);
    } else if IsSpace(s[0]) {
      assert (s + " ")[1..] == s[1..] + " ";
      TrailingSpace(s[1..]);
    }
  }

  /** One policy creates a variable under a name that another policy finds it by but does not use. */
  lemma CreatedElsewhereFails(key: Id -> string, d: Decl, e: Decl, seen: map<string, Id>, later: map<string, Id>)
    requires key(IdOf(d)) == key(IdOf(e)) && IdOf(d) != IdOf(e) && Differs(Created(d), e)
    requires Picks(key, map[], seen) && Picks(key, map[IdOf(d) := Created(d)], later)
    ensures AfterApply(key, map[], seen, Policy([d], false)) == Done(map[IdOf(d) := Created(d)])
    ensures AfterApply(key, map[IdOf(d) := Created(d)], later, Policy([e], false)).Failed?
  {
    hide Created, Differs;
    var once, p, q := map[IdOf(d) := Created(d)], Policy([d], false), Policy([e], false);
    assert !PickInSync(key, map[], seen, p.decls[0]);
    assert [d][..0] == [] && [e][..0] == [];
    assert AfterDecls(key, map[], [d]) == Request(false, map[], d);
    assert once - {} == once;
    assert IdOf(d) in once && later[key(IdOf(d))] == IdOf(d);
    assert !PickInSync(key, once, later, q.decls[0]);
    assert AfterDecls(key, once, [e]) == Request(true, once, e);
  }

  /** For instance: Apply creates what is declared with "p ", and then fails on what is declared with
      "p", although its scope is in order. */
  lemma ApplyStoresWhatItCannotFind(seen: map<string, Id>, later: map<string, Id>)
    requires Picks(CompositeKey, map[], seen)
    requires Picks(CompositeKey, map[("K", "p ") := Fields("1", "env_var", false, false, false, "")], later)
    ensures var spaced := Policy([Decl("K", "p ", "1", "", None, None, None, "")], false);
            var trimmed := Policy([Decl("K", "p", "2", "", None, None, None, "")], false);
            var once := map[("K", "p ") := Fields("1", "env_var", false, false, false, "")];
            && ScopesInOrder(trimmed.decls)
            && AfterApply(CompositeKey, map[], seen, spaced) == Done(once)
            && AfterApply(CompositeKey, once, later, trimmed).Failed?
  {
    hide AfterApply, Picks;
    var d, e := Decl("K", "p ", "1", "", None, None, None, ""), Decl("K", "p", "2", "", None, None, None, "");
    TrailingSpace("p");
    assert "p" + " " == "p ";
    CreatedElsewhereFails(CompositeKey, d, e, seen, later);
  }

  /** Blank scopes of one key that disagree are both created and then seen as one variable. */
  lemma DisagreeingBlanksDoNotSettle(key: Id -> string, p: Policy, i: nat, j: nat)
    requires TellsCleanApart(key) && DistinctIds(p.decls) && i < |p.decls| && j < |p.decls|
    requires BlankPair(p.decls[i], p.decls[j])
    requires Differs(Created(p.decls[i]), p.decls[j])
    ensures Picks(key, map[], map[]) && !Settles(key, map[], map[], p)
  {
    hide Differs, Created, Updated, CleanId, BlankId, Settles, DistinctIds;
    assert !PickInSync(key, map[], map[], p.decls[i]);
    assert key(IdOf(p.decls[i])) == key(IdOf(p.decls[j]));
    assert !Agreeing(key, map[], p.decls);
    SettlesExactly(key, map[], map[], p);
  }

  /** One Apply settles every project whose stored scopes are trimmed. */
  ghost predicate SettlesClean(key: Id -> string, p: Policy) {
    forall vars, seen :: Clean(vars) && Picks(key, vars, seen) ==> Settles(key, vars, seen, p)
  }

  /** Over all policies the validator accepts and all projects whose stored scopes are trimmed: one
      Apply completes and settles each of them if and only if every declared scope is trimmed, or is
      white space throughout and agrees with the other such scopes of its key. */
  lemma CleanSettlesExactly(key: Id -> string, p: Policy)
    requires TellsCleanApart(key) && TrimsScopes(key) && Accepted(p.decls)
    ensures SettlesClean(key, p) <==> ScopesInOrder(p.decls)
  {
    hide AfterApply, InSync, InOrder, Settles, CleanId, BlankId, TellsCleanApart, TrimsScopes, Differs, Created, Picks, Drifted;
    AcceptedIsDistinct(p.decls);
    if ScopesInOrder(p.decls) {
      forall vars, seen | Clean(vars) && Picks(key, vars, seen) ensures Settles(key, vars, seen, p) {
        CleanIsInOrder(key, vars, seen, p);
        SettlesExactly(key, vars, seen, p);
      }
    }
    if k :| 0 <= k < |p.decls| && !CleanId(IdOf(p.decls[k])) && !BlankId(IdOf(p.decls[k])) {
      var vars := map[TrimmedId(p.decls[k]) := Drifted(p.decls[k])];
      var seen := SomePick(key, vars);
      UntrimmedScopeFails(key, p, k, seen);
      FailedDoesNotSettle(key, vars, seen, p);
    } else if !BlanksAgree(p.decls) {
      var i, j :| 0 <= i < |p.decls| && 0 <= j < |p.decls| && BlankPair(p.decls[i], p.decls[j]) && Differs(Created(p.decls[i]), p.decls[j]);
      DisagreeingBlanksDoNotSettle(key, p, i, j);
      assert Clean(map[]);
    }
  }

  lemma FailedDoesNotSettle(key: Id -> string, vars: Vars, seen: map<string, Id>, p: Policy)
    requires Picks(key, vars, seen) && AfterApply(key, vars, seen, p).Failed?
    ensures !Settles(key, vars, seen, p)
  {
  }

  /** The reconciler's own key is such a key. */
  lemma CompositeKeySettlesExactly(p: Policy)
    requires Accepted(p.decls)
    ensures SettlesClean(CompositeKey, p) <==> ScopesInOrder(p.decls)
  {
    hide SettlesClean;
    CompositeKeyTellsCleanApart();
    CompositeKeyTrimsScopes();
    CleanSettlesExactly(CompositeKey, p);
  }

  /** Two declarations agree wherever both set a field. */
  predicate Compatible(a: Decl, b: Decl) {
    && a.value == b.value
    && (a.kind == "" || b.kind == "" || a.kind == b.kind)
    && (a.masked == None || b.masked == None || a.masked == b.masked)
    && (a.protected == None || b.protected == None || a.protected == b.protected)
    && (a.raw == None || b.raw == None || a.raw == b.raw)
    && (a.description == "" || b.description == "" || a.description == b.description)
  }

  lemma UpdateKeeps(f: Fields, earlier: Decl, d: Decl)
    requires !Differs(f, earlier) && Compatible(earlier, d)
    ensures !Differs(Updated(f, d), earlier)
  {
  }

  /** A project that follows all declarations, one variable for each composite key. */
  ghost function Combined(key: Id -> string, decls: seq<Decl>): Vars {
    if decls == [] then map[]
    else
      var front, d := Combined(key, decls[..|decls| - 1]), decls[|decls| - 1];
      if Found(key, front, key(IdOf(d))) then
        var id :| id in front && key(id) == key(IdOf(d));
        front[id := Updated(front[id], d)]
      else front[IdOf(d) := Created(d)]
  }

  ghost predicate Compatibles(key: Id -> string, decls: seq<Decl>) {
    forall i, j :: 0 <= i < j < |decls| && key(IdOf(decls[i])) == key(IdOf(decls[j])) ==> Compatible(decls[i], decls[j])
  }

  lemma {:induction false} CombinedFollows(key: Id -> string, decls: seq<Decl>)
    requires Compatibles(key, decls)
    ensures TellsApart(key, Combined(key, decls))
    ensures forall id :: id in Combined(key, decls) ==> Matched(key, decls, id)
    ensures forall k :: 0 <= k < |decls| ==> DeclInSync(key, Combined(key, decls), decls[k])
  {
    hide *;
    if decls == [] {
      NothingCombined(key);
    } else {
      var n := |decls| - 1;
      var front, d, whole := Combined(key, decls[..n]), decls[n], Combined(key, decls);
      CompatiblesInit(key, decls);
      CombinedFollows(key, decls[..n]);
      CombinedStep(key, decls);
      StepInSync(key, front, d, whole);
      forall id | id in whole ensures Matched(key, decls, id) {
        StepMatches(key, front, d, whole, id);
        MatchedInit(key, decls, id);
      }
      forall k | 0 <= k < n ensures DeclInSync(key, whole, decls[k]) {
        assert decls[..n][k] == decls[k];
        StepKeeps(key, front, d, whole, decls[k]);
      }
    }
  }

  lemma CompatiblesInit(key: Id -> string, decls: seq<Decl>)
    requires Compatibles(key, decls) && decls != []
    ensures var n := |decls| - 1;
            && Compatibles(key, decls[..n])
            && forall k :: 0 <= k < n && key(IdOf(decls[k])) == key(IdOf(decls[n])) ==> Compatible(decls[k], decls[n])
  {
    hide Compatible;
  }

  lemma MatchedInit(key: Id -> string, decls: seq<Decl>, id: Id)
    requires decls != []
    ensures Matched(key, decls[..|decls| - 1], id) || id == IdOf(decls[|decls| - 1]) ==> Matched(key, decls, id)
  {
    if Matched(key, decls[..|decls| - 1], id) {
      var k :| 0 <= k < |decls| - 1 && key(IdOf(decls[..|decls| - 1][k])) == key(id);
      assert key(IdOf(decls[k])) == key(id);
    }
  }

  lemma NothingCombined(key: Id -> string)
    ensures Combined(key, []) == map[] && TellsApart(key, map[])
  {
  }

  /** `whole` is `front` with one more declaration followed. */
  ghost predicate Follows(key: Id -> string, front: Vars, d: Decl, whole: Vars) {
    if Found(key, front, key(IdOf(d))) then
      exists id :: id in front && key(id) == key(IdOf(d)) && whole == front[id := Updated(front[id], d)]
    else whole == front[IdOf(d) := Created(d)]
  }

  lemma CombinedStep(key: Id -> string, decls: seq<Decl>)
    requires decls != []
    ensures Follows(key, Combined(key, decls[..|decls| - 1]), decls[|decls| - 1], Combined(key, decls))
  {
    hide Updated, Created;
  }

  lemma StepInSync(key: Id -> string, front: Vars, d: Decl, whole: Vars)
    requires TellsApart(key, front) && Follows(key, front, d, whole)
    ensures DeclInSync(key, whole, d) && TellsApart(key, whole)
  {
    hide Differs, Created, Updated;
    if Found(key, front, key(IdOf(d))) {
      var id :| id in front && key(id) == key(IdOf(d)) && whole == front[id := Updated(front[id], d)];
      RequestsSatisfy(front[id], d);
      assert id in whole && Found(key, whole, key(IdOf(d)));
    } else {
      RequestsSatisfy(Created(d), d);
      assert IdOf(d) in whole && Found(key, whole, key(IdOf(d)));
    }
  }

  lemma StepMatches(key: Id -> string, front: Vars, d: Decl, whole: Vars, id: Id)
    requires Follows(key, front, d, whole) && id in whole
    ensures id in front || id == IdOf(d)
  {
    hide Updated, Created;
  }

  lemma StepKeeps(key: Id -> string, front: Vars, d: Decl, whole: Vars, earlier: Decl)
    requires TellsApart(key, front) && Follows(key, front, d, whole) && DeclInSync(key, front, earlier)
    requires key(IdOf(earlier)) == key(IdOf(d)) ==> Compatible(earlier, d)
    ensures DeclInSync(key, whole, earlier)
  {
    hide Differs, Created, Updated, Compatible;
    var held :| held in front && key(held) == key(IdOf(earlier));
    assert held in whole && Found(key, whole, key(IdOf(earlier)));
    forall id | id in whole && key(id) == key(IdOf(earlier)) ensures !Differs(whole[id], earlier) {
      if id in front && whole[id] != front[id] {
        UpdateKeeps(front[id], earlier, d);
      }
    }
  }

  /** A project can be in sync, or can be seen so in some order, if and only if the declarations with one
      composite key agree; otherwise no number of Applies empties the plan. */
  lemma SatisfiableExactly(key: Id -> string, p: Policy)
    ensures (exists vars :: InSync(key, vars, p)) <==> Compatibles(key, p.decls)
    ensures (exists vars, m :: Picks(key, vars, m) && SeenInSync(key, vars, m, p)) <==> Compatibles(key, p.decls)
  {
    hide Picks;
    if vars, m :| Picks(key, vars, m) && SeenInSync(key, vars, m, p) {
      SeenCompatible(key, vars, m, p);
    }
    if vars :| InSync(key, vars, p) {
      var m := SomePick(key, vars);
      InSyncInEveryOrder(key, vars, p);
      SeenCompatible(key, vars, m, p);
    }
    if Compatibles(key, p.decls) {
      CombinedFollows(key, p.decls);
      var vars := Combined(key, p.decls);
      assert InSync(key, vars, p);
      var m := SomePick(key, vars);
      InSyncInEveryOrder(key, vars, p);
      assert SeenInSync(key, vars, m, p);
    }
  }

  lemma SeenCompatible(key: Id -> string, vars: Vars, m: map<string, Id>, p: Policy)
    requires Picks(key, vars, m) && SeenInSync(key, vars, m, p)
    ensures Compatibles(key, p.decls)
  {
    forall i, j | 0 <= i < j < |p.decls| && key(IdOf(p.decls[i])) == key(IdOf(p.decls[j]))
      ensures Compatible(p.decls[i], p.decls[j])
    {
      assert PickInSync(key, vars, m, p.decls[i]) && PickInSync(key, vars, m, p.decls[j]);
    }
  }

  /** The validator accepts a pair that collides: a scope and the same scope followed by a space. */
  lemma ValidatorAcceptsColliding(vars: Vars, m: map<string, Id>)
    requires Picks(CompositeKey, vars, m)
    ensures var a := Decl("K", "p", "1", "", None, None, None, "");
            var b := Decl("K", "p ", "2", "", None, None, None, "");
            Accepted([a, b]) && !SeenInSync(CompositeKey, vars, m, Policy([a, b], false))
  {
    var a := Decl("K", "p", "1", "", None, None, None, "");
    var b := Decl("K", "p ", "2", "", None, None, None, "");
    TrailingSpace("p");
    assert "p" + " " == "p ";
    assert ("K" + "::" + "p ")[|"K::p"|] == ' ';
    var p := Policy([a, b], false);
    SatisfiableExactly(CompositeKey, p);
    assert CompositeKey(IdOf(a)) == CompositeKey(IdOf(b));
    assert !Compatible(p.decls[0], p.decls[1]);
  }
}
