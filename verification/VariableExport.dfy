/** The variables section of an export (internal/export/exporter.go): it is read off a project, written
    with placeholders for secrets if asked for, and expanded again when the policy is loaded
    (internal/config/config.go). */
module VariableExport {
  import opened Prelude
  import EnvSubst
  import V = Variables

  type Listing = seq<(V.Id, V.Fields)>

  /** Whether to write placeholders, and which keys look like secrets. */
  datatype Options = Options(placeholders: bool, secret: string -> bool)

  const DEFAULT := "PLACEHOLDER"

  // ---------------------------------------------------------------- inspection

  predicate Hidden(o: Options, v: (V.Id, V.Fields)) {
    o.placeholders && (v.1.masked || o.secret(v.0.0))
  }

  function IfTrue(b: bool): Option<bool> {
    if b then Some(true) else None
  }

  function Value(o: Options, v: (V.Id, V.Fields)): string {
    if Hidden(o, v) then EnvSubst.WithDefault(v.0.0, DEFAULT) else v.1.value
  }

  function Exported(o: Options, v: (V.Id, V.Fields)): V.Decl {
    V.Decl(v.0.0, v.0.1, Value(o, v), v.1.kind, IfTrue(v.1.masked), IfTrue(v.1.protected), IfTrue(v.1.raw), v.1.description)
  }

  function ExportAll(o: Options, listing: Listing): (decls: seq<V.Decl>)
    ensures |decls| == |listing| && forall i :: 0 <= i < |decls| ==> decls[i] == Exported(o, listing[i])
  {
    seq(|listing|, i requires 0 <= i < |listing| => Exported(o, listing[i]))
  }

  /** inspectVariables: one declaration for each listed variable. */
  method InspectVariables(o: Options, listing: Listing) returns (decls: seq<V.Decl>)
    ensures decls == ExportAll(o, listing)
  {
    decls := [];
    for i := 0 to |listing|
      invariant decls == ExportAll(o, listing[..i])
    {
      decls := decls + [Exported(o, listing[i])];
    }
    assert listing[..|listing|] == listing;
  }

  /** What GitLab guarantees of a listing: keys of letters, digits and '_', no white space around a
      scope, and no two variables with the same key and scope. */
  ghost predicate Listed(listing: Listing) {
    && (forall i :: 0 <= i < |listing| ==> StoredId(listing[i].0))
    && forall i, j :: 0 <= i < j < |listing| ==> listing[i].0 != listing[j].0
  }

  ghost predicate StoredId(id: V.Id) {
    && id.0 != "" && (forall c :: c in id.0 ==> V.KeyChar(c))
    && id.1 != "" && Trim(id.1) == id.1
  }

  lemma StoredIdIsClean(id: V.Id)
    requires StoredId(id)
    ensures V.CleanId(id) && EnvSubst.Unmarked(id.0)
  {
    assert id.0[0] in id.0 && id.0[|id.0| - 1] in id.0;
  }

  ghost function VarMap(listing: Listing): V.Vars {
    if listing == [] then map[]
    else VarMap(listing[..|listing| - 1])[listing[|listing| - 1].0 := listing[|listing| - 1].1]
  }

  lemma {:induction false} VarMapHolds(listing: Listing)
    requires Listed(listing)
    ensures forall i :: 0 <= i < |listing| ==> listing[i].0 in VarMap(listing) && VarMap(listing)[listing[i].0] == listing[i].1
    ensures forall id :: id in VarMap(listing) ==> exists i :: 0 <= i < |listing| && listing[i].0 == id
  {
    if listing != [] {
      hide StoredId;
      var init := listing[..|listing| - 1];
      VarMapHolds(init);
      assert forall i :: 0 <= i < |init| ==> init[i] == listing[i];
    }
  }

  // ---------------------------------------------------------------- planning against the same project

  /** Creating the variable anew as exported gives it back exactly when it has a kind and its value was
      not replaced by another text. */
  lemma ExportedVariableRestoresExactly(o: Options, v: (V.Id, V.Fields))
    ensures V.Created(Exported(o, v)) == v.1 <==>
            && v.1.kind != ""
            && (o.placeholders && (v.1.masked || o.secret(v.0.0)) ==> v.1.value == "${" + v.0.0 + ":-PLACEHOLDER}")
    ensures v.0.1 != "" ==> V.IdOf(Exported(o, v)) == v.0
    ensures Some(false) !in {Exported(o, v).masked, Exported(o, v).protected, Exported(o, v).raw}
  {
    assert v.1.kind == "" ==> V.Created(Exported(o, v)).kind == "env_var";
    assert EnvSubst.WithDefault(v.0.0, DEFAULT) == "${" + v.0.0 + ":-PLACEHOLDER}";
  }

  /** The declaration exported from a variable differs from it in the value at most. */
  lemma ExportedDiffers(o: Options, v: (V.Id, V.Fields), value: string, description: string)
    ensures V.Differs(v.1, Exported(o, v).(value := value, description := description)) <==>
            v.1.value != value || (description != "" && description != v.1.description)
  {
  }

  /** Declarations for the variables of a project, one for each, are in sync exactly when none differs. */
  lemma OwnDeclsInSync(listing: Listing, decls: seq<V.Decl>, prune: bool)
    requires Listed(listing) && |decls| == |listing|
    requires forall i :: 0 <= i < |decls| ==> V.IdOf(decls[i]) == listing[i].0
    ensures V.InSync(V.CompositeKey, VarMap(listing), V.Policy(decls, prune)) <==>
            forall i :: 0 <= i < |decls| ==> !V.Differs(listing[i].1, decls[i])
  {
    hide V.Differs, V.CompositeKey, VarMap, StoredId, V.IdOf, V.DeclInSync;
    var vars := VarMap(listing);
    VarMapHolds(listing);
    forall i | 0 <= i < |decls|
      ensures V.DeclInSync(V.CompositeKey, vars, decls[i]) <==> !V.Differs(listing[i].1, decls[i])
    {
      OwnDeclInSync(listing, decls[i], i);
    }
    forall id | id in vars ensures V.Matched(V.CompositeKey, decls, id) {
      var i :| 0 <= i < |listing| && listing[i].0 == id;
      assert V.CompositeKey(V.IdOf(decls[i])) == V.CompositeKey(id);
    }
  }

  lemma OwnDeclInSync(listing: Listing, d: V.Decl, i: nat)
    requires Listed(listing) && i < |listing| && V.IdOf(d) == listing[i].0
    ensures V.DeclInSync(V.CompositeKey, VarMap(listing), d) <==> !V.Differs(listing[i].1, d)
  {
    hide V.Differs, V.CompositeKey, VarMap, StoredId, V.IdOf, Listed, V.Found;
    VarMapHolds(listing);
    OnlyItself(listing, listing[i].0);
    V.FoundIfListed(V.CompositeKey, VarMap(listing), listing[i].0);
  }

  lemma OnlyItself(listing: Listing, id: V.Id)
    requires Listed(listing) && id in VarMap(listing)
    ensures forall other :: other in VarMap(listing) && V.CompositeKey(other) == V.CompositeKey(id) ==> other == id
  {
    hide V.CompositeKey, VarMap, StoredId;
    VarMapHolds(listing);
    V.CompositeKeyTellsCleanApart();
    StoredIdsAreClean(listing);
  }

  lemma StoredIdsAreClean(listing: Listing)
    requires Listed(listing)
    ensures forall id :: id in VarMap(listing) ==> V.CleanId(id)
  {
    hide V.CleanId, VarMap;
    VarMapHolds(listing);
    forall id | id in VarMap(listing) ensures V.CleanId(id) {
      StoredIdIsClean(id);
    }
  }

  /** Planned as it is written, an exported section shows no drift on its own project exactly when no
      value was replaced, or only by itself. */
  lemma ExportedVariablesPlanExactly(o: Options, listing: Listing, prune: bool)
    requires Listed(listing)
    ensures V.InSync(V.CompositeKey, VarMap(listing), V.Policy(ExportAll(o, listing), prune)) <==>
            forall i :: 0 <= i < |listing| && Hidden(o, listing[i]) ==>
              listing[i].1.value == EnvSubst.WithDefault(listing[i].0.0, DEFAULT)
  {
    hide V.InSync, V.Differs, VarMap, EnvSubst.WithDefault;
    var decls := ExportAll(o, listing);
    ExportedIdsKept(o, listing);
    OwnDeclsInSync(listing, decls, prune);
    forall i | 0 <= i < |listing|
      ensures V.Differs(listing[i].1, decls[i]) <==> listing[i].1.value != Value(o, listing[i])
    {
      ExportedDiffers(o, listing[i], Value(o, listing[i]), listing[i].1.description);
    }
  }

  lemma ExportedIdsKept(o: Options, listing: Listing)
    requires Listed(listing)
    ensures forall i :: 0 <= i < |listing| ==> V.IdOf(ExportAll(o, listing)[i]) == listing[i].0
  {
  }

  // ---------------------------------------------------------------- loading the exported policy

  /** Loading a policy expands the variables of the environment in it. */
  function Reread(env: EnvSubst.Env, d: V.Decl): Option<V.Decl> {
    match (EnvSubst.Expand(env, d.value, 0), EnvSubst.Expand(env, d.description, 0))
    case (Ok(value), Ok(description)) => Some(d.(value := value, description := description))
    case _ => None
  }

  /** The declarations as they are loaded, unless some expansion fails. */
  function Loaded(env: EnvSubst.Env, decls: seq<V.Decl>): Option<seq<V.Decl>> {
    if forall i :: 0 <= i < |decls| ==> Reread(env, decls[i]).Some? then
      Some(seq(|decls|, i requires 0 <= i < |decls| && Reread(env, decls[i]).Some? => Reread(env, decls[i]).value))
    else None
  }

  /** The exported section can be loaded and then shows no drift on its own project. */
  ghost predicate DriftFree(env: EnvSubst.Env, o: Options, listing: Listing, prune: bool) {
    var loaded := Loaded(env, ExportAll(o, listing));
    loaded.Some? && V.InSync(V.CompositeKey, VarMap(listing), V.Policy(loaded.value, prune))
  }

  /** What the environment makes of the written text is the live variable again. */
  predicate ComesBack(env: EnvSubst.Env, o: Options, v: (V.Id, V.Fields)) {
    && EnvSubst.Expand(env, Value(o, v), 0) == EnvSubst.Ok(v.1.value)
    && EnvSubst.Expand(env, v.1.description, 0) in {EnvSubst.Ok(v.1.description), EnvSubst.Ok("")}
  }

  lemma RereadExactly(env: EnvSubst.Env, o: Options, listing: Listing, prune: bool)
    requires Listed(listing)
    ensures DriftFree(env, o, listing, prune) <==> forall i :: 0 <= i < |listing| ==> ComesBack(env, o, listing[i])
  {
    hide V.InSync, V.Differs, VarMap, EnvSubst.Expand, Hidden, StoredId;
    var decls := ExportAll(o, listing);
    var loaded := Loaded(env, decls);
    ExportedIdsKept(o, listing);
    if loaded.Some? {
      OwnDeclsInSync(listing, loaded.value, prune);
      forall i | 0 <= i < |listing|
        ensures V.Differs(listing[i].1, loaded.value[i]) <==> !ComesBack(env, o, listing[i])
      {
        ExportedDiffers(o, listing[i], loaded.value[i].value, loaded.value[i].description);
      }
    } else {
      var i :| 0 <= i < |decls| && Reread(env, decls[i]).None?;
      assert !ComesBack(env, o, listing[i]);
    }
  }

  /** A placeholder comes back as the value exactly when the environment has a variable of that name
      that expands to it; without one, when the value is the default itself. */
  lemma PlaceholderComesBack(env: EnvSubst.Env, o: Options, v: (V.Id, V.Fields))
    requires Hidden(o, v) && StoredId(v.0)
    ensures EnvSubst.Expand(env, Value(o, v), 0) == EnvSubst.Ok(v.1.value) <==>
            && EnvSubst.ValidName(env, v.0.0)
            && var (value, isSet) := env.lookup(v.0.0);
               if isSet && value != "" then EnvSubst.Expand(env, value, 2) == EnvSubst.Ok(v.1.value) else v.1.value == DEFAULT
  {
    hide EnvSubst.Expand, EnvSubst.ValidName, EnvSubst.WithDefault;
    StoredIdIsClean(v.0);
    DefaultIsUnmarked();
    EnvSubst.DefaultExpands(env, v.0.0, DEFAULT);
  }

  lemma DefaultIsUnmarked()
    ensures EnvSubst.Unmarked(DEFAULT)
  {
  }

  /** An exported section comes back without drift in every environment exactly when no placeholder is
      written and neither a value nor a description holds "\\$", "$$" or "${". */
  lemma DriftFreeEverywhereExactly(o: Options, listing: Listing, prune: bool)
    requires Listed(listing)
    ensures (forall env :: DriftFree(env, o, listing, prune)) <==>
            forall i :: 0 <= i < |listing| ==> Plain(o, listing[i])
  {
    hide DriftFree, EnvSubst.Expand, StoredId, ComesBack, Plain;
    if forall i :: 0 <= i < |listing| ==> Plain(o, listing[i]) {
      forall env ensures DriftFree(env, o, listing, prune) {
        forall i | 0 <= i < |listing| ensures ComesBack(env, o, listing[i]) {
          PlainComesBack(env, o, listing[i]);
        }
        RereadExactly(env, o, listing, prune);
      }
    }
    if i :| 0 <= i < |listing| && !Plain(o, listing[i]) {
      var env := Spoiler(o, listing[i]);
      RereadExactly(env, o, listing, prune);
      assert !DriftFree(env, o, listing, prune);
    }
  }

  ghost predicate Plain(o: Options, v: (V.Id, V.Fields)) {
    !Hidden(o, v) && EnvSubst.Inert(v.1.value, 0) && EnvSubst.Inert(v.1.description, 0)
  }

  lemma PlainComesBack(env: EnvSubst.Env, o: Options, v: (V.Id, V.Fields))
    requires Plain(o, v)
    ensures ComesBack(env, o, v)
  {
    InertComesBack(env, v.1.value);
    InertComesBack(env, v.1.description);
    hide EnvSubst.Expand, EnvSubst.Inert;
  }

  lemma InertComesBack(env: EnvSubst.Env, s: string)
    requires EnvSubst.Inert(s, 0)
    ensures EnvSubst.Expand(env, s, 0) == EnvSubst.Ok(s)
  {
    hide EnvSubst.Inert;
    EnvSubst.ExpandsToItselfExactly(s);
  }

  /** An environment that changes what is not plain. */
  lemma Spoiler(o: Options, v: (V.Id, V.Fields)) returns (env: EnvSubst.Env)
    requires StoredId(v.0) && !Plain(o, v)
    ensures !ComesBack(env, o, v)
  {
    hide EnvSubst.Expand, EnvSubst.Inert, EnvSubst.WithDefault, EnvSubst.ValidName, StoredId;
    var filler := EnvSubst.Filler(|v.1.value| + |v.1.description|);
    env := EnvSubst.Filled(filler);
    FillerIsInert(|v.1.value| + |v.1.description|);
    if Hidden(o, v) {
      PlaceholderComesBack(env, o, v);
      FillerExpands(env, filler);
    } else if !EnvSubst.Inert(v.1.value, 0) {
      EnvSubst.FillerChanges(v.1.value, filler);
    } else {
      EnvSubst.FillerChanges(v.1.description, filler);
    }
  }

  lemma FillerIsInert(n: nat)
    ensures EnvSubst.Inert(EnvSubst.Filler(n), 0)
  {
  }

  lemma FillerExpands(env: EnvSubst.Env, filler: string)
    requires EnvSubst.Inert(filler, 0)
    ensures EnvSubst.Expand(env, filler, 2) == EnvSubst.Ok(filler)
  {
    EnvSubst.InertIsCopied(EnvSubst.Evaluator(env, 2), filler, 0);
    assert filler[0..] == filler;
  }
}
