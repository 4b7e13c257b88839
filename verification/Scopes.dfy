/** Tenant, workspace and optional project: the boundary every stored record belongs to. */
module Scopes {
  import opened Options
  import opened Utf16
  import Json

  datatype Scope = Scope(tenant: Text, workspace: Text, project: Option<Text>) {
    /** No identifier is blank. */
    predicate Valid() {
      !IsBlank(tenant) && !IsBlank(workspace) && (project.Some? ==> !IsBlank(project.value))
    }
  }

  /** A scope with its identifiers written out. */
  ghost predicate IsNamed(s: Scope) {
    HasText(s.tenant) && HasText(s.workspace) && (s.project.Some? ==> HasText(s.project.value))
  }

  lemma ValidIffNamed(s: Scope)
    ensures s.Valid() <==> IsNamed(s)
  {
    BlankIff(s.tenant);
    BlankIff(s.workspace);
    if s.project.Some? { BlankIff(s.project.value); }
  }

  const TENANT_ID: Text := Ascii("tenantId")
  const WORKSPACE_ID: Text := Ascii("workspaceId")
  const PROJECT_ID: Text := Ascii("projectId")

  lemma FieldNamesDiffer()
    ensures TENANT_ID != WORKSPACE_ID && TENANT_ID != PROJECT_ID && WORKSPACE_ID != PROJECT_ID
  {
    assert TENANT_ID[0] != WORKSPACE_ID[0] && TENANT_ID[0] != PROJECT_ID[0] && WORKSPACE_ID[0] != PROJECT_ID[0];
  }

  /** The comparison key: an absent project is written as `null`. */
  function ScopeKey(s: Scope): Text {
    Json.Print(Json.Obj(KeyFields(s)))
  }

  function KeyFields(s: Scope): map<Text, Json.Json> {
    map[TENANT_ID := Json.Str(s.tenant), WORKSPACE_ID := Json.Str(s.workspace),
        PROJECT_ID := if s.project.Some? then Json.Str(s.project.value) else Json.Null]
  }

  /** The stored form: exactly the fields the scope has. */
  function ScopeFields(s: Scope): map<Text, Json.Json> {
    var base := map[TENANT_ID := Json.Str(s.tenant), WORKSPACE_ID := Json.Str(s.workspace)];
    if s.project.Some? then base[PROJECT_ID := Json.Str(s.project.value)] else base
  }

  function ScopeJson(s: Scope): Text {
    Json.Print(Json.Obj(ScopeFields(s)))
  }

  /** The strict scope schema over a parsed object. */
  function ReadScope(fields: map<Text, Json.Json>): Option<Scope> {
    if TENANT_ID in fields && WORKSPACE_ID in fields && fields.Keys <= {TENANT_ID, WORKSPACE_ID, PROJECT_ID}
       && fields[TENANT_ID].Str? && fields[WORKSPACE_ID].Str? && (PROJECT_ID in fields ==> fields[PROJECT_ID].Str?)
    then
      var project := if PROJECT_ID in fields then Some(fields[PROJECT_ID].s) else None;
      var s := Scope(fields[TENANT_ID].s, fields[WORKSPACE_ID].s, project);
      if s.Valid() then Some(s) else None
    else None
  }

  /** The key separates any two scopes, absent projects included. */
  lemma ScopeKeyInjective(a: Scope, b: Scope)
    ensures ScopeKey(a) == ScopeKey(b) <==> a == b
  {
    FieldNamesDiffer();
    Json.PrintInjective(Json.Obj(KeyFields(a)), Json.Obj(KeyFields(b)));
    if ScopeKey(a) == ScopeKey(b) {
      assert KeyFields(a)[TENANT_ID] == KeyFields(b)[TENANT_ID];
      assert KeyFields(a)[WORKSPACE_ID] == KeyFields(b)[WORKSPACE_ID];
      assert KeyFields(a)[PROJECT_ID] == KeyFields(b)[PROJECT_ID];
    }
  }

  lemma ScopeFieldsInjective(a: Scope, b: Scope)
    ensures ScopeFields(a) == ScopeFields(b) <==> a == b
  {
    FieldNamesDiffer();
    if ScopeFields(a) == ScopeFields(b) {
      assert ScopeFields(a)[TENANT_ID] == ScopeFields(b)[TENANT_ID];
      assert ScopeFields(a)[WORKSPACE_ID] == ScopeFields(b)[WORKSPACE_ID];
      assert PROJECT_ID in ScopeFields(a) <==> a.project.Some?;
      assert PROJECT_ID in ScopeFields(b) <==> b.project.Some?;
    }
  }

  /** A valid scope is read back from its own fields. */
  lemma ScopeRoundTrip(s: Scope)
    requires s.Valid()
    ensures ReadScope(ScopeFields(s)) == Some(s)
  {
    FieldNamesDiffer();
  }
}
