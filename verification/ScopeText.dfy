/** The exact text a scope is compared by and stored as. */
module ScopeText {
  import opened Options
  import opened Utf16
  import opened Scopes
  import Json
  import JsonText
  import Spelling

  /** A string between quotes, unit by unit. */
  function Quoted(s: Text): Text { [34] + (Spelling.SpelledFrom(s, 0) + [34]) }

  /** `"name":value`, for a name that needs no escape. */
  function Field(name: Text, value: Text): Text { ([34] + (name + [34])) + ([58] + value) }

  function ProjectText(s: Scope): Text { if s.project.Some? then Quoted(s.project.value) else [110, 117, 108, 108] }

  lemma NamesInOrder()
    ensures Less(PROJECT_ID, TENANT_ID) && Less(TENANT_ID, WORKSPACE_ID) && Less(PROJECT_ID, WORKSPACE_ID)
    ensures PROJECT_ID != TENANT_ID && TENANT_ID != WORKSPACE_ID && PROJECT_ID != WORKSPACE_ID
  {
    assert PROJECT_ID[0] == 112 && TENANT_ID[0] == 116 && WORKSPACE_ID[0] == 119;
  }

  lemma StringIsQuoted(s: Text)
    ensures Json.Print(Json.Str(s)) == Quoted(s)
  {
    Spelling.QuoteIsSpelled(s);
  }

  lemma NameIsPlain(name: Text)
    requires forall i :: 0 <= i < |name| ==> 32 <= name[i] < 128 && name[i] != 34 && name[i] != 92
    ensures Json.Print(Json.Str(name)) == [34] + (name + [34])
  {
    Spelling.OrdinaryIsCopied(name);
  }

  /** An object text without its closing brace. */
  function Open(fields: map<Text, Json.Json>): Text {
    var t := Json.Print(Json.Obj(fields));
    if t == [] then [] else t[..|t| - 1]
  }

  lemma NothingOpen()
    ensures Open(map[]) == [123]
  {
    Json.PrintObject(map[]);
  }

  /** One more field, after all smaller names. */
  lemma Grown(fields: map<Text, Json.Json>, name: Text, v: Json.Json, value: Text)
    requires (forall l :: l in fields ==> Less(l, name)) && Json.Print(v) == value
    requires forall i :: 0 <= i < |name| ==> 32 <= name[i] < 128 && name[i] != 34 && name[i] != 92
    ensures Open(fields[name := v]) == Open(fields) + ((if fields == map[] then [] else [44]) + Field(name, value))
    ensures Json.Print(Json.Obj(fields[name := v])) == Open(fields[name := v]) + [125]
  {
    JsonText.ObjectGrows(fields, name, v);
    NameIsPlain(name);
    assert Ascii(",") == [44] && Ascii(":") == [58] && Ascii("}") == [125];
  }

  lemma NamesArePlain(name: Text)
    requires name == PROJECT_ID || name == TENANT_ID || name == WORKSPACE_ID
    ensures forall i :: 0 <= i < |name| ==> 32 <= name[i] < 128 && name[i] != 34 && name[i] != 92
  {
  }

  lemma OneField(first: Text, v: Json.Json)
    requires forall i :: 0 <= i < |first| ==> 32 <= first[i] < 128 && first[i] != 34 && first[i] != 92
    ensures Open(map[first := v]) == [123] + Field(first, Json.Print(v))
  {
    var none: map<Text, Json.Json> := map[];
    var field := Field(first, Json.Print(v));
    NothingOpen();
    Grown(none, first, v, Json.Print(v));
    assert none[first := v] == map[first := v];
    assert [] + field == field;
  }

  lemma TwoFields(first: Text, second: Text, v: Json.Json, w: Json.Json)
    requires Less(first, second) && first != second
    requires forall i :: 0 <= i < |first| ==> 32 <= first[i] < 128 && first[i] != 34 && first[i] != 92
    requires forall i :: 0 <= i < |second| ==> 32 <= second[i] < 128 && second[i] != 34 && second[i] != 92
    ensures var fields: map<Text, Json.Json> := map[first := v][second := w];
      && Open(fields) == [123] + Field(first, Json.Print(v)) + ([44] + Field(second, Json.Print(w)))
      && Json.Print(Json.Obj(fields)) == Open(fields) + [125]
  {
    OneField(first, v);
    var one: map<Text, Json.Json> := map[first := v];
    assert first in one;
    Grown(one, second, w, Json.Print(w));
  }

  lemma ThreeFields(first: Text, second: Text, third: Text, u: Json.Json, v: Json.Json, w: Json.Json)
    requires Less(first, second) && Less(second, third) && Less(first, third) && first != second
    requires forall i :: 0 <= i < |first| ==> 32 <= first[i] < 128 && first[i] != 34 && first[i] != 92
    requires forall i :: 0 <= i < |second| ==> 32 <= second[i] < 128 && second[i] != 34 && second[i] != 92
    requires forall i :: 0 <= i < |third| ==> 32 <= third[i] < 128 && third[i] != 34 && third[i] != 92
    ensures Json.Print(Json.Obj(map[first := u][second := v][third := w])) ==
      [123] + Field(first, Json.Print(u)) + ([44] + Field(second, Json.Print(v))) + ([44] + Field(third, Json.Print(w))) + [125]
  {
    TwoFields(first, second, u, v);
    Grown(map[first := u][second := v], third, w, Json.Print(w));
  }

  /** `{"projectId":P,"tenantId":"T","workspaceId":"W"}`, where an absent project is `null`. */
  lemma ScopeKeyText(s: Scope)
    ensures ScopeKey(s) == [123] + Field(PROJECT_ID, ProjectText(s)) + ([44] + Field(TENANT_ID, Quoted(s.tenant)))
      + ([44] + Field(WORKSPACE_ID, Quoted(s.workspace))) + [125]
  {
    var p := if s.project.Some? then Json.Str(s.project.value) else Json.Null;
    NamesInOrder();
    NamesArePlain(PROJECT_ID); NamesArePlain(TENANT_ID); NamesArePlain(WORKSPACE_ID);
    ProjectIsText(s);
    StringIsQuoted(s.tenant);
    StringIsQuoted(s.workspace);
    ThreeFields(PROJECT_ID, TENANT_ID, WORKSPACE_ID, p, Json.Str(s.tenant), Json.Str(s.workspace));
    FieldsAre(s, p);
  }

  lemma ProjectIsText(s: Scope)
    ensures Json.Print(if s.project.Some? then Json.Str(s.project.value) else Json.Null) == ProjectText(s)
  {
    if s.project.Some? { StringIsQuoted(s.project.value); }
  }

  lemma FieldsAre(s: Scope, p: Json.Json)
    requires p == if s.project.Some? then Json.Str(s.project.value) else Json.Null
    ensures KeyFields(s) == map[PROJECT_ID := p][TENANT_ID := Json.Str(s.tenant)][WORKSPACE_ID := Json.Str(s.workspace)]
  {
    NamesInOrder();
  }

  /** The stored form has no member for an absent project. */
  lemma ScopeJsonText(s: Scope)
    ensures s.project.Some? ==> ScopeJson(s) == ScopeKey(s)
    ensures s.project.None? ==>
      ScopeJson(s) == [123] + Field(TENANT_ID, Quoted(s.tenant)) + ([44] + Field(WORKSPACE_ID, Quoted(s.workspace))) + [125]
  {
    NamesInOrder();
    NamesArePlain(TENANT_ID); NamesArePlain(WORKSPACE_ID);
    StringIsQuoted(s.tenant);
    StringIsQuoted(s.workspace);
    TwoFields(TENANT_ID, WORKSPACE_ID, Json.Str(s.tenant), Json.Str(s.workspace));
    if s.project.Some? {
      assert ScopeFields(s) == KeyFields(s);
    } else {
      assert ScopeFields(s) == map[TENANT_ID := Json.Str(s.tenant)][WORKSPACE_ID := Json.Str(s.workspace)];
    }
  }
}
