/** The operations of the source registry on a table, and the finite map they implement. */
module Registry {
  import opened Options
  import opened Results
  import opened Utf16
  import opened Scopes
  import opened StoredCells
  import opened KeyedTable
  import opened Histories
  import opened ControlStore
  import opened TimestampText

  datatype Outcome = Done | Removed(present: bool) | Refused(failure: Failure)

  function Register(t: Table, r: Registration): (Table, Outcome) {
    if !r.Valid() then (t, Refused(InvalidInput))
    else if Exists(t, ToRowKey(r.id)) then (t, Refused(SourceConflict))
    else (t + [ToRow(r)], Done)
  }

  function Update(t: Table, r: Registration): (Table, Outcome) {
    if !r.Valid() then (t, Refused(InvalidInput))
    else if !Exists(t, ToRowKey(r.id)) then (t, Refused(SourceNotFound))
    else (Overwritten(t, ToRow(r)), Done)
  }

  function Remove(t: Table, k: LogicalKey): (Table, Outcome) {
    if !k.Valid() then (t, Refused(InvalidInput))
    else (Without(t, ToRowKey(k)), Removed(Exists(t, ToRowKey(k))))
  }

  /** The rows of one scope, each read back; one unreadable row fails the whole answer. */
  function ReadRows(t: Table, scope: Scope): Result<seq<Registration>, Failure> {
    if t == [] then Ok([])
    else if t[0].id.scopeKey != Bind(ScopeKey(scope)) then ReadRows(t[1..], scope)
    else
      var first :- ToRegistration(t[0]);
      if first.id.scope != scope then Err(InvalidStoredData)
      else
        var rest :- ReadRows(t[1..], scope);
        Ok([first] + rest)
  }

  function List(t: Table, scope: Scope): Result<seq<Registration>, Failure> {
    if !scope.Valid() then Err(InvalidInput) else ReadRows(t, scope)
  }

  // ---------- which input is refused ----------

  ghost predicate IsNamedKey(k: LogicalKey) {
    && IsNamed(k.scope) && HasText(k.namespace) && HasText(k.key)
    && (k.sourceType == Ascii("markdown") || k.sourceType == Ascii("text") || k.sourceType == Ascii("conversation"))
  }

  lemma ValidIffNamedKey(k: LogicalKey)
    ensures k.Valid() <==> IsNamedKey(k)
  {
    ValidIffNamed(k.scope);
    BlankIff(k.namespace);
    BlankIff(k.key);
  }

  ghost predicate IsWritten(t: OptionalText) { t.Present? ==> HasText(t.text) }

  lemma NotBlankIff(t: OptionalText)
    ensures NotBlank(t) <==> IsWritten(t)
  {
    if t.Present? { BlankIff(t.text); }
  }

  /** A registration and an update are refused as invalid input exactly unless the version is 1, the key is named and of
  a known source type, the locator is written, and so is each time that is present; a removal and a listing unless
  their key or scope is named. */
  lemma InputRefused(t: Table, r: Registration, k: LogicalKey, scope: Scope)
    ensures Register(t, r).1 == Refused(InvalidInput) <==>
      !(r.schemaVersion == 1 && IsNamedKey(r.id) && HasText(r.locator) && IsWritten(r.createdAt) && IsWritten(r.updatedAt))
    ensures Update(t, r).1 == Refused(InvalidInput) <==> Register(t, r).1 == Refused(InvalidInput)
    ensures Remove(t, k).1 == Refused(InvalidInput) <==> !IsNamedKey(k)
    ensures List(t, scope) == Err(InvalidInput) <==> !IsNamed(scope)
  {
    ValidIffNamedKey(r.id);
    ValidIffNamedKey(k);
    ValidIffNamed(scope);
    BlankIff(r.locator);
    NotBlankIff(r.createdAt);
    NotBlankIff(r.updatedAt);
    ReadRowsIff(t, scope);
  }

  // ---------- the map a table stands for ----------

  type Contents = map<LogicalKey, Registration>

  /** The key as its columns can hold it. */
  function KeptKey(k: LogicalKey): LogicalKey { k.(namespace := Bind(k.namespace), key := Bind(k.key)) }

  /** The value of a row: what it holds, when it is filed under the key of that.  Whether its timestamps
  are real instants decides only if it can be listed. */
  function Filed(row: Row): Option<Registration> {
    var r := Decode(row);
    if r.Ok? && row.id == ToRowKey(r.value.id) then Some(r.value) else None
  }

  function Id(r: Registration): LogicalKey { r.id }

  /** The table holds exactly the entries of the map. */
  ghost predicate Holds(t: Table, m: Contents) { Represents(t, Filed, Id, m) }

  lemma ScopeKeyIsStored(s: Scope)
    ensures Bind(ScopeKey(s)) == ScopeKey(s)
  {
    JsonColumn(KeyFields(s));
  }

  /** The primary key separates exactly the logical keys whose text differs after binding. */
  lemma RowKeyInjective(a: LogicalKey, b: LogicalKey)
    requires IsSourceType(a.sourceType) && IsSourceType(b.sourceType)
    ensures ToRowKey(a) == ToRowKey(b) <==> KeptKey(a) == KeptKey(b)
  {
    ScopeKeyIsStored(a.scope);
    ScopeKeyIsStored(b.scope);
    ScopeKeyInjective(a.scope, b.scope);
    SourceTypeColumn(a.sourceType);
    SourceTypeColumn(b.sourceType);
  }

  /** A key is kept as it is exactly when its text is well-formed. */
  lemma KeptKeyIdentity(k: LogicalKey)
    ensures KeptKey(k) == k <==> WellFormed(k.namespace) && WellFormed(k.key)
  {
    BindIsIdentity(k.namespace);
    BindIsIdentity(k.key);
  }

  lemma FiledFacts(row: Row)
    requires Filed(row).Some?
    ensures IsSourceType(Filed(row).value.id.sourceType) && KeptKey(Filed(row).value.id) == Filed(row).value.id
  {
    DecodeFacts(row);
    KeptKeyIdentity(Filed(row).value.id);
  }

  lemma RowsFollowKeys(k: LogicalKey)
    requires k.Valid()
    ensures Files(Filed, Id, ToRowKey(k), KeptKey(k))
  {
    forall row: Row | Filed(row).Some?
      ensures row.id == ToRowKey(k) <==> Id(Filed(row).value) == KeptKey(k)
    {
      FiledFacts(row);
      RowKeyInjective(Filed(row).value.id, k);
    }
  }

  lemma NewRow(r: Registration)
    requires r.Valid()
    ensures Filed(ToRow(r)) == Some(Kept(r)) && Id(Kept(r)) == KeptKey(r.id)
    ensures Files(Filed, Id, ToRow(r).id, KeptKey(r.id))
  {
    RowDecodes(r);
    RowsFollowKeys(r.id);
    BindIsIdentity(Bind(r.id.namespace));
    BindIsIdentity(Bind(r.id.key));
  }

  // ---------- every operation is one on the map ----------

  /** Registering adds one entry, or reports a conflict and changes nothing. */
  lemma RegisterRefines(t: Table, m: Contents, r: Registration)
    requires Holds(t, m) && r.Valid()
    ensures Register(t, r).1 == if KeptKey(r.id) in m then Refused(SourceConflict) else Done
    ensures Holds(Register(t, r).0, if KeptKey(r.id) in m then m else m[KeptKey(r.id) := Kept(r)])
  {
    NewRow(r);
    ExistsIffInMap(t, Filed, Id, m, ToRowKey(r.id), KeptKey(r.id));
    if KeptKey(r.id) !in m { InsertRefines(t, Filed, Id, m, ToRow(r), Kept(r)); }
  }

  /** Updating replaces one entry under its own key, or reports that there is none and changes nothing. */
  lemma UpdateRefines(t: Table, m: Contents, r: Registration)
    requires Holds(t, m) && r.Valid()
    ensures Update(t, r).1 == if KeptKey(r.id) in m then Done else Refused(SourceNotFound)
    ensures Holds(Update(t, r).0, if KeptKey(r.id) in m then m[KeptKey(r.id) := Kept(r)] else m)
  {
    NewRow(r);
    ExistsIffInMap(t, Filed, Id, m, ToRowKey(r.id), KeptKey(r.id));
    if KeptKey(r.id) in m { OverwriteRefines(t, Filed, Id, m, ToRow(r), Kept(r)); }
  }

  /** Removing takes one entry away and answers whether it was there. */
  lemma RemoveRefinesMap(t: Table, m: Contents, k: LogicalKey)
    requires Holds(t, m) && k.Valid()
    ensures Remove(t, k).1 == Removed(KeptKey(k) in m)
    ensures Holds(Remove(t, k).0, m - {KeptKey(k)})
  {
    RowsFollowKeys(k);
    ExistsIffInMap(t, Filed, Id, m, ToRowKey(k), KeptKey(k));
    RemoveRefines(t, Filed, Id, m, ToRowKey(k), KeptKey(k));
  }

  // ---------- listing, over any rows ----------

  /** A row that does not stand in the way of listing a scope. */
  predicate Lists(row: Row, scope: Scope) {
    row.id.scopeKey == Bind(ScopeKey(scope)) ==>
      ToRegistration(row).Ok? && ToRegistration(row).value.id.scope == scope
  }

  /** Every row of the scope, apart from those under `except`, can be listed. */
  ghost predicate AllList(t: Table, scope: Scope, except: set<RowKey>) {
    forall i :: 0 <= i < |t| && t[i].id !in except ==> Lists(t[i], scope)
  }

  /** Listing answers `r`, and from this row. */
  predicate Answers(row: Row, scope: Scope, r: Registration) {
    row.id.scopeKey == Bind(ScopeKey(scope)) && ToRegistration(row) == Ok(r)
  }

  /** Over any rows whatever: reading the rows of a scope succeeds exactly when each of them can be
  listed, and then it answers what they read back as; otherwise it reports invalid stored data. */
  lemma {:induction false} ReadRowsIff(t: Table, scope: Scope)
    ensures ReadRows(t, scope).Ok? <==> AllList(t, scope, {})
    ensures ReadRows(t, scope).Err? ==> ReadRows(t, scope).error == InvalidStoredData
    ensures ReadRows(t, scope).Ok? ==>
      forall r :: r in ReadRows(t, scope).value <==> exists i :: 0 <= i < |t| && Answers(t[i], scope, r)
  {
    if t != [] {
      var tail := t[1..];
      ReadRowsIff(tail, scope);
      ReadIffInstants(t[0]);
      assert forall i :: 0 <= i < |tail| ==> tail[i] == t[i + 1];
      AllListCons(t, scope);
      if ReadRows(t, scope).Ok? {
        forall r ensures r in ReadRows(t, scope).value <==> exists i :: 0 <= i < |t| && Answers(t[i], scope, r) {
          AnswersCons(t, scope, r);
        }
      }
    }
  }

  lemma AllListCons(t: Table, scope: Scope)
    requires t != []
    ensures AllList(t, scope, {}) <==> Lists(t[0], scope) && AllList(t[1..], scope, {})
  {
    var tail := t[1..];
    if Lists(t[0], scope) && AllList(tail, scope, {}) {
      forall i | 0 <= i < |t| ensures Lists(t[i], scope) {
        if i > 0 { assert Lists(tail[i - 1], scope); }
      }
    }
    if AllList(t, scope, {}) {
      assert Lists(t[0], scope);
      forall i | 0 <= i < |tail| ensures Lists(tail[i], scope) { assert Lists(t[i + 1], scope); }
    }
  }

  lemma AnswersCons(t: Table, scope: Scope, r: Registration)
    requires t != []
    ensures (exists i :: 0 <= i < |t| && Answers(t[i], scope, r)) <==>
      Answers(t[0], scope, r) || exists i :: 0 <= i < |t[1..]| && Answers(t[1..][i], scope, r)
  {
    var tail := t[1..];
    if i :| 0 <= i < |tail| && Answers(tail[i], scope, r) { assert Answers(t[i + 1], scope, r); }
    if i :| 0 <= i < |t| && Answers(t[i], scope, r) {
      if i > 0 { assert Answers(tail[i - 1], scope, r); }
    }
  }

  /** The row a write leaves under its key can be listed exactly when its timestamps are real instants. */
  lemma WrittenRowLists(r: Registration)
    requires r.Valid()
    ensures Lists(ToRow(r), r.id.scope) <==> r.HasTimestamps()
  {
    RowRoundTrip(r);
  }

  /** Over any rows whatever: registering leaves its scope listable exactly when it was listable before
  and the new timestamps are real instants, which registering does not check. */
  lemma RegisterThenList(t: Table, r: Registration)
    requires Register(t, r).1.Done?
    ensures List(Register(t, r).0, r.id.scope).Ok? <==> List(t, r.id.scope).Ok? && r.HasTimestamps()
  {
    var u := t + [ToRow(r)];
    WrittenRowLists(r);
    ReadRowsIff(t, r.id.scope);
    ReadRowsIff(u, r.id.scope);
    if AllList(u, r.id.scope, {}) {
      forall i | 0 <= i < |t| ensures Lists(t[i], r.id.scope) { assert Lists(u[i], r.id.scope); }
      assert Lists(u[|t|], r.id.scope);
    }
  }

  /** Registering with two times written digit by digit: the scope can be listed afterwards exactly when it could
  before and both name a real date and time from the year 100 on. */
  lemma RegisterWrittenTimes(t: Table, r: Registration, created: Moment, updated: Moment, cf: Text, uf: Text)
    requires created.IsWritable() && updated.IsWritable() && IsFraction(cf) && IsFraction(uf)
    requires r.createdAt == Present(Written(created, cf)) && r.updatedAt == Present(Written(updated, uf))
    requires Register(t, r).1.Done?
    ensures List(Register(t, r).0, r.id.scope).Ok? <==>
      && List(t, r.id.scope).Ok?
      && IsReal(created) && created.year >= 100 && IsReal(updated) && updated.year >= 100
  {
    RegisterThenList(t, r);
    WrittenTimesAre(r, created, updated, cf, uf);
  }

  lemma WrittenTimesAre(r: Registration, created: Moment, updated: Moment, cf: Text, uf: Text)
    requires created.IsWritable() && updated.IsWritable() && IsFraction(cf) && IsFraction(uf)
    requires r.createdAt == Present(Written(created, cf)) && r.updatedAt == Present(Written(updated, uf))
    ensures r.HasTimestamps() <==> IsReal(created) && created.year >= 100 && IsReal(updated) && updated.year >= 100
  {
    WrittenIsTimestamp(created, cf);
    WrittenIsTimestamp(updated, uf);
  }

  /** Over any rows whatever: an update leaves its scope listable exactly when its own timestamps are real
  instants and every other row of the scope can be listed; so it breaks a scope, and mends one. */
  lemma UpdateThenList(t: Table, r: Registration)
    requires Update(t, r).1.Done?
    ensures List(Update(t, r).0, r.id.scope).Ok? <==> r.HasTimestamps() && AllList(t, r.id.scope, {ToRowKey(r.id)})
  {
    var scope, key, u := r.id.scope, ToRowKey(r.id), Overwritten(t, ToRow(r));
    WrittenRowLists(r);
    ReadRowsIff(u, scope);
    if AllList(u, scope, {}) {
      forall i | 0 <= i < |t| && t[i].id != key ensures Lists(t[i], scope) { assert Lists(u[i], scope); }
      var i :| 0 <= i < |t| && t[i].id == key;
      assert Lists(u[i], scope);
    }
    if r.HasTimestamps() && AllList(t, scope, {key}) {
      forall i | 0 <= i < |u| ensures Lists(u[i], scope) { assert u[i] == t[i] || u[i] == ToRow(r); }
    }
  }

  /** Over any rows with unique keys: a removal leaves a scope listable exactly when every other row of it
  can be listed. */
  lemma RemoveThenList(t: Table, k: LogicalKey)
    requires k.Valid() && UniqueKeys(t)
    ensures List(Remove(t, k).0, k.scope).Ok? <==> AllList(t, k.scope, {ToRowKey(k)})
  {
    var key, u := ToRowKey(k), Without(t, ToRowKey(k));
    WithoutFacts(t, key);
    ReadRowsIff(u, k.scope);
    if AllList(u, k.scope, {}) {
      forall i | 0 <= i < |t| && t[i].id != key ensures Lists(t[i], k.scope) {
        assert t[i] in u;
        var j :| 0 <= j < |u| && u[j] == t[i];
        assert Lists(u[j], k.scope);
      }
    }
    if AllList(t, k.scope, {key}) {
      forall j | 0 <= j < |u| ensures Lists(u[j], k.scope) {
        assert u[j] in u;
        var i :| 0 <= i < |t| && t[i] == u[j];
        assert Lists(t[i], k.scope);
      }
    }
  }

  // ---------- listing, as an operation on the map ----------

  /** Every entry of one scope has real timestamps. */
  ghost predicate Listable(m: Contents, scope: Scope) {
    forall k :: k in m && k.scope == scope ==> m[k].HasTimestamps()
  }

  ghost predicate NoRepeats(rs: seq<Registration>) {
    forall i, j :: 0 <= i < j < |rs| ==> rs[i].id != rs[j].id
  }

  /** How one row takes part in listing a scope. */
  lemma ListedRow(row: Row, scope: Scope)
    requires Filed(row).Some?
    ensures row.id.scopeKey == Bind(ScopeKey(scope)) <==> Filed(row).value.id.scope == scope
    ensures Lists(row, scope) <==> (Filed(row).value.id.scope == scope ==> Filed(row).value.HasTimestamps())
    ensures Lists(row, scope) ==> forall r :: Answers(row, scope, r) <==> Filed(row) == Some(r) && r.id.scope == scope
  {
    ScopeKeyIsStored(scope);
    ScopeKeyIsStored(Filed(row).value.id.scope);
    ScopeKeyInjective(scope, Filed(row).value.id.scope);
    ReadIffInstants(row);
  }

  lemma {:induction false} ListedOnce(t: Table, scope: Scope)
    requires UniqueKeys(t) && (forall i :: 0 <= i < |t| ==> Filed(t[i]).Some?) && ReadRows(t, scope).Ok?
    ensures NoRepeats(ReadRows(t, scope).value)
  {
    if t != [] {
      var tail := t[1..];
      assert forall i :: 0 <= i < |tail| ==> tail[i] == t[i + 1];
      if t[0].id.scopeKey == Bind(ScopeKey(scope)) {
        var first, rest := ToRegistration(t[0]).value, ReadRows(tail, scope).value;
        ListedOnce(tail, scope);
        ReadRowsIff(tail, scope);
        forall j | 0 <= j < |rest| ensures rest[j].id != first.id {
          assert rest[j] in rest;
          var i :| 0 <= i < |tail| && Answers(tail[i], scope, rest[j]);
          DifferentRows(t[0], t[i + 1]);
        }
      } else {
        ListedOnce(tail, scope);
      }
    }
  }

  lemma DifferentRows(a: Row, b: Row)
    requires Filed(a).Some? && Filed(b).Some? && a.id != b.id
    ensures ToRegistration(a).Ok? && ToRegistration(b).Ok? ==> ToRegistration(a).value.id != ToRegistration(b).value.id
  {
    ReadIffInstants(a);
    ReadIffInstants(b);
  }

  /** Listing answers the entries of exactly one scope, each once, or fails: it succeeds exactly when every
  entry of the scope has real timestamps. */
  lemma ListRefines(t: Table, m: Contents, scope: Scope)
    requires Holds(t, m) && scope.Valid()
    ensures List(t, scope).Ok? <==> Listable(m, scope)
    ensures List(t, scope).Err? ==> List(t, scope).error == InvalidStoredData
    ensures List(t, scope).Ok? ==> NoRepeats(List(t, scope).value)
    ensures List(t, scope).Ok? ==>
      forall r :: r in List(t, scope).value <==> r.id in m && m[r.id] == r && r.id.scope == scope
  {
    ReadRowsIff(t, scope);
    forall i | 0 <= i < |t| ensures Filed(t[i]).Some? { assert InMap(t[i], Filed, Id, m); }
    ListableIff(t, m, scope);
    if List(t, scope).Ok? {
      ListedOnce(t, scope);
      ListedContents(t, m, scope);
    }
  }

  lemma ListedContents(t: Table, m: Contents, scope: Scope)
    requires Holds(t, m) && ReadRows(t, scope).Ok?
    ensures forall r :: r in ReadRows(t, scope).value <==> r.id in m && m[r.id] == r && r.id.scope == scope
  {
    ReadRowsIff(t, scope);
    forall r ensures r in ReadRows(t, scope).value <==> r.id in m && m[r.id] == r && r.id.scope == scope {
      AnswersIff(t, m, scope, r);
    }
  }

  lemma ListableIff(t: Table, m: Contents, scope: Scope)
    requires Holds(t, m)
    ensures AllList(t, scope, {}) <==> Listable(m, scope)
  {
    if AllList(t, scope, {}) {
      forall k | k in m && k.scope == scope ensures m[k].HasTimestamps() {
        assert Listed(t, Filed, m[k]) && Id(m[k]) == k;
        var i :| 0 <= i < |t| && Filed(t[i]) == Some(m[k]);
        assert Lists(t[i], scope);
        ListedRow(t[i], scope);
      }
    }
    if Listable(m, scope) {
      forall i | 0 <= i < |t| ensures Lists(t[i], scope) {
        assert InMap(t[i], Filed, Id, m);
        ListedRow(t[i], scope);
      }
    }
  }

  lemma AnswersIff(t: Table, m: Contents, scope: Scope, r: Registration)
    requires Holds(t, m) && AllList(t, scope, {})
    ensures (exists i :: 0 <= i < |t| && Answers(t[i], scope, r)) <==> r.id in m && m[r.id] == r && r.id.scope == scope
  {
    if i :| 0 <= i < |t| && Answers(t[i], scope, r) {
      assert InMap(t[i], Filed, Id, m) && Lists(t[i], scope);
      ListedRow(t[i], scope);
    }
    if r.id in m && m[r.id] == r && r.id.scope == scope {
      assert Listed(t, Filed, m[r.id]);
      var i :| 0 <= i < |t| && Filed(t[i]) == Some(r);
      assert Lists(t[i], scope);
      ListedRow(t[i], scope);
      assert Answers(t[i], scope, r);
    }
  }

  // ---------- whole histories ----------

  datatype Operation = RegisterOp(r: Registration) | UpdateOp(r: Registration) | RemoveOp(k: LogicalKey)

  function Perform(t: Table, op: Operation): (Table, Outcome) {
    match op
    case RegisterOp(r) => Register(t, r)
    case UpdateOp(r) => Update(t, r)
    case RemoveOp(k) => Remove(t, k)
  }

  /** The same operation on the map. */
  function PerformOnMap(m: Contents, op: Operation): (Contents, Outcome) {
    match op
    case RegisterOp(r) =>
      if !r.Valid() then (m, Refused(InvalidInput))
      else if KeptKey(r.id) in m then (m, Refused(SourceConflict))
      else (m[KeptKey(r.id) := Kept(r)], Done)
    case UpdateOp(r) =>
      if !r.Valid() then (m, Refused(InvalidInput))
      else if KeptKey(r.id) in m then (m[KeptKey(r.id) := Kept(r)], Done)
      else (m, Refused(SourceNotFound))
    case RemoveOp(k) =>
      if !k.Valid() then (m, Refused(InvalidInput))
      else (m - {KeptKey(k)}, Removed(KeptKey(k) in m))
  }

  lemma PerformRefines(t: Table, m: Contents, op: Operation)
    requires Holds(t, m)
    ensures Holds(Perform(t, op).0, PerformOnMap(m, op).0)
    ensures Perform(t, op).1 == PerformOnMap(m, op).1
  {
    match op
    case RegisterOp(r) => if r.Valid() { RegisterRefines(t, m, r); }
    case UpdateOp(r) => if r.Valid() { UpdateRefines(t, m, r); }
    case RemoveOp(k) => if k.Valid() { RemoveRefinesMap(t, m, k); }
  }

  /** Over any history of operations the table behaves as the map: the same answers, and the same
  entries at the end. */
  lemma HistoryRefines(t: Table, m: Contents, ops: seq<Operation>)
    requires Holds(t, m)
    ensures Holds(Run(Perform, t, ops).0, Run(PerformOnMap, m, ops).0)
    ensures Run(Perform, t, ops).1 == Run(PerformOnMap, m, ops).1
  {
    forall t, m, op | Holds(t, m)
      ensures Holds(Perform(t, op).0, PerformOnMap(m, op).0) && Perform(t, op).1 == PerformOnMap(m, op).1
    {
      PerformRefines(t, m, op);
    }
    RunsAgree(Perform, PerformOnMap, Holds, t, m, ops);
  }

  /** A fresh table stands for the empty map. */
  lemma EmptyHolds()
    ensures Holds([], map[])
  {
  }

  /** After any history of a fresh store, a scope can be listed exactly when every entry the history left
  in it has real timestamps. */
  lemma HistoryThenList(ops: seq<Operation>, scope: Scope)
    requires scope.Valid()
    ensures List(Run(Perform, [], ops).0, scope).Ok? <==> Listable(Run(PerformOnMap, map[], ops).0, scope)
  {
    EmptyHolds();
    HistoryRefines([], map[], ops);
    ListRefines(Run(Perform, [], ops).0, Run(PerformOnMap, map[], ops).0, scope);
  }

  // ---------- what the checks on write let through ----------

  /** An accepted registration that makes its scope unlistable: its creation time is a word. */
  lemma WordAsTimestamp(scope: Scope)
    requires scope.Valid()
    ensures var word := Present(Ascii("yesterday"));
      var r := Registration(1, LogicalKey(scope, MARKDOWN, [0x61], [0x61]), [0x61], Absent, word, Absent, map[]);
      r.Valid() && Register([], r).1.Done? && List(Register([], r).0, scope).Err?
  {
    var word := Ascii("yesterday");
    var letter: Text := [0x61];
    assert !IsWhitespace(word[0]) && !IsWhitespace(letter[0]);
    var r := Registration(1, LogicalKey(scope, MARKDOWN, letter, letter), letter, Absent, Present(word), Absent, map[]);
    WordIsNoTimestamp(word);
    assert Register([], r).1 == Done;
    RegisterThenList([], r);
  }

  lemma WordIsNoTimestamp(t: Text)
    requires |t| < 20
    ensures !IsInstant(Present(t))
  {
  }

  /** The row key an operation works on. */
  function Target(op: Operation): RowKey {
    match op
    case RegisterOp(r) => ToRowKey(r.id)
    case UpdateOp(r) => ToRowKey(r.id)
    case RemoveOp(k) => ToRowKey(k)
  }

  lemma OverwrittenOthers(t: Table, row: Row, other: Row)
    requires UniqueKeys(t) && other.id != row.id
    ensures other in Overwritten(t, row) <==> other in t
    ensures UniqueKeys(Overwritten(t, row))
  {
    var u := Overwritten(t, row);
    assert forall i :: 0 <= i < |t| ==> u[i].id == t[i].id;
    if other in u {
      var i :| 0 <= i < |u| && u[i] == other;
      assert t[i] == other;
    }
    if other in t {
      var i :| 0 <= i < |t| && t[i] == other;
      assert u[i] == other;
    }
  }

  /** Whatever the rows hold, an operation leaves every row under another key as it is, and no
  operation makes a second row for one key. */
  lemma OtherRowsUntouched(t: Table, op: Operation, row: Row)
    requires UniqueKeys(t) && row.id != Target(op)
    ensures row in Perform(t, op).0 <==> row in t
    ensures UniqueKeys(Perform(t, op).0)
  {
    match op
    case RegisterOp(r) =>
    case UpdateOp(r) => OverwrittenOthers(t, ToRow(r), row);
    case RemoveOp(k) => WithoutFacts(t, ToRowKey(k));
  }

  /** Keys whose text binds alike reach the same row: removing under one removes the other. */
  lemma AliasedRemoval(t: Table, a: LogicalKey, b: LogicalKey)
    requires a.Valid() && b.Valid() && KeptKey(a) == KeptKey(b)
    ensures Remove(t, a) == Remove(t, b)
  {
    RowKeyInjective(a, b);
  }

  /** Such keys exist: a lone surrogate, and the replacement character it is stored as. */
  lemma AliasedKeys(scope: Scope)
    requires scope.Valid()
    ensures var asked := LogicalKey(scope, MARKDOWN, [0x61], [0xD800]); var stored := LogicalKey(scope, MARKDOWN, [0x61], [0xFFFD]);
      asked != stored && asked.Valid() && stored.Valid() && KeptKey(asked) == KeptKey(stored)
  {
    var letter: Text, lone: Text, replacement: Text := [0x61], [0xD800], [0xFFFD];
    assert !IsWhitespace(letter[0]) && !IsWhitespace(lone[0]) && !IsWhitespace(replacement[0]);
    assert ReplaceLone(lone) == replacement && ReplaceLone(replacement) == replacement;
  }
}
