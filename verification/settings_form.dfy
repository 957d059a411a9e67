/**
 * `PermissionsFromFileSettingsForm`: the data logic behind the settings form. It
 * covers the role options it offers, the repeatable-row counter, the per-row
 * validation, and the normalisation that `submitForm` applies before storing
 * the mappings and recomputing the unmapped roles.
 */
module SettingsForm {
  import opened Wrappers
  import opened Seqs
  import opened Php
  import opened Settings
  import PermissionsConfig
  import PermissionsCheck

  /** The same file map the login check reads; `file_exists` sees every key, readable or not. */
  type FileSystem = PermissionsCheck.FileSystem

  // ---------------------------------------------------------------------------
  // Role options
  // ---------------------------------------------------------------------------

  /** The two built-in roles the form never offers. */
  const BuiltIn: set<string> := {"anonymous", "authenticated"}

  /**
   * The checkbox options: every role id loaded from storage, in storage order,
   * except `anonymous` and `authenticated`.
   */
  function RoleOptions(roleIds: seq<string>): (options: seq<string>)
    ensures forall x :: x in options <==> x in roleIds && x != "anonymous" && x != "authenticated"
    ensures NoDuplicates(roleIds) ==> NoDuplicates(options)
  {
    WithoutNoDuplicates(roleIds, BuiltIn);
    Without(roleIds, BuiltIn)
  }

  // ---------------------------------------------------------------------------
  // The `mappings_count` counter
  // ---------------------------------------------------------------------------

  /** The `mappings_count` form-state value: not yet set, a number, or something else. */
  datatype Count = Unset | Numeric(n: int) | NonNumeric

  /** The part of the form state the row counter touches. */
  datatype CounterState = CounterState(count: Count, rebuild: bool)

  /**
   * The number of rows shown on first build: the number of stored mappings, but
   * at least one; a stored value that is not a list counts as one row.
   */
  function InitialCount(defaults: Option<seq<Row>>): (n: nat)
    ensures 1 <= n
    ensures defaults.Some? ==> |defaults.value| <= n
    ensures n == 1 || (defaults.Some? && n == |defaults.value|)
  {
    match defaults
    case Some(rows) => if |rows| > 1 then |rows| else 1
    case None => 1
  }

  /** `buildForm` sets the counter only when the form state has none yet. */
  function BuildCount(s: CounterState, defaults: Option<seq<Row>>): (built: CounterState)
    ensures s.count.Unset? ==> built.count.Numeric? && built.count.n >= 1
    ensures s.count.Unset? ==> built.count == Numeric(InitialCount(defaults)) && built.rebuild == s.rebuild
    ensures !s.count.Unset? ==> built == s
  {
    if s.count.Unset? then s.(count := Numeric(InitialCount(defaults))) else s
  }

  /** The "Remove last" button is shown only while more than one row is displayed. */
  predicate RemoveShown(s: CounterState) {
    s.count.Numeric? && s.count.n > 1
  }

  /** `addOne`: one more row and a rebuild, when the counter is numeric. */
  function AddOne(s: CounterState): (next: CounterState)
    ensures s.count.Numeric? ==> next.count.Numeric? && next.count.n == s.count.n + 1 && next.rebuild
    ensures !s.count.Numeric? ==> next == s
  {
    match s.count
    case Numeric(n) => CounterState(Numeric(n + 1), true)
    case _ => s
  }

  /** `removeOne`: one row fewer and a rebuild, but never below one row. */
  function RemoveOne(s: CounterState): (next: CounterState)
    ensures s.count.Numeric? ==> next.count.Numeric? && next.count.n == if s.count.n > 1 then s.count.n - 1 else s.count.n
    ensures s.count.Numeric? && s.count.n >= 1 ==> next.count.n >= 1
    ensures RemoveShown(s) ==> next.rebuild
    ensures !RemoveShown(s) ==> next == s
  {
    match s.count
    case Numeric(n) => if n > 1 then CounterState(Numeric(n - 1), true) else s
    case _ => s
  }

  datatype Click = Add | Remove

  /** The counter after a sequence of button clicks. */
  function Run(s: CounterState, clicks: seq<Click>): CounterState
    decreases |clicks|
  {
    if clicks == [] then s
    else Run(if clicks[0].Add? then AddOne(s) else RemoveOne(s), clicks[1..])
  }

  /**
   * Starting from any count of at least one, no sequence of clicks drops the
   * counter below one row, and each click adds at most one row.
   */
  lemma {:induction false} RunKeepsOneRow(s: CounterState, clicks: seq<Click>)
    requires s.count.Numeric? && s.count.n >= 1
    ensures Run(s, clicks).count.Numeric?
    ensures 1 <= Run(s, clicks).count.n <= s.count.n + |clicks|
    decreases |clicks|
  {
    if clicks != [] {
      var next := if clicks[0].Add? then AddOne(s) else RemoveOne(s);
      RunKeepsOneRow(next, clicks[1..]);
    }
  }

  /** Whatever was stored, the counter `buildForm` sets up keeps at least one row under any clicks. */
  lemma BuiltCounterKeepsOneRow(defaults: Option<seq<Row>>, clicks: seq<Click>)
    ensures Run(BuildCount(CounterState(Unset, false), defaults), clicks).count.Numeric?
    ensures Run(BuildCount(CounterState(Unset, false), defaults), clicks).count.n >= 1
  {
    RunKeepsOneRow(BuildCount(CounterState(Unset, false), defaults), clicks);
  }

  /** "Remove last" undoes "Add mapping" on any numeric count of at least one row. */
  lemma RemoveUndoesAdd(s: CounterState)
    requires s.count.Numeric? && s.count.n >= 1
    ensures RemoveOne(AddOne(s)).count == s.count
  {
  }

  /** "Add mapping" undoes "Remove last" whenever the remove button is on screen. */
  lemma AddUndoesRemove(s: CounterState)
    requires RemoveShown(s)
    ensures AddOne(RemoveOne(s)).count == s.count
  {
  }

  /** For a numeric count, `removeOne` changes the counter exactly when the button is shown. */
  lemma RemoveActsWhenShown(s: CounterState)
    requires s.count.Numeric?
    ensures RemoveOne(s).count != s.count <==> RemoveShown(s)
  {
  }

  /** The counter tests: 1 becomes 2 on "Add mapping", 2 becomes 1 on "Remove last", both rebuilding. */
  lemma CounterExample()
    ensures AddOne(CounterState(Numeric(1), false)) == CounterState(Numeric(2), true)
    ensures RemoveOne(CounterState(Numeric(2), false)) == CounterState(Numeric(1), true)
    ensures RemoveOne(CounterState(Numeric(1), false)) == CounterState(Numeric(1), false)
  {
  }

  // ---------------------------------------------------------------------------
  // Submitted rows
  // ---------------------------------------------------------------------------

  /** One entry of a `checkboxes` value: the option key, and the role id when ticked or 0 when not. */
  datatype Checkbox = Checkbox(key: string, value: Scalar)

  /**
   * The submitted `roles` of a row: missing or null, the checkboxes array, or a
   * scalar, which the form wraps in a one-element list under key 0.
   */
  datatype RolesValue = NoRoles | Checkboxes(entries: seq<Checkbox>) | Single(v: Scalar)

  /** One submitted row; a missing or null `file_path` is `None`. A row that is not an array reads as `FormRow(None, NoRoles)`. */
  datatype FormRow = FormRow(filePath: Option<string>, roles: RolesValue)

  /** The submitted `mappings` value: missing or null, a list of rows, or something else. */
  datatype FormValue = Missing | Rows(rows: seq<FormRow>) | NotRows

  /** A PHP array never repeats a key. */
  predicate DistinctKeys(entries: seq<Checkbox>) {
    forall i, j :: 0 <= i < j < |entries| ==> entries[i].key != entries[j].key
  }

  /** `array_keys(array_filter(...))` over the checkboxes: keys whose value is truthy, in order. */
  function SelectedKeys(entries: seq<Checkbox>): (keys: seq<string>)
    ensures |keys| <= |entries|
    decreases |entries|
  {
    if entries == [] then []
    else (if Truthy(entries[0].value) then [entries[0].key] else []) + SelectedKeys(entries[1..])
  }

  /** The role ids a row selects. The key 0 of a wrapped scalar is written as "0". */
  function SelectedRoles(roles: RolesValue): seq<string> {
    match roles
    case NoRoles => []
    case Checkboxes(entries) => SelectedKeys(entries)
    case Single(v) => if Truthy(v) then ["0"] else []
  }

  /** A key is selected exactly when some checkbox with that key is ticked; distinct keys stay distinct. */
  lemma {:induction false} SelectedKeysMembers(entries: seq<Checkbox>)
    ensures forall k :: k in SelectedKeys(entries) <==>
      exists i :: 0 <= i < |entries| && entries[i].key == k && Truthy(entries[i].value)
    ensures DistinctKeys(entries) ==> NoDuplicates(SelectedKeys(entries))
    decreases |entries|
  {
    if entries != [] {
      SelectedKeysMembers(entries[1..]);
      var rest := entries[1..];
      assert forall i :: 1 <= i < |entries| ==> entries[i] == rest[i - 1];
      forall k | k in SelectedKeys(rest)
        ensures exists i :: 0 <= i < |entries| && entries[i].key == k && Truthy(entries[i].value)
      {
        var i :| 0 <= i < |rest| && rest[i].key == k && Truthy(rest[i].value);
        assert entries[i + 1] == rest[i];
      }
      if DistinctKeys(entries) {
        assert DistinctKeys(rest);
        assert entries[0].key !in SelectedKeys(rest);
        NoDuplicatesCons(entries[0].key, SelectedKeys(rest));
      }
    }
  }

  /** Selection keeps the order of the checkboxes: it distributes over concatenation. */
  lemma {:induction false} SelectedKeysAppend(a: seq<Checkbox>, b: seq<Checkbox>)
    ensures SelectedKeys(a + b) == SelectedKeys(a) + SelectedKeys(b)
    decreases |a|
  {
    if a != [] {
      assert (a + b)[0] == a[0];
      assert (a + b)[1..] == a[1..] + b;
      SelectedKeysAppend(a[1..], b);
    } else {
      assert a + b == b;
    }
  }

  /** The trimmed path of a row; a missing path reads as the empty string. */
  function PathOf(row: FormRow): string {
    Trim(row.filePath.GetOr([]))
  }

  // ---------------------------------------------------------------------------
  // Validation
  // ---------------------------------------------------------------------------

  /** The two messages `validateForm` sets on a row's `file_path` element, by row position. */
  datatype ValidationError = BothOrNeither(delta: nat) | FileNotFound(delta: nat, path: string)

  /** The row has a path but no role, or a role but no path. */
  predicate Mismatch(row: FormRow) {
    (PathOf(row) != []) != (SelectedRoles(row.roles) != [])
  }

  /** The row names a path that does not exist. */
  predicate FileMissing(fs: FileSystem, row: FormRow) {
    PathOf(row) != [] && PathOf(row) !in fs
  }

  /** The errors one row raises, in the order the code raises them. */
  function RowErrors(fs: FileSystem, delta: nat, row: FormRow): seq<ValidationError> {
    var path := PathOf(row);
    var hasPath := path != [];
    var hasRoles := SelectedRoles(row.roles) != [];
    (if (hasPath && !hasRoles) || (!hasPath && hasRoles) then [BothOrNeither(delta)] else [])
    + (if hasPath && path !in fs then [FileNotFound(delta, path)] else [])
  }

  /** The `foreach` of `validateForm` from row `i` on. */
  function ValidateFrom(fs: FileSystem, rows: seq<FormRow>, i: nat): (errors: seq<ValidationError>)
    requires i <= |rows|
    ensures forall e :: e in errors ==> i <= e.delta < |rows|
    ensures forall d :: i <= d < |rows| ==> (BothOrNeither(d) in errors <==> Mismatch(rows[d]))
    ensures forall d, p :: i <= d < |rows| ==>
      (FileNotFound(d, p) in errors <==> FileMissing(fs, rows[d]) && p == PathOf(rows[d]))
    decreases |rows| - i
  {
    if i == |rows| then []
    else
      var here := RowErrors(fs, i, rows[i]);
      var rest := ValidateFrom(fs, rows, i + 1);
      RowErrorsMembers(fs, i, rows[i]);
      here + rest
  }

  /** The errors of one row all name that row, and are exactly the two checks that fail. */
  lemma RowErrorsMembers(fs: FileSystem, delta: nat, row: FormRow)
    ensures forall e :: e in RowErrors(fs, delta, row) ==> e.delta == delta
    ensures BothOrNeither(delta) in RowErrors(fs, delta, row) <==> Mismatch(row)
    ensures forall p :: FileNotFound(delta, p) in RowErrors(fs, delta, row) <==> FileMissing(fs, row) && p == PathOf(row)
  {
  }

  /**
   * `validateForm`: every row is flagged when exactly one of path and roles is
   * given, and again when its path does not exist. A missing value is an empty
   * list; a value that is not a list is not checked at all.
   */
  function Validate(fs: FileSystem, value: FormValue): (errors: seq<ValidationError>)
    ensures !value.Rows? ==> errors == []
    ensures value.Rows? ==> forall e :: e in errors ==> e.delta < |value.rows|
    ensures value.Rows? ==> forall d :: 0 <= d < |value.rows| ==>
      (BothOrNeither(d) in errors <==> Mismatch(value.rows[d]))
    ensures value.Rows? ==> forall d, p :: 0 <= d < |value.rows| ==>
      (FileNotFound(d, p) in errors <==> FileMissing(fs, value.rows[d]) && p == PathOf(value.rows[d]))
  {
    match value
    case Rows(rows) => ValidateFrom(fs, rows, 0)
    case _ => []
  }

  /** The form elements that end up carrying an error: both messages name the row's `file_path`. */
  function FlaggedRows(errors: seq<ValidationError>): set<nat> {
    set e | e in errors :: e.delta
  }

  /** A path with no ticked role flags its row, whether or not the file exists. */
  lemma ValidateMissingRoleExample(fs: FileSystem)
    ensures FlaggedRows(Validate(fs, Rows([FormRow(Some("/some/path.txt"), Checkboxes([]))]))) == {0}
  {
  }

  /** A ticked role with a path that does not exist flags its row once. */
  lemma ValidateInvalidPathExample(fs: FileSystem)
    requires "/invalid/path" !in fs
    ensures Validate(fs, Rows([FormRow(Some("/invalid/path"), Checkboxes([Checkbox("editor", Str("editor"))]))]))
         == [FileNotFound(0, "/invalid/path")]
  {
    TrimTrimmed("/invalid/path");
    assert SelectedKeys([Checkbox("editor", Str("editor"))]) == ["editor"];
  }

  // ---------------------------------------------------------------------------
  // Submission
  // ---------------------------------------------------------------------------

  /** A stored mapping row as `submitForm` writes it. */
  datatype Mapping = Mapping(filePath: string, roles: seq<string>)

  /** The normalised form of a submitted row: trimmed path, selected role ids. */
  function Normalize(row: FormRow): Mapping {
    Mapping(PathOf(row), SelectedRoles(row.roles))
  }

  /** A fully empty row, which `submitForm` drops. */
  predicate IsBlank(m: Mapping) {
    m.filePath == [] && m.roles == []
  }

  /** Every submitted row, normalised, in order. */
  function NormalizeAll(rows: seq<FormRow>): (ms: seq<Mapping>)
    ensures |ms| == |rows|
    ensures forall i :: 0 <= i < |rows| ==> ms[i] == Normalize(rows[i])
  {
    seq(|rows|, i requires 0 <= i < |rows| => Normalize(rows[i]))
  }

  /** The `continue` of `submitForm`: fully empty rows are skipped, the others kept in order. */
  function DropBlank(ms: seq<Mapping>): (kept: seq<Mapping>)
    ensures |kept| <= |ms|
    decreases |ms|
  {
    if ms == [] then []
    else (if IsBlank(ms[0]) then [] else [ms[0]]) + DropBlank(ms[1..])
  }

  /** The rows `submitForm` stores for a submitted list. */
  function Clean(rows: seq<FormRow>): seq<Mapping> {
    DropBlank(NormalizeAll(rows))
  }

  /** A mapping is kept exactly when it is one of the inputs and not blank. */
  lemma {:induction false} DropBlankMembers(ms: seq<Mapping>)
    ensures forall m :: m in DropBlank(ms) <==> m in ms && !IsBlank(m)
    decreases |ms|
  {
    if ms != [] {
      DropBlankMembers(ms[1..]);
      assert ms == [ms[0]] + ms[1..];
    }
  }

  /** Dropping blank rows keeps the input order: it distributes over concatenation. */
  lemma {:induction false} DropBlankAppend(a: seq<Mapping>, b: seq<Mapping>)
    ensures DropBlank(a + b) == DropBlank(a) + DropBlank(b)
    decreases |a|
  {
    if a != [] {
      assert (a + b)[0] == a[0];
      assert (a + b)[1..] == a[1..] + b;
      DropBlankAppend(a[1..], b);
    } else {
      assert a + b == b;
    }
  }

  /** A stored row is exactly the normalised form of some submitted row that is not blank. */
  lemma CleanMembers(rows: seq<FormRow>)
    ensures forall m :: m in Clean(rows) <==>
      exists i :: 0 <= i < |rows| && m == Normalize(rows[i]) && !IsBlank(m)
  {
    var ms := NormalizeAll(rows);
    DropBlankMembers(ms);
    forall m ensures m in ms <==> exists i :: 0 <= i < |rows| && m == Normalize(rows[i]) {
      if m in ms {
        var i :| 0 <= i < |ms| && ms[i] == m;
      }
    }
  }

  /** Every stored row has something in it, and its path carries no surrounding blanks. */
  lemma CleanStored(rows: seq<FormRow>)
    ensures forall m :: m in Clean(rows) ==> !IsBlank(m) && IsTrimmed(m.filePath)
  {
    CleanMembers(rows);
  }

  /** Cleaning keeps the input order: it distributes over concatenation. */
  lemma CleanAppend(a: seq<FormRow>, b: seq<FormRow>)
    ensures Clean(a + b) == Clean(a) + Clean(b)
  {
    var whole, left, right := NormalizeAll(a + b), NormalizeAll(a), NormalizeAll(b);
    forall i | 0 <= i < |a + b| ensures whole[i] == (left + right)[i] {
      if i < |a| {
        assert (a + b)[i] == a[i];
      } else {
        assert (a + b)[i] == b[i - |a|];
      }
    }
    assert whole == left + right;
    DropBlankAppend(NormalizeAll(a), NormalizeAll(b));
  }

  /** A row that passed validation is stored with a path that exists and at least one role. */
  lemma ValidatedRowsComplete(fs: FileSystem, rows: seq<FormRow>)
    requires Validate(fs, Rows(rows)) == []
    ensures forall m :: m in Clean(rows) ==> m.filePath != [] && m.roles != [] && m.filePath in fs
  {
    CleanMembers(rows);
    forall m | m in Clean(rows) ensures m.filePath != [] && m.roles != [] && m.filePath in fs {
      var i :| 0 <= i < |rows| && m == Normalize(rows[i]) && !IsBlank(m);
      assert !Mismatch(rows[i]);
      assert !FileMissing(fs, rows[i]) by {
        assert FileNotFound(i, PathOf(rows[i])) !in Validate(fs, Rows(rows));
      }
    }
  }

  /** The row `updateUnmappedRoles` reads back for a stored mapping. */
  function ToRow(m: Mapping): (row: Row)
    ensures WellFormed(row) && RolesOf(row) == m.roles
  {
    Entry(Some(m.filePath), Some(m.roles))
  }

  function ToRows(ms: seq<Mapping>): (rows: seq<Row>)
    ensures |rows| == |ms|
    ensures forall i :: 0 <= i < |ms| ==> rows[i] == ToRow(ms[i])
  {
    seq(|ms|, i requires 0 <= i < |ms| => ToRow(ms[i]))
  }

  /** The roles mapped by the stored rows are exactly those some stored mapping lists. */
  lemma MappedRolesOfMappings(ms: seq<Mapping>)
    ensures forall x :: x in MappedRoles(ToRows(ms)) <==> exists m :: m in ms && x in m.roles
  {
    var rows := ToRows(ms);
    MappedRolesMembers(rows);
    forall x ensures x in MappedRoles(rows) <==> exists m :: m in ms && x in m.roles {
      if x in MappedRoles(rows) {
        var i :| 0 <= i < |rows| && x in RolesOf(rows[i]);
        assert ms[i] in ms && x in ms[i].roles;
      }
      if exists m :: m in ms && x in m.roles {
        var m :| m in ms && x in m.roles;
        var i :| 0 <= i < |ms| && ms[i] == m;
        assert x in RolesOf(rows[i]);
      }
    }
  }

  /** What `submitForm` writes: the cleaned mappings, then the recomputed unmapped roles. */
  datatype Submission = Submission(mappings: seq<Mapping>, unmapped: seq<string>)

  /**
   * `submitForm`: `None` when the submitted value is not a list, in which case
   * nothing is saved and the unmapped roles are not recomputed. Otherwise the
   * non-blank rows are stored, normalised, and the unmapped roles are computed
   * once against what was just stored.
   */
  function SubmitForm(value: FormValue, allRoles: seq<string>): (saved: Option<Submission>)
    ensures saved.None? <==> value.NotRows?
    ensures value.Missing? ==> saved == Some(Submission([], allRoles))
    ensures value.Rows? ==> saved.Some? && saved.value.mappings == Clean(value.rows)
    ensures saved.Some? ==> |saved.value.mappings| <= (if value.Rows? then |value.rows| else 0)
    ensures saved.Some? ==> forall m :: m in saved.value.mappings ==> !IsBlank(m) && IsTrimmed(m.filePath)
    ensures saved.Some? ==> forall x :: x in saved.value.unmapped <==>
      x in allRoles && forall m :: m in saved.value.mappings ==> x !in m.roles
    ensures saved.Some? && NoDuplicates(allRoles) ==> NoDuplicates(saved.value.unmapped)
  {
    match value
    case NotRows => None
    case Missing =>
      var unmapped := PermissionsConfig.UpdateUnmappedRoles(allRoles, Some(ToRows([])));
      assert MappedRoles(ToRows([])) == {};
      WithoutAbsent(allRoles, {});
      Some(Submission([], unmapped))
    case Rows(rows) =>
      var clean := Clean(rows);
      CleanStored(rows);
      MappedRolesOfMappings(clean);
      Some(Submission(clean, PermissionsConfig.UpdateUnmappedRoles(allRoles, Some(ToRows(clean)))))
  }

  /** The submit test: the filled row is stored as is, the empty one is dropped. */
  lemma SubmitFormExample(allRoles: seq<string>)
    ensures SubmitForm(Rows([FormRow(Some("/valid/path.txt"), Checkboxes([Checkbox("editor", Str("editor"))])),
                             FormRow(Some(""), Checkboxes([]))]), allRoles).value.mappings
         == [Mapping("/valid/path.txt", ["editor"])]
  {
    var filled := FormRow(Some("/valid/path.txt"), Checkboxes([Checkbox("editor", Str("editor"))]));
    var empty := FormRow(Some(""), Checkboxes([]));
    TrimTrimmed("/valid/path.txt");
    TrimTrimmed("");
    assert SelectedKeys([Checkbox("editor", Str("editor"))]) == ["editor"];
    assert Normalize(filled) == Mapping("/valid/path.txt", ["editor"]);
    assert IsBlank(Normalize(empty));
    CleanAppend([filled], [empty]);
    assert [filled] + [empty] == [filled, empty];
  }

  /**
   * Saving the form and then checking a user at login: for an account holding only
   * roles the site knows, the user ends with the roles the stored mappings grant,
   * plus every role they already held that no stored mapping names. Such a role
   * outside every mapping is never taken away.
   */
  lemma SubmitThenCheck(fs: FileSystem, rows: seq<FormRow>, allRoles: seq<string>, account: PermissionsCheck.Account)
    requires forall x :: x in account.roles ==> x in allRoles
    ensures var saved := SubmitForm(Rows(rows), allRoles).value;
      var config := Config(Some(ToRows(saved.mappings)), Some(saved.unmapped));
      forall x :: x in PermissionsCheck.UpdatePermissions(fs, account, config).roles <==>
        PermissionsCheck.Applies(fs, account.name, config, x)
        || (x in account.roles && forall m :: m in saved.mappings ==> x !in m.roles)
  {
  }
}
