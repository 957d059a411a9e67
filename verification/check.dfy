/**
 * The login-time check of `PermissionsFromFileCheck`: whether a user's name occurs
 * in a mapped file, and the reconciliation of the user's roles with the mappings.
 */
module PermissionsCheck {
  import opened Wrappers
  import opened Seqs
  import opened Php
  import opened Settings

  /**
   * The server's files as `file_exists` and `file_get_contents` see them: a path
   * that is not a key does not exist; `None` is a file whose read failed.
   */
  type FileSystem = map<string, Option<string>>

  /** A user account: its account name and the role ids it holds. */
  datatype Account = Account(name: string, roles: seq<string>)

  /** `needle` occurs somewhere in `text` as a contiguous piece. */
  ghost predicate Occurs(needle: string, text: string) {
    exists i :: 0 <= i <= |text| && needle <= text[i..]
  }

  lemma OccursCons(needle: string, text: string)
    requires text != [] && !(needle <= text)
    ensures Occurs(needle, text) <==> Occurs(needle, text[1..])
  {
    if Occurs(needle, text) {
      var i :| 0 <= i <= |text| && needle <= text[i..];
      assert i != 0;
      assert text[1..][i - 1..] == text[i..];
    }
    if Occurs(needle, text[1..]) {
      var i :| 0 <= i <= |text[1..]| && needle <= text[1..][i..];
      assert text[1..][i..] == text[i + 1..];
    }
  }

  /** The pattern search of the account name in the file contents, as a literal substring test. */
  function Search(needle: string, text: string): (found: bool)
    ensures found <==> Occurs(needle, text)
    decreases |text|
  {
    if needle <= text then
      assert text[0..] == text;
      true
    else if text == [] then
      false
    else
      OccursCons(needle, text);
      Search(needle, text[1..])
  }

  /**
   * `isInFile`: `None` (PHP's null) when the path is empty or "0", the file does not
   * exist, it cannot be read, or its contents are falsy; otherwise whether the
   * account name occurs in the contents.
   */
  function IsInFile(fs: FileSystem, name: string, path: string): (r: Option<bool>)
    ensures r.None? <==>
      !StringTruthy(path) || path !in fs || fs[path].None? || !StringTruthy(fs[path].value)
    ensures r.Some? ==> (r.value <==> Occurs(name, fs[path].value))
  {
    if StringTruthy(path) then
      if path in fs then
        match fs[path]
        case Some(contents) =>
          if StringTruthy(contents) then Some(Search(name, contents)) else None
        case None => None
      else None
    else None
  }

  /** A row grants its roles when it is well formed and its file check answers true. */
  predicate Grants(fs: FileSystem, name: string, row: Row) {
    WellFormed(row) && IsInFile(fs, name, row.filePath.value) == Some(true)
  }

  function GrantedRoles(fs: FileSystem, name: string, row: Row): seq<string> {
    if Grants(fs, name, row) then row.roles.value else []
  }

  /** Role `x` is granted to the user through some row. */
  ghost predicate Granted(fs: FileSystem, name: string, rows: seq<Row>, x: string) {
    exists i :: 0 <= i < |rows| && x in GrantedRoles(fs, name, rows[i])
  }

  lemma GrantedCons(fs: FileSystem, name: string, rows: seq<Row>)
    requires rows != []
    ensures forall x :: Granted(fs, name, rows, x) <==>
      x in GrantedRoles(fs, name, rows[0]) || Granted(fs, name, rows[1..], x)
  {
  }

  /**
   * Appends to `acc`, in order, each element of `roles` it does not already hold:
   * both the `!in_array` collection of roles to apply and the `hasRole`/`addRole` loop.
   */
  function AddNew(acc: seq<string>, roles: seq<string>): (r: seq<string>)
    ensures acc <= r
    ensures forall x :: x in r <==> x in acc || x in roles
    ensures forall x :: x in r[|acc|..] <==> x in roles && x !in acc
    ensures NoDuplicates(r[|acc|..])
    ensures NoDuplicates(acc) ==> NoDuplicates(r)
    decreases |roles|
  {
    if roles == [] then acc
    else if roles[0] in acc then
      AddNew(acc, roles[1..])
    else
      var next := acc + [roles[0]];
      NoDuplicatesSnoc(acc, roles[0]);
      var r := AddNew(next, roles[1..]);
      assert r[|acc|..] == [roles[0]] + r[|next|..];
      r
  }

  /** The roles `updatePermissions` collects, in collection order, folding the rows from `acc`. */
  function CollectFrom(fs: FileSystem, name: string, acc: seq<string>, rows: seq<Row>): (r: seq<string>)
    ensures acc <= r
    ensures NoDuplicates(acc) ==> NoDuplicates(r)
    ensures forall x :: x in r <==> x in acc || Granted(fs, name, rows, x)
    decreases |rows|
  {
    if rows == [] then acc
    else
      var acc' := if Grants(fs, name, rows[0]) then AddNew(acc, rows[0].roles.value) else acc;
      GrantedCons(fs, name, rows);
      CollectFrom(fs, name, acc', rows[1..])
  }

  /** Role `x` is granted through the stored mappings. */
  ghost predicate Applies(fs: FileSystem, name: string, config: Config, x: string) {
    config.mappings.Some? && Granted(fs, name, config.mappings.value, x)
  }

  /**
   * `$roles_to_apply`: duplicate free, and exactly the roles of the well-formed rows
   * whose file lists the user; a non-list mappings value grants nothing.
   */
  function RolesToApply(fs: FileSystem, name: string, config: Config): (apply: seq<string>)
    ensures NoDuplicates(apply)
    ensures forall x :: x in apply <==> Applies(fs, name, config, x)
  {
    match config.mappings
    case Some(rows) => CollectFrom(fs, name, [], rows)
    case None => []
  }

  /**
   * The removal loop over the roles held after the additions: a role that is
   * neither to be applied nor unmapped is removed. Returns the roles kept, in
   * order, and the roles removed, in removal order.
   */
  function Prune(held: seq<string>, apply: seq<string>, unmapped: seq<string>): (p: (seq<string>, seq<string>))
    ensures forall x :: x in p.0 <==> x in held && (x in apply || x in unmapped)
    ensures forall x :: x in p.1 <==> x in held && x !in apply && x !in unmapped
    ensures |p.0| + |p.1| == |held|
    ensures NoDuplicates(held) ==> NoDuplicates(p.0)
    ensures (forall x :: x in held ==> x in apply || x in unmapped) ==> p.0 == held
    decreases |held|
  {
    if held == [] then ([], [])
    else
      var rest := Prune(held[1..], apply, unmapped);
      if held[0] in apply || held[0] in unmapped then
        NoDuplicatesCons(held[0], rest.0);
        ([held[0]] + rest.0, rest.1)
      else
        (rest.0, [held[0]] + rest.1)
  }

  /** What one call of `updatePermissions` does to an account. */
  datatype Update = Update(roles: seq<string>, added: seq<string>, removed: seq<string>)

  /**
   * `updatePermissions`: adds each role to apply that the account lacks, then, when
   * the stored unmapped value is a list, removes each held role that is neither
   * applied nor unmapped. `added` and `removed` list the `addRole` and `removeRole`
   * calls in order; `roles` is what the account holds before `save()`.
   */
  function UpdatePermissions(fs: FileSystem, account: Account, config: Config): Update {
    var apply := RolesToApply(fs, account.name, config);
    var held := AddNew(account.roles, apply);
    var added := held[|account.roles|..];
    match config.unmapped
    case None => Update(held, added, [])
    case Some(unmapped) =>
      var (kept, removed) := Prune(held, apply, unmapped);
      Update(kept, added, removed)
  }

  /**
   * The effect of `updatePermissions` in closed form: exactly the applied roles the
   * account lacked are added, every applied role ends up held, and, when the
   * unmapped value is a list, the account ends with the applied roles plus the
   * unmapped roles it already had; only held roles that are neither are removed.
   * When the unmapped value is not a list nothing is removed.
   */
  lemma UpdatePermissionsClosedForm(fs: FileSystem, account: Account, config: Config)
    ensures var u := UpdatePermissions(fs, account, config);
      && (forall x :: x in u.added <==> Applies(fs, account.name, config, x) && x !in account.roles)
      && NoDuplicates(u.added)
      && (forall x :: Applies(fs, account.name, config, x) ==> x in u.roles)
      && (forall x :: x in u.removed <==>
            config.unmapped.Some? && x in account.roles &&
            !Applies(fs, account.name, config, x) && x !in config.unmapped.value)
      && (config.unmapped.None? ==> u.removed == [] && u.roles == account.roles + u.added)
      && (config.unmapped.Some? ==> forall x :: x in u.roles <==>
            Applies(fs, account.name, config, x) || (x in account.roles && x in config.unmapped.value))
      && (NoDuplicates(account.roles) ==> NoDuplicates(u.roles))
  {
  }

  /** Running the check again with unchanged files and configuration changes nothing. */
  lemma UpdateIdempotent(fs: FileSystem, account: Account, config: Config)
    ensures var u := UpdatePermissions(fs, account, config);
            var again := UpdatePermissions(fs, Account(account.name, u.roles), config);
            again.added == [] && again.removed == [] && again.roles == u.roles
  {
    var u := UpdatePermissions(fs, account, config);
    var again := UpdatePermissions(fs, Account(account.name, u.roles), config);
    UpdatePermissionsClosedForm(fs, account, config);
    UpdatePermissionsClosedForm(fs, Account(account.name, u.roles), config);
    assert forall x :: x !in again.added;
    NoMembersEmpty(again.added);
    assert forall x :: x !in again.removed;
    NoMembersEmpty(again.removed);
    match config.unmapped
    case None =>
    case Some(unmapped) =>
      var apply := RolesToApply(fs, account.name, config);
      assert forall x :: x in u.roles ==> x in apply || x in unmapped;
  }

  /** The order of the mapping rows does not matter: any reordering gives the same role set. */
  lemma UpdateOrderIndependent(fs: FileSystem, account: Account, rows: seq<Row>, rows': seq<Row>,
                               unmapped: Option<seq<string>>)
    requires forall row :: row in rows <==> row in rows'
    ensures forall x ::
      x in UpdatePermissions(fs, account, Config(Some(rows), unmapped)).roles <==>
      x in UpdatePermissions(fs, account, Config(Some(rows'), unmapped)).roles
  {
    GrantedSameRows(fs, account.name, rows, rows');
    UpdatePermissionsClosedForm(fs, account, Config(Some(rows), unmapped));
    UpdatePermissionsClosedForm(fs, account, Config(Some(rows'), unmapped));
  }

  lemma GrantedSameRows(fs: FileSystem, name: string, rows: seq<Row>, rows': seq<Row>)
    requires forall row :: row in rows <==> row in rows'
    ensures forall x :: Granted(fs, name, rows, x) <==> Granted(fs, name, rows', x)
  {
    forall x | Granted(fs, name, rows, x) ensures Granted(fs, name, rows', x) {
      var i :| 0 <= i < |rows| && x in GrantedRoles(fs, name, rows[i]);
      assert rows[i] in rows';
      var j :| 0 <= j < |rows'| && rows'[j] == rows[i];
    }
    forall x | Granted(fs, name, rows', x) ensures Granted(fs, name, rows, x) {
      var i :| 0 <= i < |rows'| && x in GrantedRoles(fs, name, rows'[i]);
      assert rows'[i] in rows;
      var j :| 0 <= j < |rows| && rows[j] == rows'[i];
    }
  }

  /** A readable file listing the user answers true; a missing file answers null. */
  lemma IsInFileExample()
    ensures IsInFile(map["vfs://root/users.txt" := Some("testuser\nanotheruser")],
                     "testuser", "vfs://root/users.txt") == Some(true)
    ensures IsInFile(map["vfs://root/users.txt" := Some("testuser\nanotheruser")],
                     "testuser", "vfs://root/nonexistent.txt") == None
  {
  }

  /**
   * The editors file lists the user and the admins file does not: `editor` is
   * added, `administrator` removed, and the unmapped `authenticated` kept.
   */
  lemma UpdatePermissionsExample()
    ensures
      var fs := map["editors.txt" := Some("testuser"), "admins.txt" := Some("anotheruser")];
      var config := Config(Some([Entry(Some("editors.txt"), Some(["editor"])),
                                 Entry(Some("admins.txt"), Some(["administrator"]))]),
                           Some(["anonymous", "authenticated"]));
      var u := UpdatePermissions(fs, Account("testuser", ["authenticated", "administrator"]), config);
      u.added == ["editor"] && u.removed == ["administrator"] && u.roles == ["authenticated", "editor"]
  {
    var fs := map["editors.txt" := Some("testuser"), "admins.txt" := Some("anotheruser")];
    assert IsInFile(fs, "testuser", "editors.txt") == Some(true) by {
      assert "testuser" <= "testuser";
    }
    assert IsInFile(fs, "testuser", "admins.txt") == Some(false) by {
      var text := "anotheruser";
      forall i | 0 <= i <= |text| ensures !("testuser" <= text[i..]) {
        if i <= 3 {
          assert text[i..][1] != 'e';
        }
      }
      assert !Occurs("testuser", text);
    }
    var rows := [Entry(Some("editors.txt"), Some(["editor"])),
                 Entry(Some("admins.txt"), Some(["administrator"]))];
    EditorsApply(fs, rows);
    EditorApplied(fs, Config(Some(rows), Some(["anonymous", "authenticated"])));
  }

  /** In the scenario only the editors row grants a role. */
  lemma EditorsApply(fs: FileSystem, rows: seq<Row>)
    requires IsInFile(fs, "testuser", "editors.txt") == Some(true)
    requires IsInFile(fs, "testuser", "admins.txt") == Some(false)
    requires rows == [Entry(Some("editors.txt"), Some(["editor"])),
                      Entry(Some("admins.txt"), Some(["administrator"]))]
    ensures CollectFrom(fs, "testuser", [], rows) == ["editor"]
  {
    assert !Grants(fs, "testuser", rows[1]);
    assert rows[1..][1..] == [];
    assert CollectFrom(fs, "testuser", ["editor"], rows[1..]) == ["editor"];
    assert Grants(fs, "testuser", rows[0]);
    assert AddNew([], ["editor"]) == ["editor"];
  }

  /** The removal loop on the scenario's roles: `administrator` goes, `authenticated` stays. */
  lemma PruneExample()
    ensures Prune(["authenticated", "administrator", "editor"], ["editor"], ["anonymous", "authenticated"])
         == (["authenticated", "editor"], ["administrator"])
  {
    var unmapped := ["anonymous", "authenticated"];
    var pruned := Prune(["administrator", "editor"], ["editor"], unmapped);
    assert pruned == (["editor"], ["administrator"]) by {
      var last := Prune(["editor"], ["editor"], unmapped);
      assert pruned == (last.0, ["administrator"] + last.1);
      assert last == (["editor"], []);
      assert pruned.1 == ["administrator"];
    }
    assert ["authenticated", "administrator", "editor"][1..] == ["administrator", "editor"];
    assert ["authenticated"] + pruned.0 == ["authenticated", "editor"];
  }

  /** With `editor` to apply, the scenario's account gains `editor` and loses `administrator`. */
  lemma EditorApplied(fs: FileSystem, config: Config)
    requires RolesToApply(fs, "testuser", config) == ["editor"]
    requires config.unmapped == Some(["anonymous", "authenticated"])
    ensures UpdatePermissions(fs, Account("testuser", ["authenticated", "administrator"]), config)
         == Update(["authenticated", "editor"], ["editor"], ["administrator"])
  {
    assert AddNew(["authenticated", "administrator"], ["editor"]) == ["authenticated", "administrator", "editor"];
    PruneExample();
  }
}
