/**
 * `PermissionsFromFileConfig`: recomputing the cached list of unmapped roles, and
 * purging a deleted role from every mapping row.
 */
module PermissionsConfig {
  import opened Wrappers
  import opened Seqs
  import opened Settings

  /** The inner loop of `updateUnmappedRoles`: `unset` each of `roles` from the remaining role ids. */
  function UnsetRoles(remaining: seq<string>, roles: seq<string>): (r: seq<string>)
    ensures r == Without(remaining, set x | x in roles)
    decreases |roles|
  {
    if roles == [] then
      assert (set x | x in roles) == {};
      WithoutAbsent(remaining, {});
      remaining
    else
      var r := UnsetRoles(Without(remaining, {roles[0]}), roles[1..]);
      WithoutWithout(remaining, {roles[0]}, (set x | x in roles[1..]));
      assert {roles[0]} + (set x | x in roles[1..]) == set x | x in roles;
      r
  }

  /** The outer loop: rows that are not well formed are skipped. */
  function UnsetMapped(remaining: seq<string>, rows: seq<Row>): (r: seq<string>)
    ensures r == Without(remaining, MappedRoles(rows))
    decreases |rows|
  {
    if rows == [] then
      WithoutAbsent(remaining, {});
      remaining
    else
      var named := set x | x in RolesOf(rows[0]);
      var afterFirst := if WellFormed(rows[0]) then UnsetRoles(remaining, rows[0].roles.value) else remaining;
      assert afterFirst == Without(remaining, named) by {
        if !WellFormed(rows[0]) {
          assert named == {};
          WithoutAbsent(remaining, {});
        }
      }
      var r := UnsetMapped(afterFirst, rows[1..]);
      WithoutWithout(remaining, named, MappedRoles(rows[1..]));
      assert named + MappedRoles(rows[1..]) == MappedRoles(rows);
      r
  }

  /**
   * `updateUnmappedRoles`: the role ids of the site, in storage order, less every
   * role named by a well-formed mapping row. Ids named in rows but unknown to the
   * site are ignored; a non-list mappings value leaves every role unmapped.
   */
  function UpdateUnmappedRoles(allRoles: seq<string>, mappings: Option<seq<Row>>): (unmapped: seq<string>)
    ensures unmapped == Without(allRoles, if mappings.Some? then MappedRoles(mappings.value) else {})
    ensures forall x :: x in unmapped <==>
      x in allRoles && !(mappings.Some? && x in MappedRoles(mappings.value))
    ensures NoDuplicates(allRoles) ==> NoDuplicates(unmapped)
  {
    WithoutNoDuplicates(allRoles, if mappings.Some? then MappedRoles(mappings.value) else {});
    match mappings
    case Some(rows) => UnsetMapped(allRoles, rows)
    case None =>
      WithoutAbsent(allRoles, {});
      allRoles
  }

  /** `array_search` under strict comparison: the first position holding `x`, if any. */
  function IndexOf(s: seq<string>, x: string): (k: Option<nat>)
    ensures k.None? <==> x !in s
    ensures k.Some? ==> k.value < |s| && s[k.value] == x && x !in s[..k.value]
    decreases |s|
  {
    if s == [] then None
    else if s[0] == x then Some(0)
    else
      match IndexOf(s[1..], x)
      case None => None
      case Some(k) =>
        assert s[..k + 1] == [s[0]] + s[1..][..k];
        Some(k + 1)
  }

  /** `unset` at the position `array_search` found: the first occurrence of `x` goes. */
  function RemoveFirst(s: seq<string>, x: string): (r: seq<string>)
    ensures multiset(r) == multiset(s) - multiset{x}
    ensures x !in s ==> r == s
    ensures x in s ==> |r| == |s| - 1
  {
    match IndexOf(s, x)
    case None => s
    case Some(k) =>
      assert s == s[..k] + [x] + s[k + 1..];
      s[..k] + s[k + 1..]
  }

  /** Removing the first `x` undoes inserting it in front of a part that lacks it. */
  lemma RemoveFirstInsert(before: seq<string>, x: string, after: seq<string>)
    requires x !in before
    ensures RemoveFirst(before + [x] + after, x) == before + after
  {
    var s := before + [x] + after;
    var k := IndexOf(s, x).value;
    assert s[|before|] == x;
    assert k == |before|;
    assert s[..k] == before;
    assert s[k + 1..] == after;
  }

  /**
   * The change `removeRole` makes to one row: an array row with `roles` set keeps
   * its file path and loses one occurrence of `roleId`, if it has one; any other
   * row is left as it is.
   */
  function RemoveRoleFromRow(row: Row, roleId: string): (after: Row)
    ensures after.Entry? == row.Entry?
    ensures row.Entry? ==> after.filePath == row.filePath && after.roles.Some? == row.roles.Some?
    ensures row.Entry? && row.roles.Some? ==>
      multiset(after.roles.value) == multiset(row.roles.value) - multiset{roleId}
    ensures !row.Entry? || row.roles.None? || roleId !in row.roles.value ==> after == row
  {
    match row
    case Entry(path, Some(roles)) => Entry(path, Some(RemoveFirst(roles, roleId)))
    case _ => row
  }

  /**
   * `removeRole`: `None` when the stored mappings value is not a list (nothing is
   * written); otherwise the rows written back, one for each stored row, in order.
   */
  function RemoveRole(roleId: string, mappings: Option<seq<Row>>): (written: Option<seq<Row>>)
    ensures written.None? <==> mappings.None?
    ensures written.Some? ==> |written.value| == |mappings.value|
    ensures written.Some? ==>
      forall k :: 0 <= k < |written.value| ==> written.value[k] == RemoveRoleFromRow(mappings.value[k], roleId)
  {
    match mappings
    case None => None
    case Some(rows) => Some(RemoveRoleFromRows(rows, roleId))
  }

  /** The `for` loop of `removeRole` over the stored rows. */
  function RemoveRoleFromRows(rows: seq<Row>, roleId: string): (out: seq<Row>)
    ensures |out| == |rows|
    ensures forall k :: 0 <= k < |out| ==> out[k] == RemoveRoleFromRow(rows[k], roleId)
    decreases |rows|
  {
    if rows == [] then [] else [RemoveRoleFromRow(rows[0], roleId)] + RemoveRoleFromRows(rows[1..], roleId)
  }

  /** In a duplicate-free list, removing the first `x` removes `x` altogether and nothing else. */
  lemma RemoveFirstMembers(s: seq<string>, x: string)
    requires NoDuplicates(s)
    ensures forall y :: y in RemoveFirst(s, x) <==> y in s && y != x
  {
  }

  lemma RemoveRoleFromRowMembers(row: Row, roleId: string)
    requires NoDuplicates(RolesOf(row))
    ensures forall x :: x in RolesOf(RemoveRoleFromRow(row, roleId)) <==> x in RolesOf(row) && x != roleId
  {
  }

  /**
   * After `removeRole`, when no well-formed row named a role twice, the deleted
   * role is named by no row and every other role is named exactly where it was.
   */
  lemma RemoveRoleUnmaps(roleId: string, rows: seq<Row>)
    requires forall k :: 0 <= k < |rows| ==> NoDuplicates(RolesOf(rows[k]))
    ensures MappedRoles(RemoveRole(roleId, Some(rows)).value) == MappedRoles(rows) - {roleId}
  {
    RemoveRoleFromRowsUnmaps(roleId, rows);
  }

  lemma {:induction false} RemoveRoleFromRowsUnmaps(roleId: string, rows: seq<Row>)
    requires forall k :: 0 <= k < |rows| ==> NoDuplicates(RolesOf(rows[k]))
    ensures MappedRoles(RemoveRoleFromRows(rows, roleId)) == MappedRoles(rows) - {roleId}
    decreases |rows|
  {
    if rows != [] {
      var out := RemoveRoleFromRows(rows, roleId);
      assert out[1..] == RemoveRoleFromRows(rows[1..], roleId);
      RemoveRoleFromRowsUnmaps(roleId, rows[1..]);
      RemoveRoleFromRowMembers(rows[0], roleId);
    }
  }

  /** Recomputing with the site's roles yields the unmapped list of the tests: `editor` is mapped. */
  lemma UpdateUnmappedRolesExample()
    ensures UpdateUnmappedRoles(["anonymous", "authenticated", "editor", "administrator"],
                                Some([Entry(Some("/path/one.txt"), Some(["editor"]))]))
         == ["anonymous", "authenticated", "administrator"]
  {
    var rows := [Entry(Some("/path/one.txt"), Some(["editor"]))];
    assert MappedRoles(rows) == {"editor"} by {
      assert RolesOf(rows[0]) == ["editor"];
    }
    WithoutEditor();
  }

  lemma WithoutEditor()
    ensures Without(["anonymous", "authenticated", "editor", "administrator"], {"editor"})
         == ["anonymous", "authenticated", "administrator"]
  {
  }

  /** Deleting `administrator` empties the second row's roles but keeps the row. */
  lemma RemoveRoleExample()
    ensures RemoveRole("administrator", Some([Entry(Some("/path/one.txt"), Some(["editor", "administrator"])),
                                              Entry(Some("/path/two.txt"), Some(["administrator"]))]))
         == Some([Entry(Some("/path/one.txt"), Some(["editor"])),
                  Entry(Some("/path/two.txt"), Some([]))])
  {
    var rows := [Entry(Some("/path/one.txt"), Some(["editor", "administrator"])),
                 Entry(Some("/path/two.txt"), Some(["administrator"]))];
    var out := RemoveRole("administrator", Some(rows)).value;
    RemoveFirstExample();
    assert |out| == 2;
    assert out[0] == RemoveRoleFromRow(rows[0], "administrator");
    assert out[1] == RemoveRoleFromRow(rows[1], "administrator");
    assert out[0] == Entry(Some("/path/one.txt"), Some(["editor"]));
    assert out[1] == Entry(Some("/path/two.txt"), Some([]));
    assert out == [out[0], out[1]];
  }

  lemma RemoveFirstExample()
    ensures RemoveFirst(["editor", "administrator"], "administrator") == ["editor"]
    ensures RemoveFirst(["administrator"], "administrator") == []
  {
  }


}
