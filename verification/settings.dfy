/**
 * The stored `permissions_from_file.settings` configuration: an ordered list of
 * mapping rows and the cached list of unmapped role ids. Either value may be
 * missing or of the wrong shape in storage; `None` stands for "not a list".
 */
module Settings {
  import opened Wrappers

  /**
   * One element of the stored `mappings` list. `NotArray` is an element that is
   * not an array at all; in an `Entry`, `None` marks a key that is missing or null
   * (PHP's `isset` is false for both).
   */
  datatype Row = NotArray | Entry(filePath: Option<string>, roles: Option<seq<string>>)

  /** The shape both services insist on before using a row: an array with `file_path` and `roles` set. */
  predicate WellFormed(row: Row) {
    row.Entry? && row.filePath.Some? && row.roles.Some?
  }

  /** The roles a row names, or none when the row is skipped as malformed. */
  function RolesOf(row: Row): seq<string> {
    if WellFormed(row) then row.roles.value else []
  }

  /** Every role named by some well-formed row, as the union over the rows. */
  function MappedRoles(rows: seq<Row>): set<string>
    decreases |rows|
  {
    if rows == [] then {} else (set x | x in RolesOf(rows[0])) + MappedRoles(rows[1..])
  }

  /** A role is mapped exactly when some well-formed row names it. */
  lemma {:induction false} MappedRolesMembers(rows: seq<Row>)
    ensures forall x :: x in MappedRoles(rows) <==> exists i :: 0 <= i < |rows| && x in RolesOf(rows[i])
    decreases |rows|
  {
    if rows != [] {
      MappedRolesMembers(rows[1..]);
      assert forall i :: 1 <= i < |rows| ==> rows[i] == rows[1..][i - 1];
      forall x | x in MappedRoles(rows[1..]) ensures exists i :: 0 <= i < |rows| && x in RolesOf(rows[i]) {
        var i :| 0 <= i < |rows[1..]| && x in RolesOf(rows[1..][i]);
        assert x in RolesOf(rows[i + 1]);
      }
    }
  }

  /** The whole settings object as read from configuration. */
  datatype Config = Config(mappings: Option<seq<Row>>, unmapped: Option<seq<string>>)
}
