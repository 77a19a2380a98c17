/**
 * The query builder: one table name and an ordered list of column names,
 * turned into a named-parameter INSERT template.
 */
module Query {
  import opened Text

  /** A table and its columns, in declaration order. */
  datatype QueryBuilder = QueryBuilder(tableName: string, fields: seq<string>)
  {
    /**
     * The INSERT template. The columns and the placeholders name the same
     * fields in the same order, each placeholder being its column with a
     * colon in front; the table name is lowered once more. With no fields
     * the placeholder list is a lone colon.
     */
    function InsertQuery(): (r: string)
      ensures fields != [] ==>
        r == "INSERT INTO " + Lower(tableName) + " (" + Join(fields, ", ") + ") VALUES ("
             + Join(Prefixed(fields, ":"), ", ") + ")"
      ensures fields == [] ==> r == "INSERT INTO " + Lower(tableName) + " () VALUES (:)"
    {
      var values := Join(fields, ", :");
      var r := "INSERT INTO " + Lower(tableName) + " (" + Join(fields, ", ") + ") VALUES (:" + values + ")";
      if fields != [] then
        assert ", :" == ", " + ":";
        JoinPrefixed(fields, ":", ", ");
        assert ") VALUES (:" + values == ") VALUES (" + (":" + values);
        r
      else
        r
    }
  }

  lemma JoinUsersColumns()
    ensures Join(["id", "name", "invitation_code"], ", ") == "id, name, invitation_code"
  {
    var fields := ["id", "name", "invitation_code"];
    assert fields[1..] == ["name", "invitation_code"];
    assert fields[1..][1..] == ["invitation_code"];
  }

  lemma JoinUsersValues()
    ensures Join(["id", "name", "invitation_code"], ", :") == "id, :name, :invitation_code"
  {
    var fields := ["id", "name", "invitation_code"];
    assert fields[1..] == ["name", "invitation_code"];
    assert fields[1..][1..] == ["invitation_code"];
  }

  /** The example from the generator's tests, written in four literal pieces. */
  lemma InsertQueryUsers()
    ensures QueryBuilder("users", ["id", "name", "invitation_code"]).InsertQuery()
         == "INSERT INTO users (" + "id, name, invitation_code" + ") VALUES (:" + "id, :name, :invitation_code" + ")"
  {
    JoinUsersColumns();
    JoinUsersValues();
    assert NoUpper("users");
    assert "INSERT INTO " + "users" + " (" == "INSERT INTO users (";
  }

  /** With no fields both lists are empty, except for the lone colon before the placeholders. */
  lemma InsertQueryNoFields(table: string)
    ensures QueryBuilder(table, []).InsertQuery() == "INSERT INTO " + Lower(table) + " () VALUES (:)"
  {
  }
}
