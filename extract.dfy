/**
 * The struct extractor. Go's parser and the generic syntax-tree walk are
 * not modelled: their result is taken as the sequence of type
 * specifications in the order the walk meets them, each either a struct
 * type with its field list or some other type.
 */
module Extract {
  import opened Text
  import opened Naming
  import opened Query

  /** One entry of a struct's field list: the names declared for it (none for an embedded field). */
  datatype Field = Field(names: seq<string>)

  /** A type specification met during the walk. */
  datatype TypeSpec =
    | StructSpec(name: string, fields: seq<Field>)
    | OtherSpec(name: string)

  /** The outcome of parsing the input file. */
  datatype ParsedFile = Parsed(specs: seq<TypeSpec>) | ParseError

  /** The column a field entry contributes: its first name in snake_case, or "" when it has none. */
  function Column(f: Field): string
  {
    if |f.names| == 0 then "" else SnakeCased(f.names[0])
  }

  /** The columns of a field list, one per entry. */
  function Columns(fs: seq<Field>): seq<string>
  {
    seq(|fs|, i requires 0 <= i < |fs| => Column(fs[i]))
  }

  /** The builder the extractor appends for a struct specification. */
  function Builder(name: string, fs: seq<Field>): QueryBuilder
  {
    QueryBuilder(NormalizeTableName(name), Columns(fs))
  }

  /** What the walk contributes for one type specification. */
  function Emitted(t: TypeSpec): seq<QueryBuilder>
  {
    match t
    case StructSpec(name, fs) => [Builder(name, fs)]
    case OtherSpec(_) => []
  }

  /** The builders extracted from a sequence of type specifications, in order. */
  function Extracted(specs: seq<TypeSpec>): seq<QueryBuilder>
    decreases |specs|
  {
    if specs == [] then [] else Extracted(specs[..|specs| - 1]) + Emitted(specs[|specs| - 1])
  }

  /** The positions of the struct specifications. */
  function StructPositions(specs: seq<TypeSpec>): set<int>
  {
    set i | 0 <= i < |specs| && specs[i].StructSpec?
  }

  /**
   * getFields: a slice with one slot per field entry, filled by index; an
   * entry without names is skipped and its slot keeps the empty string.
   */
  method GetFields(fs: seq<Field>) returns (fields: seq<string>)
    ensures fields == Columns(fs)
    ensures |fields| == |fs|
    ensures forall i :: 0 <= i < |fs| ==>
      fields[i] == if |fs[i].names| == 0 then "" else SnakeCased(fs[i].names[0])
  {
    var slots := new string[|fs|](_ => "");
    for i := 0 to |fs|
      invariant forall j :: 0 <= j < i ==> slots[j] == Column(fs[j])
      invariant forall j :: i <= j < slots.Length ==> slots[j] == ""
    {
      if |fs[i].names| == 0 {
        continue;
      }
      var column := SnakeCase(fs[i].names[0]);
      slots[i] := column;
    }
    fields := slots[..];
  }

  /**
   * ExtractStructs: a parse error gives no builders; otherwise one builder
   * per struct specification, appended in the order of the walk.
   */
  method ExtractStructs(file: ParsedFile) returns (structs: seq<QueryBuilder>)
    ensures file.ParseError? ==> structs == []
    ensures file.Parsed? ==> structs == Extracted(file.specs)
  {
    if file.ParseError? {
      return [];
    }
    var specs := file.specs;
    structs := [];
    for i := 0 to |specs|
      invariant structs == Extracted(specs[..i])
    {
      ExtractedPrefixStep(specs, i);
      match specs[i]
      case StructSpec(name, fieldList) =>
        var fields := GetFields(fieldList);
        assert fields == Columns(fieldList);
        structs := structs + [QueryBuilder(NormalizeTableName(name), fields)];
      case OtherSpec(_) =>
    }
    assert specs[..|specs|] == specs;
  }

  /** Appending one specification appends what it contributes. */
  lemma ExtractedSnoc(a: seq<TypeSpec>, t: TypeSpec)
    ensures Extracted(a + [t]) == Extracted(a) + Emitted(t)
  {
    var at := a + [t];
    assert at[..|at| - 1] == a;
  }

  /** Extraction distributes over concatenation: output order follows input order. */
  lemma {:induction false} ExtractedAppend(a: seq<TypeSpec>, b: seq<TypeSpec>)
    ensures Extracted(a + b) == Extracted(a) + Extracted(b)
    decreases |b|
  {
    if b == [] {
      assert a + b == a;
    } else {
      var n := |b| - 1;
      var front, last := b[..n], b[n];
      assert b == front + [last];
      assert a + b == (a + front) + [last];
      ExtractedSnoc(a + front, last);
      ExtractedSnoc(front, last);
      ExtractedAppend(a, front);
    }
  }

  lemma StructPositionsSnoc(specs: seq<TypeSpec>)
    requires specs != []
    ensures StructPositions(specs)
         == StructPositions(specs[..|specs| - 1])
          + (if specs[|specs| - 1].StructSpec? then {|specs| - 1} else {})
  {
    var t := specs[..|specs| - 1];
    assert forall i :: 0 <= i < |t| ==> t[i] == specs[i];
  }

  /** Exactly one builder per struct specification, none for any other. */
  lemma {:induction false} ExtractedLength(specs: seq<TypeSpec>)
    ensures |Extracted(specs)| == |StructPositions(specs)|
    decreases |specs|
  {
    if specs != [] {
      var n := |specs| - 1;
      ExtractedLength(specs[..n]);
      StructPositionsSnoc(specs);
      assert n !in StructPositions(specs[..n]);
    }
  }

  /** Extending a prefix of the walk by one specification appends what it contributes. */
  lemma ExtractedPrefixStep(specs: seq<TypeSpec>, i: int)
    requires 0 <= i < |specs|
    ensures Extracted(specs[..i + 1]) == Extracted(specs[..i]) + Emitted(specs[i])
  {
    assert specs[..i + 1][..i] == specs[..i];
  }

  /** The builders of a longer prefix of the walk extend those of a shorter one. */
  lemma ExtractedPrefixes(specs: seq<TypeSpec>, i: int, j: int)
    requires 0 <= i <= j <= |specs|
    ensures Extracted(specs[..j]) == Extracted(specs[..i]) + Extracted(specs[i..j])
  {
    assert specs[..j] == specs[..i] + specs[i..j];
    ExtractedAppend(specs[..i], specs[i..j]);
  }

  /**
   * The struct specification at position `i` yields the builder at position
   * "number of builders before it".
   */
  lemma ExtractedAt(specs: seq<TypeSpec>, i: int)
    requires 0 <= i < |specs| && specs[i].StructSpec?
    ensures |Extracted(specs[..i])| < |Extracted(specs)|
    ensures Extracted(specs)[|Extracted(specs[..i])|] == Builder(specs[i].name, specs[i].fields)
  {
    ExtractedPrefixStep(specs, i);
    ExtractedPrefixes(specs, i + 1, |specs|);
    assert specs[..|specs|] == specs;
  }

  /** A later struct specification yields a later builder. */
  lemma ExtractedOrdered(specs: seq<TypeSpec>, i: int, j: int)
    requires 0 <= i < j <= |specs| && specs[i].StructSpec?
    ensures |Extracted(specs[..i])| < |Extracted(specs[..j])|
  {
    ExtractedPrefixStep(specs, i);
    ExtractedPrefixes(specs, i + 1, j);
  }

  /** Every extracted builder comes from some struct specification. */
  lemma {:induction false} ExtractedFromStructs(specs: seq<TypeSpec>, q: QueryBuilder)
    requires q in Extracted(specs)
    ensures exists i :: 0 <= i < |specs| && specs[i].StructSpec? && q == Builder(specs[i].name, specs[i].fields)
    decreases |specs|
  {
    var n := |specs| - 1;
    if q in Extracted(specs[..n]) {
      ExtractedFromStructs(specs[..n], q);
      var i :| 0 <= i < n && specs[..n][i].StructSpec? && q == Builder(specs[..n][i].name, specs[..n][i].fields);
      assert specs[i] == specs[..n][i];
    } else {
      assert specs[n].StructSpec? && q == Builder(specs[n].name, specs[n].fields);
    }
  }

  /**
   * Every extracted table name is already lower case, so the second
   * lowering in the INSERT template changes nothing.
   */
  lemma ExtractedTableNamesLower(specs: seq<TypeSpec>, q: QueryBuilder)
    requires q in Extracted(specs)
    ensures Lower(q.tableName) == q.tableName
  {
    ExtractedFromStructs(specs, q);
  }

  /** The generator's end-to-end example, with a non-struct type before the struct. */
  lemma ExtractedUser()
    ensures Extracted([OtherSpec("ID"), StructSpec("User", [Field(["ID"]), Field(["Name"]), Field(["InvitationCode"])])])
         == [QueryBuilder("users", ["id", "name", "invitation_code"])]
  {
    var fs := [Field(["ID"]), Field(["Name"]), Field(["InvitationCode"])];
    var specs := [OtherSpec("ID"), StructSpec("User", fs)];
    assert specs[..1] == [OtherSpec("ID")] && [OtherSpec("ID")][..0] == [];
    NormalizeTableNameUser();
    ColumnsUser();
  }

  lemma SnakeCasedName()
    ensures SnakeCased("Name") == "name"
  {
    SnakeCasedWord('N', "ame");
    assert ToLower('N') == 'n';
    assert ['N'] + "ame" == "Name" && ['n'] + "ame" == "name";
  }

  lemma SnakeCasedInvitation()
    ensures SnakeCased("Invitation") == "invitation"
  {
    SnakeCasedWord('I', "nvitation");
    assert ToLower('I') == 'i';
    assert ['I'] + "nvitation" == "Invitation" && ['i'] + "nvitation" == "invitation";
  }

  lemma SnakeCasedInvitationCode()
    ensures SnakeCased("InvitationCode") == "invitation_code"
  {
    SnakeCasedInvitation();
    assert ToLower('C') == 'c';
    SnakeCasedCamelStep("Invitation", 'C', "ode");
    assert "Invitation" + ['C'] + "ode" == "InvitationCode";
    assert "invitation" + "_" + ['c'] + "ode" == "invitation_code";
  }

  lemma ColumnsUser()
    ensures Columns([Field(["ID"]), Field(["Name"]), Field(["InvitationCode"])]) == ["id", "name", "invitation_code"]
  {
    SnakeCasedAcronym();
    SnakeCasedName();
    SnakeCasedInvitationCode();
  }

  /** getFields on the test's two plain fields: the names come back in snake_case. */
  lemma ColumnsIdName()
    ensures Columns([Field(["ID"]), Field(["Name"])]) == ["id", "name"]
  {
    SnakeCasedAcronym();
    SnakeCasedName();
  }

  /** An embedded field keeps an empty column, which shows up in both lists of the template. */
  lemma EmbeddedFieldQuery()
    ensures Builder("T", [Field([]), Field(["ID"])]).InsertQuery()
         == "INSERT INTO ts (" + ", id" + ") VALUES (:" + ", :id" + ")"
  {
    SnakeCasedAcronym();
    var q := Builder("T", [Field([]), Field(["ID"])]);
    assert q.tableName == "ts";
    assert q.fields == ["", "id"];
    assert q.fields[1..] == ["id"];
    assert Join(q.fields, ", ") == ", id";
    assert Join(q.fields, ", :") == ", :id";
    assert "INSERT INTO " + "ts" + " (" == "INSERT INTO ts (";
  }
}
