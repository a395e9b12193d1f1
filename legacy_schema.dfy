/** The older record schema of mastr-export/spec.py. Fields, tags, conversion and the column
    and index text are those of `Schema`; a spec here always names its primary key, both table
    builders always close the column list with a primary key clause, and the SQLite table
    options are written differently. */
module LegacySchema {
  import opened Wrappers
  import opened Schema
  import Routing

  /** A constructed spec of the older variant: `primary` is mandatory. */
  datatype LegacySpec = LegacySpec(root: string, element: string, primary: string, fields: seq<Field>,
                                   withoutRowid: bool)

  /** `Spec.__init__` of the older variant (`primary` required, `without_rowid=False` by
      default); fields are built and keyed by name exactly as in the newer one. */
  function MakeLegacySpec(root: string, element: string, primary: string, decls: seq<FieldDecl>,
                          withoutRowid: Option<bool>): (r: Result<LegacySpec, SpecError>)
    ensures r.Ok? <==> forall i :: 0 <= i < |decls| ==> MakeField(decls[i]).Ok?
    ensures r.Err? ==> exists k :: FirstFailure(decls, k) && r.error == MakeField(decls[k]).error
    ensures r.Ok? ==> r.value.root == root && r.value.element == element && r.value.primary == primary
    ensures r.Ok? ==> (r.value.withoutRowid <==> withoutRowid == Some(true))
    ensures r.Ok? ==> Names(r.value.fields) == Dedup(DeclNames(decls)) && Distinct(Names(r.value.fields))
    ensures r.Ok? ==> r.value.fields == MakeSpec(root, element, decls, Some(primary), withoutRowid).value.fields
    ensures r.Ok? ==> forall g :: g in r.value.fields ==> LastNamed(MakeFields(decls).value, g.name) == Some(g)
  {
    match MakeSpec(root, element, decls, Some(primary), withoutRowid)
    case Err(e) => Err(e)
    case Ok(s) => Ok(LegacySpec(root, element, primary, s.fields, s.withoutRowid))
  }

  /** The same spec seen through the newer variant, which is all the record parser reads
      (root, element and fields). */
  function AsSpec(s: LegacySpec): (r: Spec)
    ensures r.root == s.root && r.element == s.element && r.fields == s.fields
    ensures r.primary == Some(s.primary) && r.withoutRowid == s.withoutRowid
  {
    Spec(s.root, s.element, s.fields, Some(s.primary), s.withoutRowid)
  }

  /** The options after the closing parenthesis of the older `sqlite_schema`: a space, then
      ` without rowid` when asked for (no `strict`). */
  function LegacySqliteOptions(withoutRowid: bool): (r: string) {
    " " + if withoutRowid then " without rowid" else ""
  }

  /** `Spec.sqlite_schema` of the older variant. */
  function LegacySqliteSchema(s: LegacySpec): (r: string)
    ensures TableHeader(s.element) <= r
    ensures EndsWith(r, PrimaryClause(Some(s.primary)) + Closing(LegacySqliteOptions(s.withoutRowid)))
  {
    CreateTableClose(s.element, SqliteColumns(s.fields), Some(s.primary), LegacySqliteOptions(s.withoutRowid));
    CreateTable(s.element, SqliteColumns(s.fields), Some(s.primary), LegacySqliteOptions(s.withoutRowid))
  }

  /** `Spec.duckdb_schema` of the older variant. */
  function LegacyDuckdbSchema(s: LegacySpec): (r: string)
    ensures TableHeader(s.element) <= r
    ensures EndsWith(r, PrimaryClause(Some(s.primary)) + Closing(""))
  {
    CreateTableClose(s.element, DuckdbColumns(s.fields), Some(s.primary), "");
    CreateTable(s.element, DuckdbColumns(s.fields), Some(s.primary), "")
  }

  /** `Spec.sqlite_indices` of the older variant: the same statements as the newer one. */
  function LegacySqliteIndices(s: LegacySpec): (r: seq<string>)
    ensures r == SqliteIndices(AsSpec(s))
  {
    IndexStatements(s.fields, s.element)
  }

  /** The older duckdb schema is the newer one with the primary key always set. */
  lemma LegacyDuckdbIsPrimaryKeyed(s: LegacySpec)
    ensures LegacyDuckdbSchema(s) == DuckdbSchema(AsSpec(s))
    ensures EndsWith(LegacyDuckdbSchema(s), PrimaryClause(Some(s.primary)) + Closing(""))
  {
    CreateTableClose(s.element, DuckdbColumns(s.fields), Some(s.primary), "");
  }

  lemma LegacyClosing(withoutRowid: bool)
    ensures withoutRowid ==> EndsWith(Closing(LegacySqliteOptions(withoutRowid)), " without rowid;\n")
    ensures !withoutRowid ==> !EndsWith(" without rowid;\n", Closing(LegacySqliteOptions(withoutRowid)))
  {
    var tail := " without rowid;\n";
    if withoutRowid {
      var c := Closing(LegacySqliteOptions(withoutRowid));
      assert c == "\n) " + tail;
      assert c[|c| - |tail|..] == tail;
    } else {
      var c := Closing(LegacySqliteOptions(withoutRowid));
      assert c == "\n) ;\n";
      assert tail[|tail| - |c|..][0] == tail[11] != c[0];
    }
  }

  /** The older sqlite schema always ends its column list with the primary key clause, and
      ends in ` without rowid;` exactly when `without_rowid` is set. */
  lemma LegacySqliteSchemaClose(s: LegacySpec)
    ensures EndsWith(LegacySqliteSchema(s), PrimaryClause(Some(s.primary)) + Closing(LegacySqliteOptions(s.withoutRowid)))
    ensures EndsWith(LegacySqliteSchema(s), " without rowid;\n") <==> s.withoutRowid
  {
    var options := LegacySqliteOptions(s.withoutRowid);
    var c := Closing(options);
    var text := LegacySqliteSchema(s);
    CreateTableClose(s.element, SqliteColumns(s.fields), Some(s.primary), options);
    LegacyClosing(s.withoutRowid);
    if s.withoutRowid {
      EndsWithTrans(text, c, " without rowid;\n");
    } else if EndsWith(text, " without rowid;\n") {
      EndsWithBoth(text, c, " without rowid;\n");
    }
  }

  /** The older sqlite schema's column definitions are those of the newer variant, one per
      field, in field order. */
  lemma LegacySqliteSchemaColumn(s: LegacySpec, i: nat)
    requires i < |s.fields|
    ensures var text, at := LegacySqliteSchema(s), ColumnStart(s.element, SqliteColumns(s.fields), i);
            at + |SqliteColumn(s.fields[i])| <= |text| && text[at..at + |SqliteColumn(s.fields[i])|] == SqliteColumn(s.fields[i])
    ensures i + 1 < |s.fields| ==>
              ColumnStart(s.element, SqliteColumns(s.fields), i) + |SqliteColumn(s.fields[i])|
              < ColumnStart(s.element, SqliteColumns(s.fields), i + 1)
  {
    var cols := SqliteColumns(s.fields);
    assert LegacySqliteSchema(s) == CreateTable(s.element, cols, Some(s.primary), LegacySqliteOptions(s.withoutRowid));
    CreateTableColumn(s.element, cols, Some(s.primary), LegacySqliteOptions(s.withoutRowid), i);
    assert cols[i] == SqliteColumn(s.fields[i]);
  }

  datatype LegacyRouteError = NoLegacySpecFor(filename: string)

  /** `Specs.for_file` of the older variant: the first spec whose root prefixes the name. */
  method LegacyForFile(specs: seq<LegacySpec>, filename: string) returns (r: Result<LegacySpec, LegacyRouteError>)
    ensures r.Ok? ==> exists i :: 0 <= i < |specs| && r.value == specs[i] && specs[i].root <= filename
                                  && forall j :: 0 <= j < i ==> !(specs[j].root <= filename)
    ensures r.Err? ==> r.error == NoLegacySpecFor(filename)
                       && forall i :: 0 <= i < |specs| ==> !(specs[i].root <= filename)
  {
    var k := Routing.FirstPrefixed(specs, (s: LegacySpec) => s.root, filename);
    match k
    case Some(i) =>
      r := Ok(specs[i]);
    case None =>
      r := Err(NoLegacySpecFor(filename));
  }
}
