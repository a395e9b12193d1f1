/** First-match routing of a file name to a record spec, shared by both variants of
    `Specs.for_file`. */
module Routing {
  import opened Wrappers

  /** The index of the first item, in order, whose root is a prefix of `name`. */
  method FirstPrefixed<T>(items: seq<T>, root: T -> string, name: string) returns (r: Option<nat>)
    ensures r.Some? ==> r.value < |items| && root(items[r.value]) <= name
    ensures r.Some? ==> forall j :: 0 <= j < r.value ==> !(root(items[j]) <= name)
    ensures r.None? ==> forall j :: 0 <= j < |items| ==> !(root(items[j]) <= name)
  {
    var i := 0;
    while i < |items|
      invariant 0 <= i <= |items|
      invariant forall j :: 0 <= j < i ==> !(root(items[j]) <= name)
    {
      if root(items[i]) <= name {
        return Some(i);
      }
      i := i + 1;
    }
    return None;
  }
}

/** The record schema of mastr_export/spec.py: type tags and their tables, `Field`, `Spec`,
    the DDL text built from them, and `Specs.for_file`. */
module Schema {
  import opened Wrappers
  import Routing

  // ------------------------------------------------------------------ type tags and tables

  /** The XSD type tags a field may declare: the keys shared by the four tables. */
  datatype XsdType = Boolean | Date | DateTime | Decimal | NonNegativeInteger | String

  /** A tag as written in a spec file. */
  function TypeName(t: XsdType): (r: string) {
    match t
    case Boolean => "boolean"
    case Date => "date"
    case DateTime => "dateTime"
    case Decimal => "decimal"
    case NonNegativeInteger => "nonNegativeInteger"
    case String => "string"
  }

  /** Looking a tag name up in the tables: None where Python raises KeyError. */
  function ParseType(s: string): (r: Option<XsdType>)
    ensures r.Some? ==> TypeName(r.value) == s
    ensures r.None? ==> forall t :: TypeName(t) != s
  {
    if s == "boolean" then Some(Boolean)
    else if s == "date" then Some(Date)
    else if s == "dateTime" then Some(DateTime)
    else if s == "decimal" then Some(Decimal)
    else if s == "nonNegativeInteger" then Some(NonNegativeInteger)
    else if s == "string" then Some(String)
    else None
  }

  lemma ParseTypeName(t: XsdType)
    ensures ParseType(TypeName(t)) == Some(t)
  {
  }

  /** XSD_TO_POLARS, as the names of the Polars data types. */
  function PolarsType(t: XsdType): (r: string) {
    match t
    case Boolean => "Boolean"
    case Date => "Date"
    case DateTime => "Datetime(time_unit=\"us\", time_zone=None)"
    case Decimal => "Float64"
    case NonNegativeInteger => "UInt64"
    case String => "Utf8"
  }

  /** XSD_TO_SQLITE. */
  function SqliteType(t: XsdType): (r: string) {
    match t
    case Boolean => "integer"
    case Date => "text"
    case DateTime => "text"
    case Decimal => "real"
    case NonNegativeInteger => "integer"
    case String => "text"
  }

  /** XSD_TO_DUCKDB. */
  function DuckdbType(t: XsdType): (r: string) {
    match t
    case Boolean => "boolean"
    case Date => "date"
    case DateTime => "timestamp"
    case Decimal => "double"
    case NonNegativeInteger => "bigint"
    case String => "text"
  }

  // ------------------------------------------------------------------ values and conversion

  /** A cell of a parsed column: None, text, a bool, or a value made by one of Python's
      library constructors (a date, datetime, float or int), known by its tag and text. */
  datatype Value = Null | Str(text: string) | Bool(truth: bool) | Lib(tag: XsdType, repr: string)

  /** The library constructors of XSD_TO_PYTHON (`date.fromisoformat`,
      `datetime.fromisoformat`, `float`, `int`, and `bool` applied to one of their results),
      left uninterpreted: None where the constructor raises. */
  type Library = (XsdType, Value) -> Option<Value>

  /** `Field.convert`: None stays None; otherwise the tag's converter from XSD_TO_PYTHON.
      None as a result means the converter raised. */
  function Convert(t: XsdType, v: Value, lib: Library): (r: Option<Value>)
    ensures v == Null ==> r == Some(Null)
    ensures v != Null && t == String ==> r == Some(v)
    ensures v.Str? && t == Boolean ==> r == Some(Bool(v.text != ""))
    ensures v.Bool? && t == Boolean ==> r == Some(v)
  {
    if v == Null then Some(Null)
    else
      match t
      case String => Some(v)
      case Boolean =>
        (match v
         case Str(s) => Some(Bool(s != ""))
         case Bool(_) => Some(v)
         case _ => lib(t, v))
      case _ => lib(t, v)
  }

  /** Boolean conversion is Python truthiness: every non-empty text is true, including
      the texts "0" and "false". */
  lemma BooleanIsTruthiness(s: string, lib: Library)
    ensures Convert(Boolean, Str(s), lib) == Some(Bool(true)) <==> s != ""
    ensures Convert(Boolean, Str("0"), lib) == Some(Bool(true))
    ensures Convert(Boolean, Str("false"), lib) == Some(Bool(true))
  {
  }

  /** For the two converters visible in the code, converting an already converted value
      changes nothing (this is what a field's end tag does to the cell of a field repeated
      within one record). */
  lemma ConvertSettles(t: XsdType, v: Value, lib: Library)
    requires t == String || t == Boolean
    requires v.Null? || v.Str? || v.Bool?
    ensures Convert(t, v, lib).Some?
    ensures Convert(t, Convert(t, v, lib).value, lib) == Convert(t, v, lib)
  {
  }

  // ------------------------------------------------------------------ fields

  datatype Reference = Reference(table: string, column: string)

  /** A constructed `Field`: its tag has been found in the tables. */
  datatype Field = Field(name: string, index: bool, xsd: XsdType, references: Option<Reference>)

  /** One entry of a spec's `fields` list as written; an absent key takes the constructor's
      default. */
  datatype FieldDecl = FieldDecl(name: string, index: Option<bool>, xsd: Option<string>,
                                 references: Option<Reference>)

  datatype SpecError = UnknownType(field: string, xsd: string)

  /** `Field.__init__`: defaults `index=False`, `xsd="string"`; a tag outside the tables
      raises KeyError. */
  function MakeField(d: FieldDecl): (r: Result<Field, SpecError>)
    ensures r.Ok? <==> d.xsd.None? || ParseType(d.xsd.value).Some?
    ensures r.Ok? ==> r.value.name == d.name && r.value.references == d.references
    ensures r.Ok? ==> (r.value.index <==> d.index == Some(true))
    ensures r.Ok? && d.xsd.Some? ==> TypeName(r.value.xsd) == d.xsd.value
    ensures d.xsd.None? ==> r.Ok? && r.value.xsd == String
    ensures r.Err? ==> d.xsd.Some? && r.error == UnknownType(d.name, d.xsd.value)
  {
    var index := d.index == Some(true);
    match d.xsd
    case None => Ok(Field(d.name, index, String, d.references))
    case Some(x) =>
      match ParseType(x)
      case None => Err(UnknownType(d.name, x))
      case Some(t) => Ok(Field(d.name, index, t, d.references))
  }

  /** `[Field(**field) for field in fields]`: every declaration becomes a field, in order;
      the first declaration that cannot be built raises. */
  function MakeFields(ds: seq<FieldDecl>): (r: Result<seq<Field>, SpecError>)
    ensures r.Ok? <==> forall i :: 0 <= i < |ds| ==> MakeField(ds[i]).Ok?
    ensures r.Ok? ==> |r.value| == |ds|
    ensures r.Ok? ==> forall i :: 0 <= i < |ds| ==> r.value[i] == MakeField(ds[i]).value
    ensures r.Err? ==> exists k :: FirstFailure(ds, k) && r.error == MakeField(ds[k]).error
  {
    if ds == [] then Ok([])
    else
      match MakeField(ds[0])
      case Err(e) =>
        assert FirstFailure(ds, 0);
        Err(e)
      case Ok(f) =>
        match MakeFields(ds[1..])
        case Err(e) =>
          var k :| FirstFailure(ds[1..], k) && e == MakeField(ds[1..][k]).error;
          assert FirstFailure(ds, k + 1);
          Err(e)
        case Ok(fs) => Ok([f] + fs)
  }

  /** `ds[k]` is the first declaration that cannot be built. */
  predicate FirstFailure(ds: seq<FieldDecl>, k: int) {
    && 0 <= k < |ds|
    && MakeField(ds[k]).Err?
    && forall i :: 0 <= i < k ==> MakeField(ds[i]).Ok?
  }

  function Names(fs: seq<Field>): (r: seq<string>)
    ensures |r| == |fs| && forall i :: 0 <= i < |fs| ==> r[i] == fs[i].name
  {
    seq(|fs|, i requires 0 <= i < |fs| => fs[i].name)
  }

  function DeclNames(ds: seq<FieldDecl>): (r: seq<string>)
    ensures |r| == |ds| && forall i :: 0 <= i < |ds| ==> r[i] == ds[i].name
  {
    seq(|ds|, i requires 0 <= i < |ds| => ds[i].name)
  }

  predicate Distinct(s: seq<string>) {
    forall i, j :: 0 <= i < j < |s| ==> s[i] != s[j]
  }

  /** Storing `f` in a Python dict held as its values in key order: an existing key keeps its
      place and takes the new value, a new key goes last. */
  function Insert(d: seq<Field>, f: Field): (r: seq<Field>) {
    if d == [] then [f]
    else if d[0].name == f.name then [f] + d[1..]
    else [d[0]] + Insert(d[1..], f)
  }

  /** `dict((field.name, field) for field in fields)`, as its values in key order. */
  function Keyed(fs: seq<Field>): (r: seq<Field>)
    ensures |r| <= |fs| && (r == [] <==> fs == [])
    ensures fs != [] ==> fs[|fs| - 1] in r
  {
    if fs == [] then []
    else
      var p := fs[..|fs| - 1];
      InsertSize(Keyed(p), fs[|fs| - 1]);
      Insert(Keyed(p), fs[|fs| - 1])
  }

  /** Storing a value keeps it, and adds at most one entry. */
  lemma {:induction false} InsertSize(d: seq<Field>, f: Field)
    ensures f in Insert(d, f) && |d| <= |Insert(d, f)| <= |d| + 1
  {
    if d != [] && d[0].name != f.name {
      InsertSize(d[1..], f);
    }
  }

  /** Reference definition of a dict's key order: each name once, where it first occurs. */
  function Dedup(s: seq<string>): (r: seq<string>) {
    if s == [] then []
    else if s[|s| - 1] in s[..|s| - 1] then Dedup(s[..|s| - 1])
    else Dedup(s[..|s| - 1]) + [s[|s| - 1]]
  }

  /** The last field of `fs` named `n`. */
  function LastNamed(fs: seq<Field>, n: string): (r: Option<Field>) {
    if fs == [] then None
    else if fs[|fs| - 1].name == n then Some(fs[|fs| - 1])
    else LastNamed(fs[..|fs| - 1], n)
  }

  /** The last field named `n` is one of the fields, and none after it has that name. */
  lemma {:induction false} LastNamedFound(fs: seq<Field>, n: string)
    ensures LastNamed(fs, n).Some? <==> n in Names(fs)
    ensures LastNamed(fs, n).Some? ==>
              exists i :: 0 <= i < |fs| && fs[i] == LastNamed(fs, n).value && fs[i].name == n &&
                          forall j :: i < j < |fs| ==> fs[j].name != n
    decreases |fs|
  {
    if fs != [] {
      var p := fs[..|fs| - 1];
      LastNamedFound(p, n);
      assert Names(fs) == Names(p) + [fs[|fs| - 1].name];
      if fs[|fs| - 1].name != n && LastNamed(p, n).Some? {
        var i :| 0 <= i < |p| && p[i] == LastNamed(p, n).value && p[i].name == n &&
                 forall j :: i < j < |p| ==> p[j].name != n;
        assert fs[i] == p[i];
      }
    }
  }

  lemma {:induction false} DedupMembers(s: seq<string>)
    ensures forall x :: x in Dedup(s) <==> x in s
    ensures Distinct(Dedup(s))
  {
    if s != [] {
      var p := s[..|s| - 1];
      assert s == p + [s[|s| - 1]];
      DedupMembers(p);
    }
  }

  lemma NamesConcat(a: seq<Field>, b: seq<Field>)
    ensures Names(a + b) == Names(a) + Names(b)
  {
  }

  lemma {:induction false} InsertNames(d: seq<Field>, f: Field)
    ensures Names(Insert(d, f)) == if f.name in Names(d) then Names(d) else Names(d) + [f.name]
  {
    if d == [] {
      assert Names([f]) == [f.name];
    } else {
      NamesConcat([d[0]], d[1..]);
      assert d == [d[0]] + d[1..];
      assert Names([d[0]]) == [d[0].name];
      if d[0].name == f.name {
        NamesConcat([f], d[1..]);
        assert Names([f]) == [f.name];
      } else {
        InsertNames(d[1..], f);
        NamesConcat([d[0]], Insert(d[1..], f));
        assert f.name in Names(d) <==> f.name in Names(d[1..]);
      }
    }
  }

  lemma {:induction false} InsertMembers(d: seq<Field>, f: Field)
    requires Distinct(Names(d))
    ensures f in Insert(d, f)
    ensures forall g :: g in Insert(d, f) ==> g == f || (g in d && g.name != f.name)
  {
    if d != [] {
      if d[0].name == f.name {
        forall g | g in d[1..] ensures g.name != f.name {
          var j :| 0 <= j < |d[1..]| && d[1..][j] == g;
          assert Names(d)[0] != Names(d)[j + 1];
        }
      } else {
        assert Names(d[1..]) == Names(d)[1..];
        InsertMembers(d[1..], f);
      }
    }
  }

  lemma {:induction false} InsertFresh(d: seq<Field>, f: Field)
    requires f.name !in Names(d)
    ensures Insert(d, f) == d + [f]
  {
    if d != [] {
      assert d[0].name == Names(d)[0];
      assert Names(d[1..]) == Names(d)[1..];
      InsertFresh(d[1..], f);
    }
  }

  lemma {:induction false} DedupHas(s: seq<string>, x: string)
    ensures x in Dedup(s) <==> x in s
  {
    if s != [] {
      var p := s[..|s| - 1];
      assert s == p + [s[|s| - 1]];
      DedupHas(p, x);
    }
  }

  lemma NamesSnoc(fs: seq<Field>)
    requires fs != []
    ensures Names(fs) == Names(fs[..|fs| - 1]) + [fs[|fs| - 1].name]
  {
  }

  /** Storing one more field keeps the keys in order of first occurrence. */
  lemma KeyedStep(k: seq<Field>, names: seq<string>, f: Field)
    requires Names(k) == Dedup(names)
    ensures Names(Insert(k, f)) == Dedup(names + [f.name])
  {
    InsertNames(k, f);
    DedupSnoc(names, f.name);
    DedupHas(names, f.name);
  }

  lemma DedupSnoc(s: seq<string>, x: string)
    ensures Dedup(s + [x]) == if x in s then Dedup(s) else Dedup(s) + [x]
  {
    assert (s + [x])[..|s|] == s;
  }

  /** The keys of `Spec.fields` are the input's names in order of first occurrence, once each. */
  lemma KeyedOrder(fs: seq<Field>)
    ensures Names(Keyed(fs)) == Dedup(Names(fs))
    ensures Distinct(Names(Keyed(fs)))
  {
    KeyedNames(fs);
    DedupMembers(Names(fs));
  }

  lemma {:induction false} KeyedNames(fs: seq<Field>)
    ensures Names(Keyed(fs)) == Dedup(Names(fs))
  {
    if fs != [] {
      var p := fs[..|fs| - 1];
      var last := fs[|fs| - 1];
      KeyedNames(p);
      assert Keyed(fs) == Insert(Keyed(p), last);
      KeyedStep(Keyed(p), Names(p), last);
      NamesSnoc(fs);
    }
  }

  /** Each field of `Spec.fields` is the last input field with its name. */
  lemma {:induction false} KeyedLast(fs: seq<Field>)
    ensures forall g :: g in Keyed(fs) ==> LastNamed(fs, g.name) == Some(g)
  {
    if fs != [] {
      var p := fs[..|fs| - 1];
      KeyedLast(p);
      KeyedOrder(p);
      InsertMembers(Keyed(p), fs[|fs| - 1]);
    }
  }

  /** Without repeated names, `Spec.fields` holds the input fields in input order. */
  lemma {:induction false} KeyedDistinct(fs: seq<Field>)
    requires Distinct(Names(fs))
    ensures Keyed(fs) == fs
  {
    if fs != [] {
      var p := fs[..|fs| - 1];
      assert Names(p) == Names(fs)[..|fs| - 1];
      KeyedDistinct(p);
      assert Keyed(fs) == Insert(Keyed(p), fs[|fs| - 1]);
      assert fs[|fs| - 1].name !in Names(p) by {
        assert forall i :: 0 <= i < |p| ==> Names(fs)[i] != Names(fs)[|fs| - 1];
      }
      InsertFresh(p, fs[|fs| - 1]);
    }
  }

  /** `spec.fields[name]`: the field stored under `name`. */
  function FieldNamed(fs: seq<Field>, n: string): (r: Option<Field>)
    ensures r.Some? <==> n in Names(fs)
    ensures r.Some? ==> r.value in fs && r.value.name == n
  {
    if fs == [] then None
    else if fs[0].name == n then Some(fs[0])
    else
      assert Names(fs) == [fs[0].name] + Names(fs[1..]);
      FieldNamed(fs[1..], n)
  }

  // ------------------------------------------------------------------ specs

  /** A constructed `Spec`; `fields` are the values of the `fields` dict in key order. */
  datatype Spec = Spec(root: string, element: string, fields: seq<Field>, primary: Option<string>,
                       withoutRowid: bool)

  /** `Spec.__init__` with defaults `primary=None`, `without_rowid=False`. */
  function MakeSpec(root: string, element: string, decls: seq<FieldDecl>, primary: Option<string>,
                    withoutRowid: Option<bool>): (r: Result<Spec, SpecError>)
    ensures r.Ok? <==> forall i :: 0 <= i < |decls| ==> MakeField(decls[i]).Ok?
    ensures r.Err? ==> exists k :: FirstFailure(decls, k) && r.error == MakeField(decls[k]).error
    ensures r.Ok? ==> r.value.root == root && r.value.element == element
    ensures r.Ok? ==> r.value.primary == primary && (r.value.withoutRowid <==> withoutRowid == Some(true))
    ensures r.Ok? ==> Names(r.value.fields) == Dedup(DeclNames(decls))
    ensures r.Ok? ==> Distinct(Names(r.value.fields))
    ensures r.Ok? ==> forall g :: g in r.value.fields ==>
                        LastNamed(MakeFields(decls).value, g.name) == Some(g)
  {
    match MakeFields(decls)
    case Err(e) => Err(e)
    case Ok(fs) =>
      KeyedOrder(fs);
      KeyedLast(fs);
      assert Names(fs) == DeclNames(decls);
      Ok(Spec(root, element, Keyed(fs), primary, withoutRowid == Some(true)))
  }

  // ------------------------------------------------------------------ DDL text

  /** `sep.join(parts)`. */
  function Join(sep: string, parts: seq<string>): (r: string)
    decreases |parts|
  {
    if |parts| == 0 then ""
    else if |parts| == 1 then parts[0]
    else Join(sep, parts[..|parts| - 1]) + sep + parts[|parts| - 1]
  }

  /** Where `parts[i]` starts inside `Join(sep, parts)`. */
  function Offset(sep: string, parts: seq<string>, i: nat): (r: nat)
    requires i <= |parts|
  {
    if i == 0 then 0 else Offset(sep, parts, i - 1) + |parts[i - 1]| + |sep|
  }

  lemma {:induction false} OffsetPrefix(sep: string, parts: seq<string>, q: seq<string>, i: nat)
    requires i <= |q| <= |parts| && q == parts[..|q|]
    ensures Offset(sep, q, i) == Offset(sep, parts, i)
  {
    if i > 0 {
      OffsetPrefix(sep, parts, q, i - 1);
    }
  }

  lemma {:induction false} JoinLength(sep: string, parts: seq<string>)
    requires |parts| >= 1
    ensures |Join(sep, parts)| + |sep| == Offset(sep, parts, |parts|)
  {
    if |parts| > 1 {
      var p := parts[..|parts| - 1];
      JoinLength(sep, p);
      OffsetPrefix(sep, parts, p, |p|);
    }
  }

  lemma {:induction false} JoinPrefix(sep: string, parts: seq<string>, k: nat)
    requires 1 <= k <= |parts|
    ensures Join(sep, parts[..k]) <= Join(sep, parts)
  {
    if k < |parts| {
      var p := parts[..|parts| - 1];
      assert p[..k] == parts[..k];
      JoinPrefix(sep, p, k);
    } else {
      assert parts[..k] == parts;
    }
  }

  lemma SliceLeft(a: string, b: string, lo: nat, hi: nat)
    requires lo <= hi <= |a|
    ensures (a + b)[lo..hi] == a[lo..hi]
  {
  }

  lemma SliceRight(a: string, b: string, lo: nat, hi: nat)
    requires lo <= hi <= |b|
    ensures (a + b)[|a| + lo..|a| + hi] == b[lo..hi]
  {
  }

  /** `parts[i]` stands in `Join(sep, parts)` at `Offset(sep, parts, i)`. */
  lemma {:induction false} JoinAt(sep: string, parts: seq<string>, i: nat)
    requires i < |parts|
    ensures Offset(sep, parts, i) + |parts[i]| <= |Join(sep, parts)|
    ensures Join(sep, parts)[Offset(sep, parts, i)..Offset(sep, parts, i) + |parts[i]|] == parts[i]
  {
    var q := parts[..i + 1];
    var o := Offset(sep, parts, i);
    JoinPrefix(sep, parts, i + 1);
    if i > 0 {
      assert q[..|q| - 1] == parts[..i];
      JoinLength(sep, parts[..i]);
      OffsetPrefix(sep, parts, parts[..i], i);
      var front := Join(sep, parts[..i]) + sep;
      assert Join(sep, q) == front + parts[i];
      SliceRight(front, parts[i], 0, |parts[i]|);
    } else {
      assert Join(sep, q) == parts[0];
    }
    assert Join(sep, q)[o..o + |parts[i]|] == parts[i];
  }

  lemma {:induction false} OffsetIncreasing(sep: string, parts: seq<string>, i: nat, j: nat)
    requires i < j <= |parts|
    ensures Offset(sep, parts, i) + |parts[i]| + |sep| <= Offset(sep, parts, j)
    decreases j
  {
    if i < j - 1 {
      OffsetIncreasing(sep, parts, i, j - 1);
    }
  }

  function Quoted(n: string): (r: string) {
    "\"" + n + "\""
  }

  /** The separator of the column list in every CREATE TABLE statement. */
  const ColumnSep: string := ",\n    "

  function TableHeader(table: string): (r: string) {
    "create table if not exists " + Quoted(table) + " (\n    "
  }

  function PrimaryClause(primary: Option<string>): (r: string) {
    match primary
    case None => ""
    case Some(k) => ",\n    primary key (" + Quoted(k) + ")"
  }

  /** The closing parenthesis, the builder's table options and the final `;`. */
  function Closing(options: string): (r: string) {
    "\n)" + options + ";\n"
  }

  /** The CREATE TABLE text shared by every schema builder of both spec.py variants; the
      builders differ only in the options after the closing parenthesis. */
  function CreateTable(table: string, columns: seq<string>, primary: Option<string>, options: string): (r: string)
    ensures TableHeader(table) <= r
  {
    TableHeader(table) + (Join(ColumnSep, columns) + (PrimaryClause(primary) + Closing(options)))
  }

  /** Position of the `i`-th column definition inside a CREATE TABLE text. */
  function ColumnStart(table: string, columns: seq<string>, i: nat): (r: nat)
    requires i <= |columns|
  {
    |TableHeader(table)| + Offset(ColumnSep, columns, i)
  }

  predicate EndsWith(s: string, suffix: string) {
    |suffix| <= |s| && s[|s| - |suffix|..] == suffix
  }

  lemma EndsWithNested(a: string, b: string, c: string)
    ensures EndsWith(a + (b + c), c) && EndsWith(a + (b + c), b + c)
  {
    assert a + (b + c) == (a + b) + c;
  }

  lemma EndsWithTrans(s: string, t: string, u: string)
    requires EndsWith(s, t) && EndsWith(t, u)
    ensures EndsWith(s, u)
  {
    assert s[|s| - |u|..] == t[|t| - |u|..];
  }

  /** Two suffixes of one text: the shorter is a suffix of the longer. */
  lemma EndsWithBoth(s: string, a: string, b: string)
    requires EndsWith(s, a) && EndsWith(s, b) && |a| <= |b|
    ensures EndsWith(b, a)
  {
    assert b[|b| - |a|..] == s[|s| - |a|..];
  }

  /** The `i`-th column definition stands in the text at `ColumnStart`, and the definitions
      follow one another in list order. */
  lemma CreateTableColumn(table: string, columns: seq<string>, primary: Option<string>, options: string, i: nat)
    requires i < |columns|
    ensures var text, at := CreateTable(table, columns, primary, options), ColumnStart(table, columns, i);
            at + |columns[i]| <= |text| && text[at..at + |columns[i]|] == columns[i]
    ensures i + 1 < |columns| ==> ColumnStart(table, columns, i) + |columns[i]| < ColumnStart(table, columns, i + 1)
  {
    var h := TableHeader(table);
    var j := Join(ColumnSep, columns);
    var rest := PrimaryClause(primary) + Closing(options);
    var o := Offset(ColumnSep, columns, i);
    assert CreateTable(table, columns, primary, options) == h + (j + rest);
    JoinAt(ColumnSep, columns, i);
    SliceLeft(j, rest, o, o + |columns[i]|);
    SliceRight(h, j + rest, o, o + |columns[i]|);
    if i + 1 < |columns| {
      OffsetIncreasing(ColumnSep, columns, i, i + 1);
    }
  }

  /** The text closes with the primary key clause exactly when a primary key is given;
      without one the column list runs up to the closing parenthesis. */
  lemma CreateTableClose(table: string, columns: seq<string>, primary: Option<string>, options: string)
    ensures primary.Some? ==> EndsWith(CreateTable(table, columns, primary, options),
                                       PrimaryClause(primary) + Closing(options))
    ensures primary.None? ==> EndsWith(CreateTable(table, columns, primary, options),
                                       Join(ColumnSep, columns) + Closing(options))
    ensures EndsWith(CreateTable(table, columns, primary, options), Closing(options))
  {
    var j, pc, c := Join(ColumnSep, columns), PrimaryClause(primary), Closing(options);
    EndsWithNested(TableHeader(table), j, pc + c);
    EndsWithNested(j, pc, c);
    EndsWithTrans(CreateTable(table, columns, primary, options), pc + c, c);
    if primary.None? {
      assert pc + c == c;
    }
  }

  /** `Field.sqlite_schema`. */
  function SqliteColumn(f: Field): (r: string)
    ensures Quoted(f.name) + " " + SqliteType(f.xsd) <= r
    ensures r == Quoted(f.name) + " " + SqliteType(f.xsd) <==> f.references.None?
  {
    Quoted(f.name) + " " + SqliteType(f.xsd) + References(f.references)
  }

  function References(r: Option<Reference>): (s: string)
    ensures s == "" <==> r.None?
    ensures r.Some? ==> " references " <= s && EndsWith(s, "(" + Quoted(r.value.column) + ")")
  {
    match r
    case None => ""
    case Some(r) => " references " + Quoted(r.table) + "(" + Quoted(r.column) + ")"
  }

  /** `Field.duckdb_schema`. */
  function DuckdbColumn(f: Field): (r: string)
    ensures Quoted(f.name) + " " <= r
    ensures EndsWith(r, DuckdbType(f.xsd))
  {
    Quoted(f.name) + " " + DuckdbType(f.xsd)
  }

  /** `Field.sqlite_index`. */
  function SqliteIndex(f: Field, element: string): (r: string)
    ensures "create index if not exists idx_" + element + "_" + f.name + " on " <= r
    ensures EndsWith(r, Quoted(element) + "(" + Quoted(f.name) + ");")
  {
    "create index if not exists idx_" + element + "_" + f.name + " on " + Quoted(element) + "(" + Quoted(f.name) + ");"
  }

  function SqliteColumns(fs: seq<Field>): (r: seq<string>)
    ensures |r| == |fs| && forall i :: 0 <= i < |fs| ==> r[i] == SqliteColumn(fs[i])
  {
    seq(|fs|, i requires 0 <= i < |fs| => SqliteColumn(fs[i]))
  }

  function DuckdbColumns(fs: seq<Field>): (r: seq<string>)
    ensures |r| == |fs| && forall i :: 0 <= i < |fs| ==> r[i] == DuckdbColumn(fs[i])
  {
    seq(|fs|, i requires 0 <= i < |fs| => DuckdbColumn(fs[i]))
  }

  /** The options after the closing parenthesis of `Spec.sqlite_schema`. */
  function SqliteOptions(withoutRowid: bool): (r: string) {
    " strict" + if withoutRowid then ", without rowid" else ""
  }

  /** `Spec.sqlite_schema`. */
  function SqliteSchema(s: Spec): (r: string)
    ensures TableHeader(s.element) <= r
    ensures EndsWith(r, Closing(SqliteOptions(s.withoutRowid)))
  {
    CreateTableClose(s.element, SqliteColumns(s.fields), s.primary, SqliteOptions(s.withoutRowid));
    CreateTable(s.element, SqliteColumns(s.fields), s.primary, SqliteOptions(s.withoutRowid))
  }

  /** `Spec.duckdb_schema`. */
  function DuckdbSchema(s: Spec): (r: string)
    ensures TableHeader(s.element) <= r
    ensures EndsWith(r, Closing(""))
  {
    CreateTableClose(s.element, DuckdbColumns(s.fields), s.primary, "");
    CreateTable(s.element, DuckdbColumns(s.fields), s.primary, "")
  }

  /** `Spec.sqlite_indices`: the index statements of the indexed fields, in field order. */
  function IndexStatements(fs: seq<Field>, element: string): (r: seq<string>)
    ensures |r| <= |fs|
    ensures (forall i :: 0 <= i < |fs| ==> !fs[i].index) ==> r == []
    ensures (forall i :: 0 <= i < |fs| ==> fs[i].index) ==> |r| == |fs|
    decreases |fs|
  {
    if fs == [] then []
    else IndexStatements(fs[..|fs| - 1], element)
         + (if fs[|fs| - 1].index then [SqliteIndex(fs[|fs| - 1], element)] else [])
  }

  function SqliteIndices(s: Spec): (r: seq<string>)
    ensures |r| == CountIndexed(s.fields)
  {
    IndexStatementsCount(s.fields, s.element);
    IndexStatements(s.fields, s.element)
  }

  /** The sqlite schema has one column definition per field, in field order, each made of
      the quoted field name, its SQLite type and its reference clause. */
  lemma SqliteSchemaColumn(s: Spec, i: nat)
    requires i < |s.fields|
    ensures var text, at, f := SqliteSchema(s), ColumnStart(s.element, SqliteColumns(s.fields), i), s.fields[i];
            at + |SqliteColumn(f)| <= |text|
            && text[at..at + |SqliteColumn(f)|] == Quoted(f.name) + " " + SqliteType(f.xsd) + References(f.references)
    ensures i + 1 < |s.fields| ==>
              ColumnStart(s.element, SqliteColumns(s.fields), i) + |SqliteColumn(s.fields[i])|
              < ColumnStart(s.element, SqliteColumns(s.fields), i + 1)
  {
    var cols := SqliteColumns(s.fields);
    assert SqliteSchema(s) == CreateTable(s.element, cols, s.primary, SqliteOptions(s.withoutRowid));
    CreateTableColumn(s.element, cols, s.primary, SqliteOptions(s.withoutRowid), i);
    assert cols[i] == SqliteColumn(s.fields[i])
                   == Quoted(s.fields[i].name) + " " + SqliteType(s.fields[i].xsd) + References(s.fields[i].references);
  }

  /** The duckdb schema lists the same fields in the same order, with the DuckDB types. */
  lemma DuckdbSchemaColumn(s: Spec, i: nat)
    requires i < |s.fields|
    ensures var text, at, f := DuckdbSchema(s), ColumnStart(s.element, DuckdbColumns(s.fields), i), s.fields[i];
            at + |DuckdbColumn(f)| <= |text|
            && text[at..at + |DuckdbColumn(f)|] == Quoted(f.name) + " " + DuckdbType(f.xsd)
    ensures i + 1 < |s.fields| ==>
              ColumnStart(s.element, DuckdbColumns(s.fields), i) + |DuckdbColumn(s.fields[i])|
              < ColumnStart(s.element, DuckdbColumns(s.fields), i + 1)
  {
    var cols := DuckdbColumns(s.fields);
    assert DuckdbSchema(s) == CreateTable(s.element, cols, s.primary, "");
    CreateTableColumn(s.element, cols, s.primary, "", i);
    assert cols[i] == DuckdbColumn(s.fields[i]) == Quoted(s.fields[i].name) + " " + DuckdbType(s.fields[i].xsd);
  }

  /** The closing text of the sqlite schema ends in `, without rowid;` exactly when asked. */
  lemma SqliteClosing(withoutRowid: bool)
    ensures withoutRowid ==> EndsWith(Closing(SqliteOptions(withoutRowid)), ", without rowid;\n")
    ensures !withoutRowid ==> !EndsWith(", without rowid;\n", Closing(SqliteOptions(withoutRowid)))
  {
    var tail := ", without rowid;\n";
    if withoutRowid {
      var c := Closing(SqliteOptions(withoutRowid));
      assert c == "\n) strict" + tail;
      assert c[|c| - |tail|..] == tail;
    } else {
      var c := Closing(SqliteOptions(withoutRowid));
      assert c == "\n) strict;\n";
      assert tail[|tail| - |c|..][0] == tail[6] != c[0];
    }
  }

  /** The sqlite schema carries a primary key clause only when `primary` is set, and ends in
      `, without rowid;` exactly when `without_rowid` is set. */
  lemma SqliteSchemaClose(s: Spec)
    ensures s.primary.Some? ==> EndsWith(SqliteSchema(s), PrimaryClause(s.primary) + Closing(SqliteOptions(s.withoutRowid)))
    ensures s.primary.None? ==> EndsWith(SqliteSchema(s), Join(ColumnSep, SqliteColumns(s.fields)) + Closing(SqliteOptions(s.withoutRowid)))
    ensures EndsWith(SqliteSchema(s), ", without rowid;\n") <==> s.withoutRowid
  {
    var c := Closing(SqliteOptions(s.withoutRowid));
    var text := SqliteSchema(s);
    CreateTableClose(s.element, SqliteColumns(s.fields), s.primary, SqliteOptions(s.withoutRowid));
    SqliteClosing(s.withoutRowid);
    if s.withoutRowid {
      EndsWithTrans(text, c, ", without rowid;\n");
    } else if EndsWith(text, ", without rowid;\n") {
      EndsWithBoth(text, c, ", without rowid;\n");
    }
  }

  /** The duckdb schema carries a primary key clause only when `primary` is set. */
  lemma DuckdbSchemaClose(s: Spec)
    ensures s.primary.Some? ==> EndsWith(DuckdbSchema(s), PrimaryClause(s.primary) + Closing(""))
    ensures s.primary.None? ==> EndsWith(DuckdbSchema(s), Join(ColumnSep, DuckdbColumns(s.fields)) + Closing(""))
  {
    CreateTableClose(s.element, DuckdbColumns(s.fields), s.primary, "");
  }

  /** Exactly the indexed fields get an index statement. */
  lemma {:induction false} IndexStatementsMembers(fs: seq<Field>, element: string)
    ensures forall st :: st in IndexStatements(fs, element) <==>
              exists f :: f in fs && f.index && st == SqliteIndex(f, element)
  {
    if fs != [] {
      var p := fs[..|fs| - 1];
      IndexStatementsMembers(p, element);
      assert fs == p + [fs[|fs| - 1]];
    }
  }

  /** Index statements appear in field order: an earlier indexed field's statement comes
      first. */
  lemma {:induction false} IndexStatementsOrder(fs: seq<Field>, element: string, i: nat, j: nat)
    requires i < j < |fs| && fs[i].index && fs[j].index
    ensures exists a, b :: 0 <= a < b < |IndexStatements(fs, element)|
              && IndexStatements(fs, element)[a] == SqliteIndex(fs[i], element)
              && IndexStatements(fs, element)[b] == SqliteIndex(fs[j], element)
  {
    var p := fs[..|fs| - 1];
    var q := IndexStatements(p, element);
    var r := IndexStatements(fs, element);
    if j < |fs| - 1 {
      IndexStatementsOrder(p, element, i, j);
      var a, b :| 0 <= a < b < |q| && q[a] == SqliteIndex(p[i], element) && q[b] == SqliteIndex(p[j], element);
      assert r[a] == q[a] && r[b] == q[b];
    } else {
      IndexStatementsMembers(p, element);
      assert fs[i] in p;
      assert SqliteIndex(fs[i], element) in q;
      var a :| 0 <= a < |q| && q[a] == SqliteIndex(fs[i], element);
      assert r[a] == SqliteIndex(fs[i], element) && r[|q|] == SqliteIndex(fs[j], element);
    }
  }

  /** The number of indexed fields. */
  function CountIndexed(fs: seq<Field>): (r: nat) {
    if fs == [] then 0 else CountIndexed(fs[..|fs| - 1]) + if fs[|fs| - 1].index then 1 else 0
  }

  /** One index statement per indexed field. */
  lemma {:induction false} IndexStatementsCount(fs: seq<Field>, element: string)
    ensures |IndexStatements(fs, element)| == CountIndexed(fs)
  {
    if fs != [] {
      IndexStatementsCount(fs[..|fs| - 1], element);
    }
  }

  // ------------------------------------------------------------------ routing

  datatype RouteError = NoSpecFor(filename: string)

  /** `specs[i]` is the first spec, in declaration order, whose root prefixes `filename`. */
  predicate FirstRoute(specs: seq<Spec>, filename: string, i: int) {
    && 0 <= i < |specs|
    && specs[i].root <= filename
    && forall j :: 0 <= j < i ==> !(specs[j].root <= filename)
  }

  /** `Specs.for_file`. */
  method ForFile(specs: seq<Spec>, filename: string) returns (r: Result<Spec, RouteError>)
    ensures r.Ok? ==> exists i :: FirstRoute(specs, filename, i) && r.value == specs[i]
    ensures r.Err? ==> r.error == NoSpecFor(filename)
                       && forall i :: 0 <= i < |specs| ==> !(specs[i].root <= filename)
  {
    var k := Routing.FirstPrefixed(specs, (s: Spec) => s.root, filename);
    match k
    case Some(i) =>
      assert FirstRoute(specs, filename, i);
      r := Ok(specs[i]);
    case None =>
      r := Err(NoSpecFor(filename));
  }
}
