# mastr-export: the record parser, the record schema and the XSD derivation

mastr-export turns the XML files of the German energy market register (Marktstammdatenregister) into tables. Each file holds one root element, such as `EinheitenWind`. The root holds a sequence of record elements (`EinheitWind`), and each record holds one element per field. A *spec* names the root, the record element and the fields, each field with an XSD type tag. From a spec the program builds SQLite and DuckDB `create table` statements, and a streaming parser collects the fields of every record into one column per field.

This project models, in Dafny, the core of that program:

- **`Parsing`** (`parser.dfy`) models the `Parser` class of `mastr_export/parser.py`. The file `mastr-export/parser.py` is identical to it, so one model covers both.
  - The tokenizer's callbacks become a sequence of `Event`s.
  - The handler to call next (`self.parser`) becomes a `State`.
  - `self.columns` becomes a map from field name to a sequence of cells, together with the order of its keys, which is the order in which the fields are declared.
  - `Next` and `Run` state, as functions, what one event and a sequence of events do. Lemmas about them state the parser's promises: columns stay aligned; an absent field stays None; text chunks concatenate; only the last cell of the open column changes; every error case is covered.
  - The class `Parser` keeps the same state in fields and updates it in place, handler by handler. Its `Feed` and `Parse` methods are proved against `Next` and `Run`.
- **`Schema`** (`schema.dfy`) models `mastr_export/spec.py`:
  - the four type tables;
  - `Field`, with its defaults and its rejection of unknown tags;
  - `Field.convert`;
  - `Spec`, including the dict semantics of its `fields`, where a repeated name keeps its first place and takes its last definition;
  - the DDL text of `sqlite_schema`, `duckdb_schema` and `sqlite_indices`;
  - `Specs.for_file`, first-match routing by root prefix, shared with the older variant through the loop in module `Routing`.
- **`LegacySchema`** (`legacy_schema.dfy`) models the older `mastr-export/spec.py`. There `primary` is mandatory, both tables always end with a primary key clause, and ` without rowid` is written after a space instead of after `strict,`.
- **`Xsd`** (`xsd.dfy`) models `parse_xsd` of `mastr_export/xsd_parser.py`:
  - the per-field type rule: an explicit type; otherwise `xs:boolean` for a restriction to exactly "0" and "1"; otherwise the restriction's base; one `xs:` prefix removed;
  - the loop collecting field declarations;
  - the assembly of the `Spec`, with every error path.

Python's exceptions become `Err` values of a `Result`, one constructor per kind of exception, carrying the expected name and the event that raised it. The library converters (`date.fromisoformat`, `datetime.fromisoformat`, `float`, `int`) are a function parameter `lib` that the model does not interpret.

## Model

| member | source | states |
|---|---|---|
| `Routing.FirstPrefixed` | mastr_export/spec.py:163-167 | The loop returns the first index whose root is a prefix of the file name, with no earlier root a prefix; it returns None only when no root is a prefix. |
| `Schema.ParseType` | mastr_export/spec.py:9-44 | A tag is accepted exactly when it is one of the six names shared by the tables, and the accepted tag has that name. |
| `Schema.ParseTypeName` | mastr_export/spec.py:18-25 | Round trip: every tag's name looks up to that same tag. |
| `Schema.Convert` | mastr_export/spec.py:73-74 | None converts to None. `string` is the identity. `boolean` on text is its truthiness. |
| `Schema.BooleanIsTruthiness` | mastr_export/spec.py:19 | A boolean field converts text to true exactly when the text is non-empty, so "0" and "false" become true. |
| `Schema.ConvertSettles` | mastr_export/spec.py:73-74 | For `string` and `boolean`, converting a converted value changes nothing, as happens when a field repeats within a record. |
| `Schema.MakeField` | mastr_export/spec.py:65-71 | Defaults are `index=False` and `xsd="string"`. The field is built exactly when its tag is in the tables. An unknown tag raises, naming the field and the tag. |
| `Schema.MakeFields` | mastr_export/spec.py:100 | One field per declaration, in order. The first declaration that cannot be built decides the error. |
| `Schema.Keyed` | mastr_export/spec.py:101 | The dict has at most one entry per input field and is empty only when there are no fields. The last field given is always stored. |
| `Schema.KeyedOrder` | mastr_export/spec.py:101 | The keys of the fields dict are the names in input order, each at its first occurrence, with no repeats. |
| `Schema.KeyedLast` | mastr_export/spec.py:101 | The field kept under each name is the last one declared with that name. |
| `Schema.KeyedDistinct` | mastr_export/spec.py:101 | With distinct names the dict keeps all fields as given. |
| `Schema.FieldNamed` | mastr_export/parser.py:72 | `spec.fields[name]` finds a field exactly when the name is a key, and the field it finds has that name. |
| `Schema.MakeSpec` | mastr_export/spec.py:96-104 | The spec is built exactly when every field is. It keeps root, element, `primary` and `without_rowid`; its field names are the deduplicated declaration order, each field being the last declared with its name. |
| `Schema.References` | mastr_export/spec.py:77-79 | The reference clause is empty exactly when the field has no reference. Otherwise it starts with ` references ` and ends with the quoted column in parentheses. |
| `Schema.SqliteColumn` | mastr_export/spec.py:76-80 | A SQLite column definition starts with the quoted field name, a space and the SQLite type. It is nothing more exactly when the field has no reference. |
| `Schema.SqliteIndex` | mastr_export/spec.py:82-83 | The index is named `idx_<element>_<field>`, and is created on the element's table over the field's quoted column. |
| `Schema.DuckdbColumn` | mastr_export/spec.py:85-86 | A DuckDB column definition starts with the quoted field name and a space, and ends with the DuckDB type. |
| `Schema.SqliteSchema` | mastr_export/spec.py:106-119 | The SQLite table text starts with `create table if not exists "<element>" (`, and ends with the closing parenthesis, ` strict`, the rowid option and `;`. |
| `Schema.DuckdbSchema` | mastr_export/spec.py:128-141 | The DuckDB table text starts with the same header, and ends with the closing parenthesis and `;` with no options. |
| `Schema.IndexStatements` | mastr_export/spec.py:122-126 | There is at most one statement per field. There are none when no field is indexed, and one per field when every field is. |
| `Schema.SqliteIndices` | mastr_export/spec.py:121-126 | `sqlite_indices` returns one statement per indexed field. |
| `Schema.CreateTableColumn` | mastr_export/spec.py:116-117 | Each column definition stands in the table text at its offset, and the definitions follow one another in list order. |
| `Schema.CreateTableClose` | mastr_export/spec.py:110-119 | The text ends with the primary key clause exactly when a primary key is given; otherwise the column list runs to the closing parenthesis. |
| `Schema.SqliteSchemaColumn` | mastr_export/spec.py:106-109 | The SQLite table lists one definition per field, in field order: quoted name, SQLite type, reference clause. |
| `Schema.SqliteSchemaClose` | mastr_export/spec.py:110-118 | There is a primary key clause only when `primary` is set, and the text ends in `, without rowid;` exactly when `without_rowid` is set. |
| `Schema.DuckdbSchemaColumn` | mastr_export/spec.py:128-131 | The DuckDB table lists the same fields in the same order, with the DuckDB types. |
| `Schema.DuckdbSchemaClose` | mastr_export/spec.py:132-141 | The DuckDB table has a primary key clause only when `primary` is set. |
| `Schema.IndexStatementsMembers` | mastr_export/spec.py:121-126 | A statement is produced exactly when it is the index statement of a field whose `index` is set. |
| `Schema.IndexStatementsOrder` | mastr_export/spec.py:122-125 | Index statements come in field order. |
| `Schema.IndexStatementsCount` | mastr_export/spec.py:123-125 | There is one statement per indexed field. |
| `Schema.ForFile` | mastr_export/spec.py:163-167 | Returns the first spec, in declaration order, whose root prefixes the file name; raises, naming the file, when no root does. |
| `LegacySchema.MakeLegacySpec` | mastr-export/spec.py:93-99 | The older `Spec` requires `primary`. It is built exactly when every field is, and the first bad field decides the error. Its fields are exactly those the newer `Spec` keeps for the same declarations: names in order of first occurrence, each field the last one declared with its name. |
| `LegacySchema.LegacySqliteSchema` | mastr-export/spec.py:101-109 | The older SQLite table text starts with the table header, and always ends with the primary key clause, the closing parenthesis, a space, the optional ` without rowid` and `;`. |
| `LegacySchema.LegacyDuckdbSchema` | mastr-export/spec.py:118-126 | The older DuckDB table text starts with the table header, and always ends with the primary key clause, the closing parenthesis and `;`. |
| `LegacySchema.LegacySqliteIndices` | mastr-export/spec.py:111-116 | The older index statements are those of the newer variant. The `index` default of None selects nothing. |
| `LegacySchema.LegacyDuckdbIsPrimaryKeyed` | mastr-export/spec.py:118-126 | The older DuckDB table is the newer one with the primary key set, and always ends with the primary key clause. |
| `LegacySchema.LegacySqliteSchemaClose` | mastr-export/spec.py:101-109 | The older SQLite table always ends with the primary key clause, and ends in ` without rowid;` exactly when `without_rowid` is set. |
| `LegacySchema.LegacySqliteSchemaColumn` | mastr-export/spec.py:102-106 | The older SQLite table lists one definition per field, in field order. |
| `LegacySchema.LegacyForFile` | mastr-export/spec.py:148-152 | Returns the first spec whose root prefixes the file name, and raises when none does. |
| `Parsing.Initial` | mastr_export/parser.py:11-14 | A new parser has one empty column per field name, keyed in field declaration order, and no open field; the invariant holds. |
| `Parsing.OnStartRoot` | mastr_export/parser.py:16-27 | `start_root` succeeds exactly on the root's start tag, and then changes only the handler. Anything else raises, naming the root. |
| `Parsing.OnStartElementOrEndRoot` | mastr_export/parser.py:29-43 | Succeeds exactly on an end tag or the record's start tag. The start tag appends a None row to every column. The root's end tag leads to `done`, any other end tag to no handler. The open field and the key order are kept. |
| `Parsing.OnStartAttrOrEndElement` | mastr_export/parser.py:45-62 | Succeeds exactly on a field's start tag, which opens that field, or on the record's end tag. The columns are unchanged. |
| `Parsing.OnAttrCdataOrEndAttr` | mastr_export/parser.py:64-84 | Succeeds exactly on text when the last cell is None or text, or on the open field's end tag when its converter succeeds. Only the open column's last cell can change. Text keeps the field open; the end tag closes it. |
| `Parsing.Next` | mastr_export/parser.py:95-102 | Every handler that returns keeps the invariant: the key order is the field declaration order, the columns are keyed by the field names, all columns have the same length, and an open field has a non-empty column. |
| `Parsing.Run` | mastr_export/parser.py:109 | The invariant holds after any sequence of events that raises nothing. |
| `Parsing.RootComesFirst` | mastr_export/parser.py:16-27 | The first event succeeds exactly when it is the root's start tag. |
| `Parsing.BetweenRecords` | mastr_export/parser.py:29-43 | A record start tag appends exactly one None to every column. Another start tag and any text raise. The root's end tag leads to `done`. Any other end tag leaves no handler. |
| `Parsing.BetweenFields` | mastr_export/parser.py:45-62 | A start tag succeeds exactly when it names a field, and opens that field. An end tag succeeds exactly when it is the record's. Text, whitespace included, raises. |
| `Parsing.TextAccumulates` | mastr_export/parser.py:64-69 | Text is added to the open column's last cell, None counting as "". No other cell changes. Text after a converted non-text value raises. |
| `Parsing.NextTwoChunks` | mastr_export/parser.py:65-68 | Delivering `a` and then `b` gives the same state, or the same exception, as delivering `a + b`. |
| `Parsing.ChunksConcatenate` | mastr-export/parser.py:65-69 | However the text of a field is split into chunks, the run equals one event with the concatenated text. |
| `Parsing.FieldEnds` | mastr_export/parser.py:70-76 | The matching end tag replaces only the open column's last cell, by the converted value; a cell that received no text stays None. The open field is cleared and the state returns to between fields. A converter error propagates. |
| `Parsing.FieldsDoNotNest` | mastr_export/parser.py:77-84 | Inside a field, any start tag and any other end tag raise. |
| `Parsing.NothingAfterTheEnd` | mastr_export/parser.py:86-89 | After the root's end tag every further event raises, and so does every event once no handler is left. |
| `Parsing.RunErrorSticks` | mastr-export/parser.py:109 | Once an event has raised, the outcome of the run is that exception, whatever follows. |
| `Parsing.NextHeight` | mastr_export/parser.py:32-34 | One event adds a cell to every column exactly when it starts a record. |
| `Parsing.ColumnsCountRecords` | mastr-export/parser.py:31-34 | Every column grows by the number of records started. |
| `Parsing.ParseEvents` | mastr_export/parser.py:91-110 | A parse that raises nothing returns the columns keyed by the field names, in declaration order, all of the same length. |
| `Parsing.ParsedColumnsAligned` | mastr_export/parser.py:13 | After a parse from a new parser, the columns are keyed by the field names and each has one cell per record started. |
| `Parsing.RecordTagBetweenRecords` | mastr_export/parser.py:16-84 | When the record element is neither the root nor a field, its start tag is accepted only between records. |
| `Parsing.RecordsAreStartTags` | mastr_export/parser.py:30-34 | Under the same condition, a run that raises nothing starts exactly one record per start tag of the record element. |
| `Parsing.ColumnsCountStartTags` | mastr_export/parser.py:13 | Under the same condition, after a parse from a new parser every column has one cell per start tag of the record element in the input. |
| `Parsing.NextKeepsRows` | mastr_export/parser.py:66-74 | One event changes at most the last cell of each column, apart from appending. |
| `Parsing.EarlierRowsKept` | mastr-export/parser.py:71-76 | Cells before the last one of any column are never changed again. |
| `Parsing.NextLeavesColumn` | mastr_export/parser.py:45-49 | An event other than a field's start tag leaves that field's column closed and at most appends None to it. |
| `Parsing.UnopenedColumnGrowsNull` | mastr_export/parser.py:32-33 | A column whose start tag never comes is only extended with None. |
| `Parsing.AbsentFieldIsNull` | mastr-export/parser.py:31-34 | A field absent from a record leaves None in that record's cell. |
| `Parsing.ClosedRowsKept` | mastr-export/parser.py:31-34 | Between records every cell is final: any successful continuation of the run keeps each column as it stands, as a prefix. |
| `Parsing.AbsentFieldIsNullInTable` | mastr-export/parser.py:31-34 | Once a record in which a field never starts has been closed, its cell for that field stays None, whatever later records hold. |
| `Parsing.AbsentFieldIsNullParsed` | mastr-export/parser.py:31-34 | In the table a successful parse returns, the row of a record in which a field never starts holds None for that field. The row's index is the number of records started before it. |
| `Parsing.Parser.constructor` | mastr-export/parser.py:11-14 | A constructed parser's state is `Initial`. |
| `Parsing.Parser.HandleStartRoot` | mastr_export/parser.py:16-27 | `start_root` does what `Next` prescribes in its state. |
| `Parsing.Parser.AppendEmptyRow` | mastr_export/parser.py:32-33 | The loop appends one None to every column, and nothing else changes. |
| `Parsing.Parser.HandleStartElementOrEndRoot` | mastr_export/parser.py:29-43 | `start_element_or_end_root` does what `Next` prescribes in its state. |
| `Parsing.Parser.HandleStartAttrOrEndElement` | mastr_export/parser.py:45-62 | `start_attr_or_end_element` does what `Next` prescribes in its state. |
| `Parsing.Parser.HandleAttrCdataOrEndAttr` | mastr_export/parser.py:64-84 | `attr_cdata_or_end_attr` does what `Next` prescribes in its state. |
| `Parsing.Parser.Feed` | mastr-export/parser.py:95-102 | One callback moves the parser to `Next`'s state; an exception leaves it unchanged. |
| `Parsing.Parser.Parse` | mastr_export/parser.py:91-110 | `parse` returns the columns `Run` reaches from the start handler, with their key order. On the first exception it stops, leaving the parser where `Run` stood before that event. |
| `Parsing.ParseWithNewParser` | mastr-export/parser.py:91-110 | A new parser parses a stream exactly as `ParseEvents` describes. |
| `Xsd.StripXs` | mastr_export/xsd_parser.py:82 | Exactly one leading `xs:` is removed, and only when present. |
| `Xsd.FieldType` | mastr_export/xsd_parser.py:66-82 | A field has no type exactly when it has no `type` attribute and either no restriction or a restriction that is not exactly "0"/"1" and has no base. An explicit type wins, with `xs:` stripped. A "0"/"1" restriction gives `boolean`. |
| `Xsd.DeriveFields` | mastr_export/xsd_parser.py:63-90 | One declaration per field element, in document order, with the derived type and no index or reference. The first element without a type raises. |
| `Xsd.SpecFromDecls` | mastr_export/xsd_parser.py:93-99 | The spec accepts the declarations exactly when every derived type is supported. The first unsupported type is rejected, by field and tag. Each kept field comes from one of the elements, with its derived type. |
| `Xsd.ParseXsd` | mastr_export/xsd_parser.py:47-99 | The error order is: top element, record element, field list (the sequence, else the choice), field types, at least one field, then the spec. On success the root and element come from the document, `primary` is None, `without_rowid` is off, and the fields come in document order. The spec is the one the field declarations make, so each field is the last one declared with its name. |
| `Xsd.ExplicitTypeWins` | mastr_export/xsd_parser.py:67 | An explicit `type` attribute wins over any inline restriction. |
| `Xsd.ZeroOneIsBoolean` | mastr_export/xsd_parser.py:71-78 | A restriction to exactly {"0", "1"} makes a boolean field, whatever its base. |
| `Xsd.ZeroOneExactly` | mastr_export/xsd_parser.py:75-77 | For any list of enumeration values, the boolean rule applies exactly when both "0" and "1" occur and no other value does. |
| `Xsd.ZeroOneAnyOrder` | mastr_export/xsd_parser.py:76-77 | Examples of the set comparison: reordered or repeated values still count, and a missing or extra value does not. |
| `Xsd.BaseOtherwise` | mastr_export/xsd_parser.py:79-82 | Any other restriction takes its `base`, with `xs:` stripped; without a base there is no type. |
| `Xsd.PrefixedTypeRoundTrip` | mastr_export/xsd_parser.py:82 | `xs:` plus any supported tag name becomes a field of exactly that tag. |
| `Xsd.OnePrefixOnly` | mastr_export/xsd_parser.py:82 | Only one prefix is removed, so `xs:xs:string` is rejected. |
| `Xsd.ShortIsRejected` | mastr_export/xsd_parser.py:26 | A restriction over `xs:short`, as in the example in the function's docstring, derives `short`, which the spec rejects. |

## Left out

- The expat tokenizer and the file it reads are left out. The parser is fed a sequence of events instead; `self.filename` appears only in exception messages, which are not modelled.
- The parse does not check that the root was closed. `Parse` returns the columns in whatever state the last event left; the tokenizer's own well-formedness checks are outside the model.
- A stray end tag between records makes `start_element_or_end_root` return None. The model keeps this as the state `Stopped`, whose next event raises (`NotCallable`), as calling None does.
- The library converters (`date.fromisoformat`, `datetime.fromisoformat`, `float`, `int`) are an uninterpreted parameter `lib`. Only `str`'s identity and `bool`'s truthiness are modelled exactly.
- Polars and the database connections are left out. `PolarsType` only records XSD_TO_POLARS; the data frames built from the columns are not modelled.
- Spec files are assumed already parsed: YAML loading (`Specs.load`), and `Field` keys other than `name`, `index`, `xsd` and `references`, are left out.
- A `references` entry whose keys are not `table` and `column` makes `Reference(**references)` raise. This is left out: references are modelled as already well-formed.
- `index` is a boolean in the model. A non-boolean `index` in a spec file is left out. The older variant's default of None is the value false, which is how `if field.index` reads it.
- The first handler is set when the parser is constructed, where the source sets it only in `parse`. `Parse` sets it again, so a parse starts the same way.
- `parse` returns `self.columns` itself, so the caller and the parser share one dict. The model returns its value, a `Table` of key order and columns; the sharing is not modelled.
- In `parse_xsd`, a field element without a `name` attribute, and a root or record element without one, are left out: names are modelled as present.
- The ElementTree queries are left out. The document is the result of those queries (`XsdDocument`), and namespaces are not modelled.
- The command line, ZIP handling and downloads are not part of this model.
