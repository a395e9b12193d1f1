/** The streaming record parser of mastr_export/parser.py (mastr-export/parser.py is the same
    file). The parser is driven by the start-tag, end-tag and character-data events of one
    XML file and fills one column per field of its spec, one cell per record.

    `Next` and `Run` state, as functions, what one event and a sequence of events do to the
    parser's state; the lemmas after them are the promises of the state machine; the class
    `Parser` holds that state in fields and updates it in place, as the source does, with each
    method proved against `Next` and `Run`. */
module Parsing {
  import opened Wrappers
  import opened Schema

  /** The three expat callbacks the parser installs: START_ELEMENT, END_ELEMENT, CDATA. */
  datatype Event = StartElement(name: string) | EndElement(name: string) | Cdata(text: string)

  /** The bound method held in `self.parser`. `Stopped` is the None that
      `start_element_or_end_root` returns for an end tag other than the root's. */
  datatype State =
    | StartRoot
    | StartElementOrEndRoot
    | StartAttrOrEndElement
    | AttrCdataOrEndAttr
    | Done
    | Stopped

  /** The exceptions a handler raises, one constructor per kind of exception, carrying the
      expected name and the event that raised it (and the TypeErrors Python raises on its own). */
  datatype ParseError =
    | ExpectedStart(expected: string, got: Event)   // wrong root or record start tag
    | UnexpectedEvent(got: Event)                   // character data between tags
    | UnknownField(name: string)                    // start tag of an element that is no field
    | ExpectedEnd(expected: string, got: Event)     // wrong end tag, or a tag nested in a field
    | NotText(field: string, cell: Value)           // text added to a converted non-text cell
    | ConversionFailed(field: string, cell: Value)  // the field's converter raised
    | TrailingEvent(got: Event)                     // any event after the root's end tag
    | NotCallable(got: Event)                       // any event once `self.parser` is None

  /** `self.columns`: field name to column. */
  type Columns = map<string, seq<Value>>

  /** `self.columns` as the dict it is: the columns, and their keys in insertion order. */
  datatype Table = Table(order: seq<string>, columns: Columns)

  /** What the handlers read and write: `self.parser`, `self.columns` (its key order and
      its columns) and `self.current_column`. */
  datatype Config = Config(state: State, order: seq<string>, columns: Columns, current: Option<string>)

  function NameSet(spec: Spec): (r: set<string>) {
    set n | n in Names(spec.fields)
  }

  /** All columns have the same length. */
  ghost predicate Aligned(cols: Columns) {
    forall a, b :: a in cols && b in cols ==> |cols[a]| == |cols[b]|
  }

  /** What holds of the parser's state between any two events. */
  ghost predicate Inv(spec: Spec, c: Config) {
    && c.order == Names(spec.fields)
    && c.columns.Keys == NameSet(spec)
    && Aligned(c.columns)
    && (c.state == AttrCdataOrEndAttr ==> c.current.Some? && c.current.value in c.columns)
    && (c.state == StartAttrOrEndElement || c.state == AttrCdataOrEndAttr ==>
          forall k :: k in c.columns ==> |c.columns[k]| > 0)
  }

  /** `dict((name, []) for name in self.spec.fields.keys())`. */
  function EmptyColumns(names: seq<string>): (m: Columns)
    ensures m.Keys == set n | n in names
    ensures forall k :: k in m ==> m[k] == []
  {
    map n | n in names :: []
  }

  /** The state of a parser just constructed and asked to parse. */
  function Initial(spec: Spec): (c: Config)
    ensures Inv(spec, c)
    ensures c.state == StartRoot && c.current == None
    ensures c.order == Names(spec.fields)
    ensures c.columns.Keys == NameSet(spec) && forall k :: k in c.columns ==> c.columns[k] == []
  {
    Config(StartRoot, Names(spec.fields), EmptyColumns(Names(spec.fields)), None)
  }

  function Last(col: seq<Value>): (r: Value)
    requires |col| > 0
  {
    col[|col| - 1]
  }

  /** `column[-1] = v`. */
  function WithLast(col: seq<Value>, v: Value): (r: seq<Value>)
    requires |col| > 0
    ensures |r| == |col| && r[..|col| - 1] == col[..|col| - 1] && r[|col| - 1] == v
  {
    col[..|col| - 1] + [v]
  }

  /** `for column in self.columns.values(): column.append(None)`. */
  function AddRow(cols: Columns): (r: Columns)
    ensures r.Keys == cols.Keys
    ensures forall k :: k in cols ==> r[k] == cols[k] + [Null]
  {
    map k | k in cols :: cols[k] + [Null]
  }

  // ------------------------------------------------------------------ one event

  /** `start_root`. */
  function OnStartRoot(spec: Spec, c: Config, e: Event): (r: Result<Config, ParseError>)
    ensures r.Ok? <==> e == StartElement(spec.root)
    ensures r.Ok? ==> r.value.state == StartElementOrEndRoot
    ensures r.Ok? ==> r.value.order == c.order && r.value.columns == c.columns && r.value.current == c.current
    ensures r.Err? ==> r.error == ExpectedStart(spec.root, e)
  {
    if e == StartElement(spec.root) then Ok(c.(state := StartElementOrEndRoot))
    else Err(ExpectedStart(spec.root, e))
  }

  /** `start_element_or_end_root`. */
  function OnStartElementOrEndRoot(spec: Spec, c: Config, e: Event): (r: Result<Config, ParseError>)
    ensures r.Ok? <==> e.EndElement? || e == StartElement(spec.element)
    ensures r.Ok? ==> r.value.order == c.order && r.value.current == c.current
    ensures r.Ok? ==> r.value.columns == if e.StartElement? then AddRow(c.columns) else c.columns
    ensures r.Ok? && e.StartElement? ==> r.value.state == StartAttrOrEndElement
    ensures r.Ok? && e.EndElement? ==> (r.value.state == Done <==> e.name == spec.root)
    ensures r.Ok? && e.EndElement? ==> r.value.state in {Done, Stopped}
  {
    match e
    case StartElement(n) =>
      if n == spec.element then Ok(c.(state := StartAttrOrEndElement, columns := AddRow(c.columns)))
      else Err(ExpectedStart(spec.element, e))
    case EndElement(n) => Ok(c.(state := if n == spec.root then Done else Stopped))
    case Cdata(_) => Err(UnexpectedEvent(e))
  }

  /** `start_attr_or_end_element`. */
  function OnStartAttrOrEndElement(spec: Spec, c: Config, e: Event): (r: Result<Config, ParseError>)
    ensures r.Ok? <==> (e.StartElement? && e.name in c.columns) || e == EndElement(spec.element)
    ensures r.Ok? ==> r.value.order == c.order && r.value.columns == c.columns
    ensures r.Ok? && e.StartElement? ==> r.value.state == AttrCdataOrEndAttr && r.value.current == Some(e.name)
    ensures r.Ok? && e.EndElement? ==> r.value.state == StartElementOrEndRoot && r.value.current == c.current
  {
    match e
    case StartElement(n) =>
      if n in c.columns then Ok(c.(state := AttrCdataOrEndAttr, current := Some(n)))
      else Err(UnknownField(n))
    case EndElement(n) =>
      if n == spec.element then Ok(c.(state := StartElementOrEndRoot))
      else Err(ExpectedEnd(spec.element, e))
    case Cdata(_) => Err(UnexpectedEvent(e))
  }

  /** `attr_cdata_or_end_attr`. */
  function OnAttrCdataOrEndAttr(spec: Spec, lib: Library, c: Config, e: Event): (r: Result<Config, ParseError>)
    requires c.current.Some? && c.current.value in c.columns && |c.columns[c.current.value]| > 0
    requires c.current.value in Names(spec.fields)
    ensures var name := c.current.value;
            r.Ok? <==> || (e.Cdata? && (Last(c.columns[name]).Null? || Last(c.columns[name]).Str?))
                       || (e == EndElement(name) &&
                           Convert(FieldNamed(spec.fields, name).value.xsd, Last(c.columns[name]), lib).Some?)
    ensures r.Ok? ==> r.value.order == c.order && r.value.columns.Keys == c.columns.Keys
    ensures r.Ok? ==> forall k :: k in c.columns && k != c.current.value ==> r.value.columns[k] == c.columns[k]
    ensures var col := c.columns[c.current.value];
            r.Ok? ==> |r.value.columns[c.current.value]| == |col|
                      && r.value.columns[c.current.value][..|col| - 1] == col[..|col| - 1]
    ensures r.Ok? ==> r.value.state == if e.Cdata? then AttrCdataOrEndAttr else StartAttrOrEndElement
    ensures r.Ok? ==> r.value.current == if e.Cdata? then c.current else None
  {
    var name := c.current.value;
    var col := c.columns[name];
    var cell := Last(col);
    match e
    case Cdata(t) =>
      (match cell
       case Null => Ok(c.(state := AttrCdataOrEndAttr, columns := c.columns[name := WithLast(col, Str(t))]))
       case Str(s) => Ok(c.(state := AttrCdataOrEndAttr, columns := c.columns[name := WithLast(col, Str(s + t))]))
       case _ => Err(NotText(name, cell)))
    case EndElement(n) =>
      if n == name then
        match Convert(FieldNamed(spec.fields, name).value.xsd, cell, lib)
        case Some(v) => Ok(c.(state := StartAttrOrEndElement, columns := c.columns[name := WithLast(col, v)], current := None))
        case None => Err(ConversionFailed(name, cell))
      else Err(ExpectedEnd(name, e))
    case StartElement(_) => Err(ExpectedEnd(name, e))
  }

  /** One event: `self.parser = self.parser(event, data)`. A handler that raises leaves
      the state as it was. */
  function Next(spec: Spec, lib: Library, c: Config, e: Event): (r: Result<Config, ParseError>)
    requires Inv(spec, c)
    ensures r.Ok? ==> Inv(spec, r.value)
  {
    match c.state
    case StartRoot => OnStartRoot(spec, c, e)
    case StartElementOrEndRoot => OnStartElementOrEndRoot(spec, c, e)
    case StartAttrOrEndElement => OnStartAttrOrEndElement(spec, c, e)
    case AttrCdataOrEndAttr => OnAttrCdataOrEndAttr(spec, lib, c, e)
    case Done => Err(TrailingEvent(e))
    case Stopped => Err(NotCallable(e))
  }

  /** A sequence of events, stopping at the first exception. */
  function Run(spec: Spec, lib: Library, c: Config, evs: seq<Event>): (r: Result<Config, ParseError>)
    requires Inv(spec, c)
    ensures r.Ok? ==> Inv(spec, r.value)
    decreases |evs|
  {
    if evs == [] then Ok(c)
    else
      match Run(spec, lib, c, evs[..|evs| - 1])
      case Err(x) => Err(x)
      case Ok(d) => Next(spec, lib, d, evs[|evs| - 1])
  }

  /** `Parser(spec).parse(f, filename)` over the events the tokenizer delivers: the columns,
      whatever state the last event left the parser in. */
  function ParseEvents(spec: Spec, lib: Library, evs: seq<Event>): (r: Result<Table, ParseError>)
    ensures r.Ok? ==> r.value.order == Names(spec.fields) && r.value.columns.Keys == NameSet(spec)
    ensures r.Ok? ==> Aligned(r.value.columns)
  {
    match Run(spec, lib, Initial(spec), evs)
    case Ok(c) => Ok(Table(c.order, c.columns))
    case Err(x) => Err(x)
  }

  // ------------------------------------------------------------------ the promises of one event

  /** The first event must be the root's start tag; any other name or event kind raises. */
  lemma RootComesFirst(spec: Spec, lib: Library, c: Config, e: Event)
    requires Inv(spec, c) && c.state == StartRoot
    ensures Next(spec, lib, c, e).Ok? <==> e == StartElement(spec.root)
    ensures Next(spec, lib, c, e).Ok? ==> Next(spec, lib, c, e).value == c.(state := StartElementOrEndRoot)
  {
  }

  /** Between records: a record's start tag appends exactly one None to every column, the
      root's end tag finishes, another end tag leaves `self.parser` None, and any other start
      tag or any text raises. */
  lemma BetweenRecords(spec: Spec, lib: Library, c: Config, e: Event)
    requires Inv(spec, c) && c.state == StartElementOrEndRoot
    ensures e.StartElement? ==> (Next(spec, lib, c, e).Ok? <==> e.name == spec.element)
    ensures e == StartElement(spec.element) ==>
              var d := Next(spec, lib, c, e).value;
              && d.state == StartAttrOrEndElement && d.current == c.current
              && d.columns.Keys == c.columns.Keys
              && forall k :: k in c.columns ==> d.columns[k] == c.columns[k] + [Null]
    ensures e == EndElement(spec.root) ==> Next(spec, lib, c, e) == Ok(c.(state := Done))
    ensures e.EndElement? && e.name != spec.root ==> Next(spec, lib, c, e) == Ok(c.(state := Stopped))
    ensures e.Cdata? ==> Next(spec, lib, c, e) == Err(UnexpectedEvent(e))
  {
  }

  /** Between the fields of a record: a field's start tag opens it, the record's end tag
      closes the record; the start tag of anything but a field, any other end tag and any
      text (whitespace included) raise. */
  lemma BetweenFields(spec: Spec, lib: Library, c: Config, e: Event)
    requires Inv(spec, c) && c.state == StartAttrOrEndElement
    ensures e.StartElement? ==> (Next(spec, lib, c, e).Ok? <==> e.name in Names(spec.fields))
    ensures e.StartElement? && e.name !in Names(spec.fields) ==> Next(spec, lib, c, e) == Err(UnknownField(e.name))
    ensures e.StartElement? && e.name in Names(spec.fields) ==>
              Next(spec, lib, c, e) == Ok(c.(state := AttrCdataOrEndAttr, current := Some(e.name)))
    ensures e.EndElement? ==> (Next(spec, lib, c, e).Ok? <==> e.name == spec.element)
    ensures e == EndElement(spec.element) ==> Next(spec, lib, c, e) == Ok(c.(state := StartElementOrEndRoot))
    ensures e.Cdata? ==> Next(spec, lib, c, e) == Err(UnexpectedEvent(e))
  {
  }

  /** The text a cell holds so far: None counts as the empty text. */
  function TextOf(v: Value): (r: string) {
    if v.Str? then v.text else ""
  }

  /** Text inside a field is added to the end of its column's last cell, None counting as
      ""; no other cell changes. Text after a converted non-text value raises. */
  lemma TextAccumulates(spec: Spec, lib: Library, c: Config, t: string)
    requires Inv(spec, c) && c.state == AttrCdataOrEndAttr
    ensures var name := c.current.value;
            var col := c.columns[name];
            var r := Next(spec, lib, c, Cdata(t));
            && (r.Ok? <==> Last(col).Null? || Last(col).Str?)
            && (r.Err? ==> r.error == NotText(name, Last(col)))
            && (r.Ok? ==> && r.value.state == AttrCdataOrEndAttr && r.value.current == c.current
                          && r.value.columns.Keys == c.columns.Keys
                          && (forall k :: k in c.columns && k != name ==> r.value.columns[k] == c.columns[k])
                          && |r.value.columns[name]| == |col|
                          && r.value.columns[name][..|col| - 1] == col[..|col| - 1]
                          && Last(r.value.columns[name]) == Str(TextOf(Last(col)) + t))
  {
  }

  /** Two chunks of text delivered one after the other leave the same state as one chunk
      holding both (or raise the same exception). */
  lemma NextTwoChunks(spec: Spec, lib: Library, c: Config, a: string, b: string)
    requires Inv(spec, c) && c.state == AttrCdataOrEndAttr
    ensures match Next(spec, lib, c, Cdata(a))
            case Ok(d) => Next(spec, lib, d, Cdata(b)) == Next(spec, lib, c, Cdata(a + b))
            case Err(x) => Next(spec, lib, c, Cdata(a + b)) == Err(x)
  {
    var name := c.current.value;
    var col := c.columns[name];
    match Next(spec, lib, c, Cdata(a))
    case Ok(d) =>
      var text := Str(TextOf(Last(col)) + a + b);
      assert TextOf(Last(col)) + (a + b) == TextOf(Last(col)) + a + b;
      var once := WithLast(col, Str(TextOf(Last(col)) + a));
      if Last(col).Null? {
        assert TextOf(Last(col)) + a == a;
        assert TextOf(Last(col)) + (a + b) == a + b;
      }
      assert d == c.(columns := c.columns[name := once]);
      assert Last(once) == Str(TextOf(Last(col)) + a);
      assert Next(spec, lib, d, Cdata(b)) == Ok(d.(columns := d.columns[name := WithLast(once, text)]));
      assert Next(spec, lib, c, Cdata(a + b)) == Ok(c.(columns := c.columns[name := WithLast(col, text)]));
      assert WithLast(once, text) == WithLast(col, text);
      assert c.columns[name := once][name := WithLast(once, text)] == c.columns[name := WithLast(col, text)];
    case Err(x) =>
  }

  /** The texts of a field, delivered as separate character-data events. */
  function Chunks(texts: seq<string>): (r: seq<Event>)
    ensures |r| == |texts| && forall i :: 0 <= i < |texts| ==> r[i] == Cdata(texts[i])
  {
    seq(|texts|, i requires 0 <= i < |texts| => Cdata(texts[i]))
  }

  function Concat(texts: seq<string>): (r: string) {
    if texts == [] then "" else Concat(texts[..|texts| - 1]) + texts[|texts| - 1]
  }

  lemma RunOne(spec: Spec, lib: Library, c: Config, e: Event)
    requires Inv(spec, c)
    ensures Run(spec, lib, c, [e]) == Next(spec, lib, c, e)
  {
    assert [e][..0] == [];
  }

  /** However the tokenizer splits a field's text into chunks, the parser ends up as if the
      whole text had come in one chunk. */
  lemma {:induction false} ChunksConcatenate(spec: Spec, lib: Library, c: Config, texts: seq<string>)
    requires Inv(spec, c) && c.state == AttrCdataOrEndAttr && |texts| > 0
    ensures Run(spec, lib, c, Chunks(texts)) == Run(spec, lib, c, [Cdata(Concat(texts))])
  {
    var n := |texts|;
    var p := texts[..n - 1];
    RunOne(spec, lib, c, Cdata(Concat(texts)));
    assert Chunks(texts)[..n - 1] == Chunks(p);
    if n == 1 {
      assert Concat(texts) == Concat(p) + texts[0] == texts[0];
      assert Chunks(texts) == [Cdata(texts[0])];
    } else {
      ChunksConcatenate(spec, lib, c, p);
      RunOne(spec, lib, c, Cdata(Concat(p)));
      NextTwoChunks(spec, lib, c, Concat(p), texts[n - 1]);
    }
  }

  /** The open field's end tag replaces its column's last cell by the converted text (None
      when no text came) and closes the field; no other cell changes. If the converter
      raises, so does the parser. */
  lemma FieldEnds(spec: Spec, lib: Library, c: Config)
    requires Inv(spec, c) && c.state == AttrCdataOrEndAttr
    ensures var name := c.current.value;
            var col := c.columns[name];
            var converted := Convert(FieldNamed(spec.fields, name).value.xsd, Last(col), lib);
            var r := Next(spec, lib, c, EndElement(name));
            && (r.Ok? <==> converted.Some?)
            && (r.Err? ==> r.error == ConversionFailed(name, Last(col)))
            && (r.Ok? ==> && r.value.state == StartAttrOrEndElement && r.value.current == None
                          && r.value.columns.Keys == c.columns.Keys
                          && (forall k :: k in c.columns && k != name ==> r.value.columns[k] == c.columns[k])
                          && |r.value.columns[name]| == |col|
                          && r.value.columns[name][..|col| - 1] == col[..|col| - 1]
                          && Last(r.value.columns[name]) == converted.value)
            && (Last(col) == Null ==> r.Ok? && r.value.columns == c.columns)
  {
    var name := c.current.value;
    var col := c.columns[name];
    if Last(col) == Null {
      assert WithLast(col, Null) == col;
      assert c.columns[name := col] == c.columns;
    }
  }

  /** Inside a field, an end tag naming another element raises, and so does every start tag:
      fields do not nest. */
  lemma FieldsDoNotNest(spec: Spec, lib: Library, c: Config, e: Event)
    requires Inv(spec, c) && c.state == AttrCdataOrEndAttr
    ensures e.StartElement? ==> Next(spec, lib, c, e) == Err(ExpectedEnd(c.current.value, e))
    ensures e.EndElement? && e.name != c.current.value ==> Next(spec, lib, c, e) == Err(ExpectedEnd(c.current.value, e))
  {
  }

  // ------------------------------------------------------------------ the promises of a run

  lemma RunSnoc(spec: Spec, lib: Library, c: Config, evs: seq<Event>, e: Event)
    requires Inv(spec, c)
    ensures Run(spec, lib, c, evs + [e]) == match Run(spec, lib, c, evs)
                                           case Err(x) => Err(x)
                                           case Ok(d) => Next(spec, lib, d, e)
  {
    assert (evs + [e])[..|evs|] == evs;
  }

  /** Once a handler has raised, later events do not matter. */
  lemma {:induction false} RunErrorSticks(spec: Spec, lib: Library, c: Config, evs: seq<Event>, i: nat)
    requires Inv(spec, c) && i <= |evs| && Run(spec, lib, c, evs[..i]).Err?
    ensures Run(spec, lib, c, evs) == Run(spec, lib, c, evs[..i])
    decreases |evs|
  {
    if i < |evs| {
      var p := evs[..|evs| - 1];
      assert p[..i] == evs[..i];
      RunErrorSticks(spec, lib, c, p, i);
    } else {
      assert evs[..i] == evs;
    }
  }

  /** After the root's end tag every further event raises, and so it does once
      `self.parser` is None. */
  lemma {:induction false} NothingAfterTheEnd(spec: Spec, lib: Library, c: Config, evs: seq<Event>)
    requires Inv(spec, c) && (c.state == Done || c.state == Stopped) && |evs| > 0
    ensures Run(spec, lib, c, evs) == Err(if c.state == Done then TrailingEvent(evs[0]) else NotCallable(evs[0]))
  {
    RunOne(spec, lib, c, evs[0]);
    assert evs[..1] == [evs[0]];
    RunErrorSticks(spec, lib, c, evs, 1);
  }

  /** The number of records a run has started: the record start tags it met between
      records. */
  function RecordsStarted(spec: Spec, lib: Library, c: Config, evs: seq<Event>): (r: nat)
    requires Inv(spec, c)
    decreases |evs|
  {
    if evs == [] then 0
    else
      var p := evs[..|evs| - 1];
      RecordsStarted(spec, lib, c, p) +
      match Run(spec, lib, c, p)
      case Ok(d) => if d.state == StartElementOrEndRoot && evs[|evs| - 1] == StartElement(spec.element) then 1 else 0
      case Err(_) => 0
  }

  /** One event adds a cell to every column exactly when it starts a record. */
  lemma NextHeight(spec: Spec, lib: Library, c: Config, e: Event, h: nat)
    requires Inv(spec, c) && (forall k :: k in c.columns ==> |c.columns[k]| == h)
    requires Next(spec, lib, c, e).Ok?
    ensures var d := Next(spec, lib, c, e).value;
            forall k :: k in d.columns ==>
              |d.columns[k]| == h + if c.state == StartElementOrEndRoot && e == StartElement(spec.element) then 1 else 0
  {
    if c.state == AttrCdataOrEndAttr && e.Cdata? {
      TextAccumulates(spec, lib, c, e.text);
    } else if c.state == AttrCdataOrEndAttr && e.EndElement? {
      FieldEnds(spec, lib, c);
    }
  }

  /** Every column of a completed run is as long as the number of records started: the
      columns stay aligned. */
  lemma {:induction false} ColumnsCountRecords(spec: Spec, lib: Library, c: Config, evs: seq<Event>, h: nat)
    requires Inv(spec, c) && forall k :: k in c.columns ==> |c.columns[k]| == h
    requires Run(spec, lib, c, evs).Ok?
    ensures forall k :: k in Run(spec, lib, c, evs).value.columns ==>
              |Run(spec, lib, c, evs).value.columns[k]| == h + RecordsStarted(spec, lib, c, evs)
    decreases |evs|
  {
    if evs != [] {
      var p := evs[..|evs| - 1];
      ColumnsCountRecords(spec, lib, c, p, h);
      var m := Run(spec, lib, c, p).value;
      NextHeight(spec, lib, m, evs[|evs| - 1], h + RecordsStarted(spec, lib, c, p));
    }
  }

  /** A parse from the start: all columns have one cell per record started. */
  lemma ParsedColumnsAligned(spec: Spec, lib: Library, evs: seq<Event>)
    requires Run(spec, lib, Initial(spec), evs).Ok?
    ensures var cols := Run(spec, lib, Initial(spec), evs).value.columns;
            && cols.Keys == NameSet(spec)
            && forall k :: k in cols ==> |cols[k]| == RecordsStarted(spec, lib, Initial(spec), evs)
  {
    ColumnsCountRecords(spec, lib, Initial(spec), evs, 0);
  }

  /** The number of start tags named `name` among the events. */
  function CountStarts(evs: seq<Event>, name: string): (n: nat)
    ensures n <= |evs|
    ensures StartElement(name) !in evs ==> n == 0
    decreases |evs|
  {
    if evs == [] then 0
    else CountStarts(evs[..|evs| - 1], name) + if evs[|evs| - 1] == StartElement(name) then 1 else 0
  }

  /** When the record element is neither the root nor a field, only the state between
      records accepts its start tag. */
  lemma RecordTagBetweenRecords(spec: Spec, lib: Library, c: Config)
    requires Inv(spec, c) && spec.element != spec.root && spec.element !in Names(spec.fields)
    requires Next(spec, lib, c, StartElement(spec.element)).Ok?
    ensures c.state == StartElementOrEndRoot
  {
  }

  /** When the record element is neither the root nor a field, a run that raises nothing
      starts one record per start tag of the record element. */
  lemma {:induction false} RecordsAreStartTags(spec: Spec, lib: Library, c: Config, evs: seq<Event>)
    requires Inv(spec, c) && spec.element != spec.root && spec.element !in Names(spec.fields)
    requires Run(spec, lib, c, evs).Ok?
    ensures RecordsStarted(spec, lib, c, evs) == CountStarts(evs, spec.element)
    decreases |evs|
  {
    if evs != [] {
      var p := evs[..|evs| - 1];
      RecordsAreStartTags(spec, lib, c, p);
      var m := Run(spec, lib, c, p).value;
      if evs[|evs| - 1] == StartElement(spec.element) {
        RecordTagBetweenRecords(spec, lib, m);
      }
    }
  }

  /** After a parse from a new parser, every column holds one cell per start tag of the
      record element (when that element is neither the root nor a field). */
  lemma ColumnsCountStartTags(spec: Spec, lib: Library, evs: seq<Event>)
    requires spec.element != spec.root && spec.element !in Names(spec.fields)
    requires ParseEvents(spec, lib, evs).Ok?
    ensures var cols := ParseEvents(spec, lib, evs).value.columns;
            forall k :: k in cols ==> |cols[k]| == CountStarts(evs, spec.element)
  {
    ParsedColumnsAligned(spec, lib, evs);
    RecordsAreStartTags(spec, lib, Initial(spec), evs);
  }

  /** Every column of `before` is still in `after`, at least as long, and all its cells but
      the last are unchanged. */
  ghost predicate KeepsRows(before: Columns, after: Columns) {
    forall k :: k in before ==>
      && k in after && |before[k]| <= |after[k]|
      && (|before[k]| > 0 ==> after[k][..|before[k]| - 1] == before[k][..|before[k]| - 1])
  }

  lemma KeepsRowsTrans(a: Columns, b: Columns, c: Columns)
    requires KeepsRows(a, b) && KeepsRows(b, c)
    ensures KeepsRows(a, c)
  {
    forall k | k in a && |a[k]| > 0
      ensures c[k][..|a[k]| - 1] == a[k][..|a[k]| - 1]
    {
      PrefixesCompose(a[k], b[k], c[k]);
    }
  }

  /** Keeping all but the last cell is transitive. */
  lemma PrefixesCompose(x: seq<Value>, y: seq<Value>, z: seq<Value>)
    requires 0 < |x| <= |y| <= |z|
    requires y[..|x| - 1] == x[..|x| - 1] && z[..|y| - 1] == y[..|y| - 1]
    ensures z[..|x| - 1] == x[..|x| - 1]
  {
    assert z[..|y| - 1][..|x| - 1] == z[..|x| - 1];
    assert y[..|y| - 1][..|x| - 1] == y[..|x| - 1];
  }

  /** One event changes at most the last cell of each column, besides appending a row. */
  lemma NextKeepsRows(spec: Spec, lib: Library, c: Config, e: Event)
    requires Inv(spec, c) && Next(spec, lib, c, e).Ok?
    ensures KeepsRows(c.columns, Next(spec, lib, c, e).value.columns)
  {
    var d := Next(spec, lib, c, e).value;
    if c.state == StartElementOrEndRoot && e.StartElement? {
      forall k | k in c.columns && |c.columns[k]| > 0
        ensures d.columns[k][..|c.columns[k]| - 1] == c.columns[k][..|c.columns[k]| - 1]
      {
        assert d.columns[k] == c.columns[k] + [Null];
      }
    }
  }

  /** Rows before the current one are never touched again: a run changes at most the last
      cell of each column it started with, and appends. */
  lemma {:induction false} EarlierRowsKept(spec: Spec, lib: Library, c: Config, evs: seq<Event>)
    requires Inv(spec, c) && Run(spec, lib, c, evs).Ok?
    ensures KeepsRows(c.columns, Run(spec, lib, c, evs).value.columns)
  {
    if evs != [] {
      var p := evs[..|evs| - 1];
      EarlierRowsKept(spec, lib, c, p);
      var m := Run(spec, lib, c, p).value;
      assert Run(spec, lib, c, evs) == Next(spec, lib, m, evs[|evs| - 1]);
      NextKeepsRows(spec, lib, m, evs[|evs| - 1]);
      KeepsRowsTrans(c.columns, m.columns, Run(spec, lib, c, evs).value.columns);
    }
  }

  /** Column `k` is not the open field. */
  predicate NotOpen(c: Config, k: string) {
    c.state == AttrCdataOrEndAttr ==> c.current != Some(k)
  }

  /** An event other than its field's start tag leaves a column that is not open unopened,
      and at most appends None to it. */
  lemma NextLeavesColumn(spec: Spec, lib: Library, c: Config, e: Event, k: string)
    requires Inv(spec, c) && k in c.columns && NotOpen(c, k) && e != StartElement(k)
    requires Next(spec, lib, c, e).Ok?
    ensures var d := Next(spec, lib, c, e).value;
            NotOpen(d, k) && (d.columns[k] == c.columns[k] || d.columns[k] == c.columns[k] + [Null])
  {
    if c.state == AttrCdataOrEndAttr && e.Cdata? {
      TextAccumulates(spec, lib, c, e.text);
    } else if c.state == AttrCdataOrEndAttr && e.EndElement? {
      FieldEnds(spec, lib, c);
    }
  }

  /** A column whose field's start tag never comes is only ever extended with None. */
  lemma {:induction false} UnopenedColumnGrowsNull(spec: Spec, lib: Library, c: Config, evs: seq<Event>, k: string)
    requires Inv(spec, c) && k in c.columns && NotOpen(c, k)
    requires StartElement(k) !in evs
    requires Run(spec, lib, c, evs).Ok?
    ensures var d := Run(spec, lib, c, evs).value;
            && NotOpen(d, k)
            && |c.columns[k]| <= |d.columns[k]|
            && d.columns[k][..|c.columns[k]|] == c.columns[k]
            && forall i :: |c.columns[k]| <= i < |d.columns[k]| ==> d.columns[k][i] == Null
    decreases |evs|
  {
    if evs != [] {
      var p := evs[..|evs| - 1];
      var e := evs[|evs| - 1];
      assert StartElement(k) !in p by {
        forall i | 0 <= i < |p| ensures p[i] != StartElement(k) {
          assert p[i] == evs[i];
        }
      }
      UnopenedColumnGrowsNull(spec, lib, c, p, k);
      var m := Run(spec, lib, c, p).value;
      NextLeavesColumn(spec, lib, m, e, k);
      var d := Run(spec, lib, c, evs).value;
      var n := |c.columns[k]|;
      assert d.columns[k][..|m.columns[k]|] == m.columns[k];
      assert d.columns[k][..n] == m.columns[k][..|m.columns[k]|][..n];
    }
  }

  /** A field absent from a record leaves None in that record's cell of its column. */
  lemma AbsentFieldIsNull(spec: Spec, lib: Library, c: Config, body: seq<Event>, k: string)
    requires Inv(spec, c) && c.state == StartElementOrEndRoot && k in c.columns
    requires StartElement(k) !in body
    requires Run(spec, lib, c, [StartElement(spec.element)] + body).Ok?
    ensures var d := Run(spec, lib, c, [StartElement(spec.element)] + body).value;
            |c.columns[k]| < |d.columns[k]| && d.columns[k][|c.columns[k]|] == Null
  {
    var first := [StartElement(spec.element)];
    var c1 := Next(spec, lib, c, StartElement(spec.element)).value;
    RunSplit(spec, lib, c, first, body);
    RunOne(spec, lib, c, StartElement(spec.element));
    BetweenRecords(spec, lib, c, StartElement(spec.element));
    assert Run(spec, lib, c, first + body) == Run(spec, lib, c1, body);
    UnopenedColumnGrowsNull(spec, lib, c1, body, k);
    var d := Run(spec, lib, c1, body).value;
    var n := |c.columns[k]|;
    assert d.columns[k][..n + 1] == c.columns[k] + [Null];
    assert d.columns[k][n] == d.columns[k][..n + 1][n];
  }

  /** Every column of `before` is a prefix of the same column in `after`. */
  ghost predicate Extends(before: Columns, after: Columns) {
    forall k :: k in before ==>
      k in after && |before[k]| <= |after[k]| && after[k][..|before[k]|] == before[k]
  }

  /** Opening a row and then keeping every row but the last keeps all the rows that were there before. */
  lemma OpenedRowKept(before: Columns, grown: Columns, after: Columns)
    requires forall k :: k in before ==> k in grown && grown[k] == before[k] + [Null]
    requires KeepsRows(grown, after)
    ensures Extends(before, after)
  {
    forall k | k in before
      ensures k in after && |before[k]| <= |after[k]| && after[k][..|before[k]|] == before[k]
    {
      assert grown[k][..|grown[k]| - 1] == before[k];
    }
  }

  /** Between records, every cell is final: whatever the rest of a successful run does, the
      columns as they stand are kept as prefixes. */
  lemma ClosedRowsKept(spec: Spec, lib: Library, c: Config, rest: seq<Event>)
    requires Inv(spec, c) && c.state == StartElementOrEndRoot
    requires Run(spec, lib, c, rest).Ok?
    ensures Extends(c.columns, Run(spec, lib, c, rest).value.columns)
  {
    if rest != [] {
      var e, tail := rest[0], rest[1..];
      assert rest == [e] + tail;
      RunSplit(spec, lib, c, [e], tail);
      RunOne(spec, lib, c, e);
      BetweenRecords(spec, lib, c, e);
      var c1 := Next(spec, lib, c, e).value;
      assert Run(spec, lib, c, rest) == Run(spec, lib, c1, tail);
      var d := Run(spec, lib, c1, tail).value;
      if e.StartElement? {
        EarlierRowsKept(spec, lib, c1, tail);
        OpenedRowKept(c.columns, c1.columns, d.columns);
      } else if tail != [] {
        NothingAfterTheEnd(spec, lib, c1, tail);
      }
    }
  }

  /** A field absent from a record leaves None in that record's cell of the final columns,
      whatever later records hold, once the record has been closed. */
  lemma AbsentFieldIsNullInTable(spec: Spec, lib: Library, c: Config, body: seq<Event>, rest: seq<Event>, k: string)
    requires Inv(spec, c) && c.state == StartElementOrEndRoot && k in c.columns
    requires StartElement(k) !in body
    requires Run(spec, lib, c, [StartElement(spec.element)] + body).Ok?
    requires Run(spec, lib, c, [StartElement(spec.element)] + body).value.state == StartElementOrEndRoot
    requires Run(spec, lib, c, [StartElement(spec.element)] + body + rest).Ok?
    ensures var d := Run(spec, lib, c, [StartElement(spec.element)] + body + rest).value;
            |c.columns[k]| < |d.columns[k]| && d.columns[k][|c.columns[k]|] == Null
  {
    var record := [StartElement(spec.element)] + body;
    AbsentFieldIsNull(spec, lib, c, body, k);
    var m := Run(spec, lib, c, record).value;
    RunSplit(spec, lib, c, record, rest);
    ClosedRowsKept(spec, lib, m, rest);
    var d := Run(spec, lib, c, record + rest).value;
    var n := |c.columns[k]|;
    assert d.columns[k][..|m.columns[k]|] == m.columns[k];
    assert d.columns[k][n] == d.columns[k][..|m.columns[k]|][n];
  }

  /** The same for a whole parse: in the returned table, the row of a record in which a
      field never starts holds None for that field. The row's index is the number of records
      started before it. */
  lemma AbsentFieldIsNullParsed(spec: Spec, lib: Library, before: seq<Event>, body: seq<Event>,
                                rest: seq<Event>, k: string)
    requires k in Names(spec.fields) && StartElement(k) !in body
    requires Run(spec, lib, Initial(spec), before).Ok?
    requires Run(spec, lib, Initial(spec), before).value.state == StartElementOrEndRoot
    requires Run(spec, lib, Run(spec, lib, Initial(spec), before).value, [StartElement(spec.element)] + body).Ok?
    requires Run(spec, lib, Run(spec, lib, Initial(spec), before).value,
                 [StartElement(spec.element)] + body).value.state == StartElementOrEndRoot
    requires ParseEvents(spec, lib, before + ([StartElement(spec.element)] + body + rest)).Ok?
    ensures var cols := ParseEvents(spec, lib, before + ([StartElement(spec.element)] + body + rest)).value.columns;
            var row := RecordsStarted(spec, lib, Initial(spec), before);
            k in cols && row < |cols[k]| && cols[k][row] == Null
  {
    var c := Run(spec, lib, Initial(spec), before).value;
    var after := [StartElement(spec.element)] + body + rest;
    RunSplit(spec, lib, Initial(spec), before, after);
    ColumnsCountRecords(spec, lib, Initial(spec), before, 0);
    AbsentFieldIsNullInTable(spec, lib, c, body, rest, k);
  }

  /** Running two sequences of events one after the other is running their concatenation. */
  lemma {:induction false} RunSplit(spec: Spec, lib: Library, c: Config, a: seq<Event>, b: seq<Event>)
    requires Inv(spec, c)
    ensures Run(spec, lib, c, a + b) == match Run(spec, lib, c, a)
                                        case Err(x) => Err(x)
                                        case Ok(d) => Run(spec, lib, d, b)
    decreases |b|
  {
    if b == [] {
      assert a + b == a;
    } else {
      var q := b[..|b| - 1];
      assert (a + b)[..|a + b| - 1] == a + q;
      RunSplit(spec, lib, c, a, q);
    }
  }

  // ------------------------------------------------------------------ the parser object

  /** `Parser`: the state of `Next` held in fields and updated in place by the handlers. The
      handler to call next (`self.parser`) is `state`; `spec` and the converters are fixed at
      construction. */
  class Parser {
    const spec: Spec
    const lib: Library
    const order: seq<string>
    var columns: Columns
    var current: Option<string>
    var state: State

    function Snapshot(): Config
      reads this
    {
      Config(state, order, columns, current)
    }

    ghost predicate Valid()
      reads this
    {
      Inv(spec, Snapshot())
    }

    /** What a handler did, measured against `Next` from state `c0`: on success the columns
        and the open field are those of `Next`'s result and the returned handler is its
        state; on an exception nothing changed. */
    ghost predicate Handled(c0: Config, e: Event, next: Result<State, ParseError>)
      requires Inv(spec, c0)
      reads this
    {
      match Next(spec, lib, c0, e)
      case Ok(d) => next == Ok(d.state) && columns == d.columns && current == d.current
      case Err(x) => next == Err(x) && columns == c0.columns && current == c0.current
    }

    /** `Parser.__init__`: one empty column per field, no field open; the first handler
        is `start_root`. */
    constructor (spec: Spec, lib: Library)
      ensures this.spec == spec && this.lib == lib
      ensures Valid() && Snapshot() == Initial(spec)
    {
      this.spec := spec;
      this.lib := lib;
      order := Names(spec.fields);
      columns := EmptyColumns(Names(spec.fields));
      current := None;
      state := StartRoot;
    }

    /** `start_root`. */
    method HandleStartRoot(e: Event) returns (next: Result<State, ParseError>)
      requires Valid() && state == StartRoot
      modifies this
      ensures state == old(state) && Handled(old(Snapshot()), e, next)
    {
      if e.StartElement? && e.name == spec.root {
        next := Ok(StartElementOrEndRoot);
      } else {
        next := Err(ExpectedStart(spec.root, e));
      }
    }

    /** The loop of `start_element_or_end_root` that appends None to every column. */
    method AppendEmptyRow()
      modifies this
      ensures columns == AddRow(old(columns))
      ensures state == old(state) && current == old(current)
    {
      var pending := columns.Keys;
      ghost var before := columns;
      while pending != {}
        invariant pending <= before.Keys && columns.Keys == before.Keys
        invariant forall k :: k in before ==> columns[k] == before[k] + (if k in pending then [] else [Null])
        invariant state == old(state) && current == old(current)
        decreases pending
      {
        var k :| k in pending;
        columns := columns[k := columns[k] + [Null]];
        pending := pending - {k};
      }
    }

    /** `start_element_or_end_root`. */
    method HandleStartElementOrEndRoot(e: Event) returns (next: Result<State, ParseError>)
      requires Valid() && state == StartElementOrEndRoot
      modifies this
      ensures state == old(state) && Handled(old(Snapshot()), e, next)
    {
      match e
      case StartElement(n) =>
        if n == spec.element {
          AppendEmptyRow();
          next := Ok(StartAttrOrEndElement);
        } else {
          next := Err(ExpectedStart(spec.element, e));
        }
      case EndElement(n) =>
        next := Ok(if n == spec.root then Done else Stopped);
      case Cdata(_) =>
        next := Err(UnexpectedEvent(e));
    }

    /** `start_attr_or_end_element`. */
    method HandleStartAttrOrEndElement(e: Event) returns (next: Result<State, ParseError>)
      requires Valid() && state == StartAttrOrEndElement
      modifies this
      ensures state == old(state) && Handled(old(Snapshot()), e, next)
    {
      match e
      case StartElement(n) =>
        if n in columns {
          current := Some(n);
          next := Ok(AttrCdataOrEndAttr);
        } else {
          next := Err(UnknownField(n));
        }
      case EndElement(n) =>
        if n == spec.element {
          next := Ok(StartElementOrEndRoot);
        } else {
          next := Err(ExpectedEnd(spec.element, e));
        }
      case Cdata(_) =>
        next := Err(UnexpectedEvent(e));
    }

    /** `attr_cdata_or_end_attr`. */
    method HandleAttrCdataOrEndAttr(e: Event) returns (next: Result<State, ParseError>)
      requires Valid() && state == AttrCdataOrEndAttr
      modifies this
      ensures state == old(state) && Handled(old(Snapshot()), e, next)
    {
      var name := current.value;
      var col := columns[name];
      var cell := col[|col| - 1];
      match e
      case Cdata(t) =>
        if cell.Null? || cell.Str? {
          var text := if cell.Null? then "" else cell.text;
          columns := columns[name := col[..|col| - 1] + [Str(text + t)]];
          next := Ok(AttrCdataOrEndAttr);
          assert text + t == t || cell.Str?;
        } else {
          next := Err(NotText(name, cell));
        }
      case EndElement(n) =>
        if n == name {
          var converted := Convert(FieldNamed(spec.fields, name).value.xsd, cell, lib);
          if converted.Some? {
            columns := columns[name := col[..|col| - 1] + [converted.value]];
            current := None;
            next := Ok(StartAttrOrEndElement);
          } else {
            next := Err(ConversionFailed(name, cell));
          }
        } else {
          next := Err(ExpectedEnd(name, e));
        }
      case StartElement(_) =>
        next := Err(ExpectedEnd(name, e));
    }

    /** One tokenizer callback: `self.parser = self.parser(event, data)`. An exception
        leaves the parser as it was; `done` raises on every event, and so does calling the
        None left by a stray end tag. */
    method Feed(e: Event) returns (err: Option<ParseError>)
      requires Valid()
      modifies this
      ensures Valid()
      ensures match Next(spec, lib, old(Snapshot()), e)
              case Ok(d) => err == None && Snapshot() == d
              case Err(x) => err == Some(x) && Snapshot() == old(Snapshot())
    {
      var next: Result<State, ParseError>;
      match state {
        case StartRoot =>
          next := HandleStartRoot(e);
        case StartElementOrEndRoot =>
          next := HandleStartElementOrEndRoot(e);
        case StartAttrOrEndElement =>
          next := HandleStartAttrOrEndElement(e);
        case AttrCdataOrEndAttr =>
          next := HandleAttrCdataOrEndAttr(e);
        case Done =>
          next := Err(TrailingEvent(e));
        case Stopped =>
          next := Err(NotCallable(e));
      }
      match next {
        case Ok(s) =>
          state := s;
          err := None;
        case Err(x) =>
          err := Some(x);
      }
    }

    /** `parse`: start over at `start_root` (the columns are kept) and feed the events in
        order. The columns are returned whatever state the last event left; the first
        exception ends the parse, with the parser left as it was before that event. */
    method Parse(events: seq<Event>) returns (r: Result<Table, ParseError>)
      requires Valid()
      modifies this
      ensures Valid()
      ensures var start := old(Snapshot()).(state := StartRoot);
              match Run(spec, lib, start, events)
              case Ok(d) => r == Ok(Table(d.order, d.columns)) && Snapshot() == d
              case Err(x) => r == Err(x) &&
                             exists i :: 0 <= i < |events| && Run(spec, lib, start, events[..i]) == Ok(Snapshot())
                                                          && Next(spec, lib, Snapshot(), events[i]) == Err(x)
    {
      state := StartRoot;
      ghost var start := Snapshot();
      var i := 0;
      while i < |events|
        invariant 0 <= i <= |events| && Valid()
        invariant Run(spec, lib, start, events[..i]) == Ok(Snapshot())
      {
        var err := Feed(events[i]);
        RunSnoc(spec, lib, start, events[..i], events[i]);
        assert events[..i] + [events[i]] == events[..i + 1];
        if err.Some? {
          RunErrorSticks(spec, lib, start, events, i + 1);
          r := Err(err.value);
          return;
        }
        i := i + 1;
      }
      assert events[..i] == events;
      r := Ok(Table(order, columns));
    }
  }

  /** A fresh parser over a spec returns what `ParseEvents` says. */
  method ParseWithNewParser(spec: Spec, lib: Library, events: seq<Event>) returns (r: Result<Table, ParseError>)
    ensures r == ParseEvents(spec, lib, events)
  {
    var p := new Parser(spec, lib);
    r := p.Parse(events);
  }
}
