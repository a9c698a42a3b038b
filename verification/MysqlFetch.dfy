/** MysqlFetch.m: the bindings of a query, the loop over its rows, and the memory they need. */
module MysqlFetch {
  import opened Arithmetic
  import opened CHeap
  import opened ByteOrder
  import opened SqlText
  import opened StatementText
  import opened MysqlStmt

  /** What a row's dictionary holds; decimals and floating-point numbers by the bytes they are made from. */
  datatype Object = NullObject | DataObject(bytes: Bytes) | StringObject(s: string) | NumberObject(n: int)
                  | DecimalObject(text: Bytes) | FloatObject(bits: Bytes) | DateObject(date: int)

  /** What becomes of a column: an object under its key, nothing, or the exception for a nil object. */
  datatype Entry = Put(o: Object) | Skip | Raise

  type Dictionary = map<string, Object>

  datatype Answers = AllWell | PrepareFails | BindFails | ExecuteFails

  datatype Reason = NotConnected | NoBinding | NilObject | FetchFails | Library(answers: Answers)

  /** `Undefined` stands for a write outside a block, after which C promises nothing. */
  datatype Outcome = Raised(reason: Reason) | Done(fieldNames: seq<string>, results: seq<Dictionary>) | Undefined

  /** The switch of the binding phase: the buffer's type and length. */
  function Binds(m: Machine, f: Field): Option<(FieldType, nat)> {
    match f.fieldType
    case LongLong => Some((f.fieldType, 8))
    case Long => Some((f.fieldType, m.longSize))
    case String => Some((f.fieldType, f.width))
    case VarString => Some((f.fieldType, f.width))
    case Blob => Some((f.fieldType, m.blobSize))
    case Tiny => Some((f.fieldType, 1))
    case NewDecimal => Some((String, f.width))
    case Timestamp => Some((String, f.width))
    case Float => Some((Float, f.width))
    case Double => Some((Double, f.width))
    case DateTime => Some((DateTime, m.timeSize))
    case _ => None
  }

  predicate AllBind(m: Machine, fields: seq<Field>) {
    forall x | 0 <= x < |fields| :: Binds(m, fields[x]).Some?
  }

  /** The types that the switch of the row loop supports. */
  predicate Supported(t: FieldType) {
    !t.OtherType?
  }

  /** A text that is not UTF-8 is a nil string, and one that is no date a nil date; a nil object raises. A
      DATETIME of no date is left out. */
  function EntryOf(m: Machine, f: Field, c: Cell): Entry
    requires Sane(m) && Supported(f.fieldType) && Fits(m, f, c)
  {
    if c.None? then Put(NullObject)
    else
      var d := c.value;
      match f.fieldType
      case String => StringEntry(d)
      case VarString => StringEntry(d)
      case LongLong => Put(NumberObject(Signed(8, FromLittle(d, 0, 8))))
      case Long => Put(NumberObject(Signed(m.longSize, FromLittle(Overwrite(Zeros(m.longSize), d), 0, m.longSize))))
      case Tiny => Put(NumberObject(CharValue(m, d)))
      case NewDecimal => Put(DecimalObject(d))
      case Timestamp => TimestampEntry(m, d)
      case Float => Put(FloatObject(d))
      case Double => Put(FloatObject(d))
      case DateTime => DateTimeEntry(m, d)
      case _ => Put(DataObject(d))
  }

  function StringEntry(d: Bytes): Entry {
    var s := Decode(d);
    if s.Some? then Put(StringObject(s.value)) else Raise
  }

  function TimestampEntry(m: Machine, d: Bytes): Entry {
    var s := Decode(d);
    var date := if s.Some? then m.calendar.parse(s.value) else None;
    if date.Some? then Put(DateObject(date.value)) else Raise
  }

  function DateTimeEntry(m: Machine, d: Bytes): Entry {
    var date := m.calendar.fromParts(d);
    if date.Some? then Put(DateObject(date.value)) else Skip
  }

  function CharValue(m: Machine, d: Bytes): int
    requires |d| == 1
  {
    var u := FromLittle(d, 0, 1);
    if m.charSigned then Signed(1, u) else u
  }

  /** A text cell decodes, and a timestamp is a date. */
  predicate CellReads(m: Machine, f: Field, c: Cell) {
    c.Some? ==>
      match f.fieldType
      case String => Decode(c.value).Some?
      case VarString => Decode(c.value).Some?
      case Timestamp => Decode(c.value).Some? && m.calendar.parse(Decode(c.value).value).Some?
      case _ => true
  }

  predicate RowReads(m: Machine, fields: seq<Field>, row: seq<Cell>) {
    |row| == |fields| && forall x | 0 <= x < |row| :: CellReads(m, fields[x], row[x])
  }

  predicate AllRead(m: Machine, fields: seq<Field>, rows: seq<seq<Cell>>) {
    forall i | 0 <= i < |rows| :: RowReads(m, fields, rows[i])
  }

  /** The buffer that the switch allocates is no smaller than the value the library writes to it: FLOAT and
      DOUBLE columns get as many bytes as their width has characters. */
  predicate HasRoom(f: Field, c: Cell) {
    c.Some? && (f.fieldType == Float || f.fieldType == Double) ==> |c.value| <= f.width
  }

  predicate RowHasRoom(fields: seq<Field>, row: seq<Cell>) {
    |row| == |fields| && forall x | 0 <= x < |row| :: HasRoom(fields[x], row[x])
  }

  predicate AllHaveRoom(fields: seq<Field>, rows: seq<seq<Cell>>) {
    forall i | 0 <= i < |rows| :: RowHasRoom(fields, rows[i])
  }

  datatype End = Complete | RowRaises | RowOverruns

  /** How the row loop ends: the first row that is not read whole decides. */
  function RowsEnd(m: Machine, fields: seq<Field>, rows: seq<seq<Cell>>): End {
    if rows == [] then Complete
    else if !RowHasRoom(fields, rows[0]) then RowOverruns
    else if !RowReads(m, fields, rows[0]) then RowRaises
    else RowsEnd(m, fields, rows[1..])
  }

  lemma {:induction false} CompleteIff(m: Machine, fields: seq<Field>, rows: seq<seq<Cell>>)
    ensures RowsEnd(m, fields, rows) == Complete <==> AllRead(m, fields, rows) && AllHaveRoom(fields, rows)
  {
    if rows != [] {
      CompleteIff(m, fields, rows[1..]);
      assert rows == [rows[0]] + rows[1..];
    }
  }

  function SourceTables(fields: seq<Field>): set<string> {
    set x | 0 <= x < |fields| :: fields[x].table
  }

  /** Names are extended of their own accord exactly when two columns come from different tables. */
  lemma ManyTablesIff(fields: seq<Field>)
    ensures |SourceTables(fields)| > 1 <==>
            exists x, y :: 0 <= x < |fields| && 0 <= y < |fields| && fields[x].table != fields[y].table
  {
    var s := SourceTables(fields);
    if x, y :| 0 <= x < |fields| && 0 <= y < |fields| && fields[x].table != fields[y].table {
      TwoMembers(s, fields[x].table, fields[y].table);
    } else if s != {} {
      var t :| t in s;
      assert s == {t};
    }
  }

  lemma TwoMembers<T>(s: set<T>, a: T, b: T)
    requires a in s && b in s && a != b
    ensures |s| > 1
  {
    assert s == {a} + (s - {a}) && b in s - {a};
  }

  /** The table comes first. */
  lemma TableThenName(w: nat)
    ensures KeyOf(Field("users", "id", Long, w), true) == "users.id"
    ensures KeyOf(Field("users", "id", Long, w), false) == "id"
  {
  }

  function KeyOf(f: Field, long: bool): (k: string)
    ensures !long ==> k == f.name
    ensures long ==> |k| == |f.table| + 1 + |f.name| && k[..|f.table|] == f.table
                     && k[|f.table|] == '.' && k[|f.table| + 1..] == f.name
  {
    if long then f.table + "." + f.name else f.name
  }

  function Entries(m: Machine, fields: seq<Field>, row: seq<Cell>): (es: seq<Entry>)
    requires Sane(m) && AllBind(m, fields) && RowFits(m, fields, row)
    ensures |es| == |fields|
  {
    FirstEntries(m, fields, row, |fields|)
  }

  function FirstEntries(m: Machine, fields: seq<Field>, row: seq<Cell>, n: nat): (es: seq<Entry>)
    requires Sane(m) && AllBind(m, fields) && RowFits(m, fields, row) && n <= |fields|
    ensures |es| == n
  {
    if n == 0 then [] else FirstEntries(m, fields, row, n - 1) + [EntryOf(m, fields[n - 1], row[n - 1])]
  }

  lemma EntriesAt(m: Machine, fields: seq<Field>, row: seq<Cell>, x: nat)
    requires Sane(m) && AllBind(m, fields) && RowFits(m, fields, row) && x < |fields|
    ensures Binds(m, fields[x]).Some? && Entries(m, fields, row)[x] == EntryOf(m, fields[x], row[x])
    ensures Entries(m, fields, row)[x].Raise? <==> !CellReads(m, fields[x], row[x])
  {
    FirstEntriesAt(m, fields, row, |fields|, x);
  }

  lemma {:induction false} FirstEntriesAt(m: Machine, fields: seq<Field>, row: seq<Cell>, n: nat, x: nat)
    requires Sane(m) && AllBind(m, fields) && RowFits(m, fields, row) && x < n <= |fields|
    ensures Binds(m, fields[x]).Some? && FirstEntries(m, fields, row, n)[x] == EntryOf(m, fields[x], row[x])
  {
    if x < n - 1 { FirstEntriesAt(m, fields, row, n - 1, x); }
  }

  predicate NoRaise(es: seq<Entry>, n: nat)
    requires n <= |es|
  {
    forall x | 0 <= x < n :: !es[x].Raise?
  }

  lemma RowReadsIff(m: Machine, fields: seq<Field>, row: seq<Cell>)
    requires Sane(m) && AllBind(m, fields) && RowFits(m, fields, row)
    ensures RowReads(m, fields, row) <==> NoRaise(Entries(m, fields, row), |fields|)
  {
    forall x | 0 <= x < |fields| ensures Entries(m, fields, row)[x].Raise? <==> !CellReads(m, fields[x], row[x]) {
      EntriesAt(m, fields, row, x);
    }
  }

  /** A row's dictionary after its first `n` columns: a later column takes the place of an earlier one of its name. */
  function RowOf(fields: seq<Field>, entries: seq<Entry>, long: bool, n: nat): Dictionary
    requires n <= |fields| == |entries|
  {
    if n == 0 then map[]
    else
      var d := RowOf(fields, entries, long, n - 1);
      if entries[n - 1].Put? then d[KeyOf(fields[n - 1], long) := entries[n - 1].o] else d
  }

  function RowsOf(m: Machine, fields: seq<Field>, rows: seq<seq<Cell>>, long: bool): (ds: seq<Dictionary>)
    requires Sane(m) && AllBind(m, fields) && RowsFit(m, fields, rows)
    ensures |ds| == |rows|
  {
    seq(|rows|, i requires 0 <= i < |rows| && RowFits(m, fields, rows[i]) =>
          RowOf(fields, Entries(m, fields, rows[i]), long, |fields|))
  }

  /** The i-th dictionary is that of the i-th row. */
  lemma RowsOfAt(m: Machine, fields: seq<Field>, rows: seq<seq<Cell>>, long: bool, i: nat)
    requires Sane(m) && AllBind(m, fields) && RowsFit(m, fields, rows) && i < |rows|
    ensures RowFits(m, fields, rows[i])
    ensures RowsOf(m, fields, rows, long)[i] == RowOf(fields, Entries(m, fields, rows[i]), long, |fields|)
  {
  }

  lemma RowsGrow(m: Machine, fields: seq<Field>, rows: seq<seq<Cell>>, long: bool, k: nat)
    requires Sane(m) && AllBind(m, fields) && RowsFit(m, fields, rows) && k < |rows|
    ensures RowsFit(m, fields, rows[..k]) && RowsFit(m, fields, rows[..k + 1])
    ensures RowFits(m, fields, rows[k]) && rows[k..][0] == rows[k] && rows[k..][1..] == rows[k + 1..]
    ensures RowsOf(m, fields, rows[..k + 1], long) ==
            RowsOf(m, fields, rows[..k], long) + [RowOf(fields, Entries(m, fields, rows[k]), long, |fields|)]
  {
  }

  /** A binding is as the switch made it. */
  predicate Agrees(m: Machine, f: Field, b: Bound) {
    Binds(m, f).Some? ==> Binds(m, f).value == (b.bufferType, b.bufferLength)
  }

  ghost predicate Bindings(m: Machine, fields: seq<Field>, bs: seq<Bound>, lo: nat) {
    |bs| <= |fields| && Laid(bs, lo) && forall x | 0 <= x < |bs| :: Agrees(m, fields[x], bs[x])
  }

  /** Besides the blocks of `was`, unchanged, those from `lo` up to `hi` are live. */
  ghost predicate Allocated(was: map<nat, Bytes>, now: map<nat, Bytes>, lo: nat, hi: nat) {
    && (forall p: nat :: p in now <==> p in was || lo <= p < hi)
    && (forall p | p in was && !(lo <= p < hi) :: now[p] == was[p])
  }

  // ---- The binding phase

  /** The cases of the switch. */
  method BufferFor(m: Machine, f: Field) returns (r: Option<(FieldType, nat)>)
    ensures r == Binds(m, f)
  {
    match f.fieldType {
      case LongLong => r := Some((f.fieldType, 8));
      case Long => r := Some((f.fieldType, m.longSize));
      case String | VarString => r := Some((f.fieldType, f.width));
      case Blob => r := Some((f.fieldType, m.blobSize));
      case Tiny => r := Some((f.fieldType, 1));
      case NewDecimal | Timestamp => r := Some((String, f.width));
      case Float => r := Some((Float, f.width));
      case Double => r := Some((Double, f.width));
      case DateTime => r := Some((DateTime, m.timeSize));
      case _ => r := None;
    }
  }

  method BindField(m: Machine, f: Field, heap: Heap) returns (r: Option<Bound>)
    requires Sane(m) && heap.Valid()
    modifies heap
    ensures heap.Valid() && (r.Some? <==> Binds(m, f).Some?)
    ensures r.Some? ==> LaidAt(r.value, old(heap.next)) && Agrees(m, f, r.value) && Ready(m, heap.blocks, f, r.value)
    ensures r.Some? ==> heap.next == old(heap.next) + 4
    ensures r.Some? ==> Allocated(old(heap.blocks), heap.blocks, old(heap.next), heap.next)
    ensures r.None? ==> heap.blocks == old(heap.blocks) && heap.next == old(heap.next)
  {
    var buffers := BufferFor(m, f);
    if buffers.None? {
      return None;
    }
    var (t, size) := buffers.value;
    var buffer := heap.Calloc(1, size);
    var length := heap.Calloc(1, m.longSize);
    var error := heap.Calloc(1, 1);
    var isNull := heap.Calloc(1, 1);
    return Some(Bound(t, size, buffer, length, error, isNull));
  }

  /** What is allocated for one field leaves the bindings before it ready. */
  lemma StillReady(m: Machine, was: map<nat, Bytes>, now: map<nat, Bytes>, fields: seq<Field>, bs: seq<Bound>,
                   lo: nat, hi: nat)
    requires |bs| == |fields| && Laid(bs, lo) && lo + 4 * |bs| <= hi
    requires AllReady(m, was, fields, bs) && Allocated(was, now, hi, hi + 4)
    ensures AllReady(m, now, fields, bs)
  {
    forall x | 0 <= x < |bs| ensures Ready(m, now, fields[x], bs[x]) {
      assert Ready(m, was, fields[x], bs[x]) && LaidAt(bs[x], lo + 4 * x);
    }
  }

  method BindFields(m: Machine, fields: seq<Field>, bindings: array<Bound>, heap: Heap) returns (ok: bool)
    requires Sane(m) && heap.Valid() && bindings.Length == |fields|
    modifies heap, bindings
    ensures heap.Valid() && (ok <==> AllBind(m, fields))
    ensures ok ==> Bindings(m, fields, bindings[..], old(heap.next)) && AllReady(m, heap.blocks, fields, bindings[..])
    ensures ok ==> heap.next == old(heap.next) + 4 * |fields|
    ensures ok ==> Allocated(old(heap.blocks), heap.blocks, old(heap.next), heap.next)
  {
    ghost var lo := heap.next;
    for x := 0 to |fields|
      invariant heap.Valid() && heap.next == lo + 4 * x
      invariant AllBind(m, fields[..x]) && Bindings(m, fields, bindings[..x], lo)
      invariant AllReady(m, heap.blocks, fields[..x], bindings[..x])
      invariant Allocated(old(heap.blocks), heap.blocks, lo, heap.next)
    {
      ghost var before := heap.blocks;
      var b := BindField(m, fields[x], heap);
      if b.None? {
        return false;
      }
      StillReady(m, before, heap.blocks, fields[..x], bindings[..x], lo, lo + 4 * x);
      ghost var done := bindings[..x];
      bindings[x] := b.value;
      assert bindings[..x + 1] == done + [b.value];
    }
    assert bindings[..] == bindings[..|fields|] && fields[..|fields|] == fields;
    return true;
  }

  // ---- A row

  /** A cell as data: what was cut is fetched again into a buffer of its size, and the binding is put back. */
  method ReadBlob(m: Machine, stmt: Statement, heap: Heap, bindings: array<Bound>, x: nat, truncated: bool,
                  ghost f: Field, ghost p: nat) returns (d: Bytes)
    requires heap.Valid() && x < bindings.Length && x < |stmt.current| && stmt.current[x].Some?
    requires LaidAt(bindings[x], p) && Ready(m, heap.blocks, f, bindings[x]) && Fits(m, f, stmt.current[x])
    requires f.fieldType != Long && Holds(m, heap.blocks, bindings[x], stmt.current[x])
    requires Cut(bindings[x], stmt.current[x]) ==> truncated
    modifies heap, bindings
    ensures bindings[..] == old(bindings[..])
    ensures heap.Valid() && heap.next >= old(heap.next) && Ready(m, heap.blocks, f, bindings[x])
    ensures Changed(old(heap.blocks), heap.blocks, p, p + 4)
    ensures d == stmt.current[x].value
  {
    ghost var b, was := bindings[x], heap.blocks;
    LengthIsRight(m, heap.blocks, bindings[x], f, stmt.current[x]);
    if truncated && heap.blocks[bindings[x].error] != [0] {
      var previousBuffer := bindings[x].buffer;
      var previousBufferSize := bindings[x].bufferLength;
      bindings[x] := bindings[x].(bufferLength := LengthAt(m, heap.blocks, bindings[x]));
      var buffer := heap.Calloc(1, bindings[x].bufferLength);
      bindings[x] := bindings[x].(buffer := buffer);
      stmt.FetchColumn(m, heap, bindings[x], x);
      Refetched(m, was, f, b, buffer, stmt.current[x], p);
      d := heap.blocks[bindings[x].buffer][..LengthAt(m, heap.blocks, bindings[x])];
      heap.Free(bindings[x].buffer);
      bindings[x] := bindings[x].(bufferLength := previousBufferSize);
      bindings[x] := bindings[x].(buffer := previousBuffer);
    } else {
      d := heap.blocks[bindings[x].buffer][..LengthAt(m, heap.blocks, bindings[x])];
    }
  }

  /** A column delivered whole through a new buffer: what is found there, and what is left when it is freed. */
  lemma Refetched(m: Machine, was: map<nat, Bytes>, f: Field, b: Bound, buffer: nat, c: Cell, p: nat)
    requires LaidAt(b, p) && Ready(m, was, f, b) && Holds(m, was, b, c) && Fits(m, f, c) && c.Some?
    requires buffer !in was && f.fieldType != Long
    ensures var b' := b.(bufferLength := |c.value|, buffer := buffer);
            var fresh' := was[buffer := Zeros(|c.value|)];
            && Live(m, fresh', b')
            && var now := Stored(m, fresh', b', c);
               && Live(m, now, b') && LengthAt(m, now, b') == |c.value| && now[buffer] == c.value
               && Ready(m, now - {buffer}, f, b) && Changed(was, now - {buffer}, p, p + 4)
  {
    var b' := b.(bufferLength := |c.value|, buffer := buffer);
    var fresh' := was[buffer := Zeros(|c.value|)];
    StoredHolds(m, fresh', b', c);
    LengthIsRight(m, Stored(m, fresh', b', c), b', f, c);
  }

  /** `blocks` holds a cell, and it can be read without leaving its buffer. */
  lemma CellIsRead(m: Machine, blocks: map<nat, Bytes>, f: Field, b: Bound, c: Cell)
    requires Sane(m) && Agrees(m, f, b)
    requires Ready(m, blocks, f, b) && Holds(m, blocks, b, c) && Fits(m, f, c) && c.Some?
    ensures LengthAt(m, blocks, b) == |c.value|
    ensures Binds(m, f).Some? && f.fieldType != Blob ==>
              |c.value| <= b.bufferLength && blocks[b.buffer][..|c.value|] == c.value
    ensures f.fieldType == LongLong || f.fieldType == Tiny ==> blocks[b.buffer] == c.value
    ensures f.fieldType == Long ==> blocks[b.buffer] == Overwrite(Zeros(m.longSize), c.value)
  {
    LengthIsRight(m, blocks, b, f, c);
  }

  method ReadString(bytes: Bytes) returns (e: Entry)
    ensures e == StringEntry(bytes)
  {
    var theString := Decode(bytes);
    if theString.None? {
      return Raise;
    }
    return Put(StringObject(theString.value));
  }

  method ReadTimestamp(m: Machine, bytes: Bytes) returns (e: Entry)
    ensures e == TimestampEntry(m, bytes)
  {
    var text := Decode(bytes);
    if text.None? {
      return Raise;
    }
    var date := m.calendar.parse(text.value);
    if date.None? {
      return Raise;
    }
    return Put(DateObject(date.value));
  }

  method ReadDateTime(m: Machine, bytes: Bytes) returns (e: Entry)
    ensures e == DateTimeEntry(m, bytes)
  {
    var date := m.calendar.fromParts(bytes);
    if date.None? {
      return Skip;
    }
    return Put(DateObject(date.value));
  }

  predicate IsBlob(t: FieldType) {
    t == TinyBlob || t == MediumBlob || t == LongBlob || t == Blob
  }

  /** The cases of the switch that only read the binding's buffer. */
  method ReadValue(m: Machine, heap: Heap, f: Field, b: Bound, ghost c: Cell) returns (e: Entry)
    requires Sane(m) && c.Some? && Fits(m, f, c) && Agrees(m, f, b) && !IsBlob(f.fieldType)
    requires Ready(m, heap.blocks, f, b) && Holds(m, heap.blocks, b, c)
    ensures e == if Supported(f.fieldType) then EntryOf(m, f, c) else Raise
  {
    CellIsRead(m, heap.blocks, f, b, c);
    var buffer := heap.blocks[b.buffer];
    match f.fieldType {
      case String | VarString =>
        e := ReadString(buffer[..LengthAt(m, heap.blocks, b)]);
      case LongLong =>
        e := Put(NumberObject(Signed(8, FromLittle(buffer, 0, 8))));
      case Long =>
        e := Put(NumberObject(Signed(m.longSize, FromLittle(buffer, 0, m.longSize))));
      case Tiny =>
        e := Put(NumberObject(CharValue(m, buffer)));
      case NewDecimal =>
        e := Put(DecimalObject(buffer[..LengthAt(m, heap.blocks, b)]));
      case Timestamp =>
        e := ReadTimestamp(m, buffer[..LengthAt(m, heap.blocks, b)]);
      case Float =>
        e := Put(FloatObject(buffer[..4]));
      case Double =>
        e := Put(FloatObject(buffer[..8]));
      case DateTime =>
        e := ReadDateTime(m, buffer[..m.timeSize]);
      case OtherType(_) =>
        e := Raise;
    }
  }

  /** The switch of the row loop, for a column that is not null. */
  method ReadCell(m: Machine, stmt: Statement, heap: Heap, bindings: array<Bound>, x: nat, truncated: bool,
                  ghost p: nat)
    returns (e: Entry)
    requires Sane(m) && heap.Valid() && x < bindings.Length && x < |stmt.current| == |stmt.fields|
    requires stmt.current[x].Some? && Fits(m, stmt.fields[x], stmt.current[x])
    requires Agrees(m, stmt.fields[x], bindings[x])
    requires LaidAt(bindings[x], p) && Ready(m, heap.blocks, stmt.fields[x], bindings[x])
    requires Holds(m, heap.blocks, bindings[x], stmt.current[x])
    requires Cut(bindings[x], stmt.current[x]) ==> truncated
    modifies heap, bindings
    ensures bindings[..] == old(bindings[..])
    ensures heap.Valid() && heap.next >= old(heap.next) && Ready(m, heap.blocks, stmt.fields[x], bindings[x])
    ensures Changed(old(heap.blocks), heap.blocks, p, p + 4)
    ensures e == if Supported(stmt.fields[x].fieldType) then EntryOf(m, stmt.fields[x], stmt.current[x]) else Raise
  {
    var f, b := stmt.fields[x], bindings[x];
    if IsBlob(f.fieldType) {
      var d := ReadBlob(m, stmt, heap, bindings, x, truncated, f, p);
      e := Put(DataObject(d));
    } else {
      e := ReadValue(m, heap, f, b, stmt.current[x]);
    }
  }

  lemma ChangedMore(a: map<nat, Bytes>, b: map<nat, Bytes>, c: map<nat, Bytes>, lo: nat, hi: nat, from: nat, to: nat)
    requires Changed(a, b, lo, hi) && Changed(b, c, from, to) && lo <= from <= to <= hi
    ensures Changed(a, c, lo, hi)
  {
  }

  /** The columns and the row suit the bindings. */
  ghost predicate Suited(m: Machine, fields: seq<Field>, row: seq<Cell>, bs: seq<Bound>, lo: nat) {
    |bs| == |fields| && AllBind(m, fields) && RowFits(m, fields, row) && Bindings(m, fields, bs, lo)
  }

  /** In the middle of a row: the bindings from x on hold the cells still to be read, and nothing but the
      bindings' blocks has changed since `was`. */
  ghost predicate Reading(m: Machine, fields: seq<Field>, row: seq<Cell>, bs: seq<Bound>,
                          was: map<nat, Bytes>, blocks: map<nat, Bytes>, lo: nat, x: nat)
    requires |bs| == |fields| == |row| && x <= |bs|
  {
    && AllReady(m, blocks, fields, bs) && HoldFrom(m, blocks, bs, row, x, |bs|)
    && Changed(was, blocks, lo, lo + 4 * |bs|)
  }

  /** `mysql_stmt_fetch` has said so if anything was cut. */
  predicate CutIsSeen(bs: seq<Bound>, row: seq<Cell>, truncated: bool)
    requires |bs| == |row|
  {
    forall x | 0 <= x < |bs| :: Cut(bs[x], row[x]) ==> truncated
  }

  /** The body of the column loop: the entry for column x, which leaves the columns to come as they were. */
  method ReadColumn(m: Machine, stmt: Statement, heap: Heap, bindings: array<Bound>, x: nat, truncated: bool,
                    ghost bs: seq<Bound>, ghost was: map<nat, Bytes>, ghost lo: nat)
    returns (e: Entry)
    requires Sane(m) && heap.Valid() && x < |stmt.fields| && bindings[..] == bs
    requires Suited(m, stmt.fields, stmt.current, bs, lo)
    requires Reading(m, stmt.fields, stmt.current, bs, was, heap.blocks, lo, x)
    requires CutIsSeen(bs, stmt.current, truncated)
    modifies heap, bindings
    ensures heap.Valid() && bindings[..] == bs
    ensures Reading(m, stmt.fields, stmt.current, bs, was, heap.blocks, lo, x + 1)
    ensures e == Entries(m, stmt.fields, stmt.current)[x]
  {
    ghost var before := heap.blocks;
    assert bindings[x] == bs[x] && LaidAt(bs[x], lo + 4 * x) && Holds(m, before, bs[x], stmt.current[x]);
    EntriesAt(m, stmt.fields, stmt.current, x);
    if heap.blocks[bindings[x].isNull] == [1] {
      e := Put(NullObject);
    } else {
      e := ReadCell(m, stmt, heap, bindings, x, truncated, lo + 4 * x);
      OthersKept(m, before, heap.blocks, stmt.fields, bs, lo, x);
      ChangedMore(was, before, heap.blocks, lo, lo + 4 * |bs|, lo + 4 * x, lo + 4 * x + 4);
    }
  }

  /** `dict` after the first `x` columns, none of which raised. */
  ghost predicate Collected(dict: Dictionary, fields: seq<Field>, entries: seq<Entry>, long: bool, x: nat)
    requires x <= |fields| == |entries|
  {
    dict == RowOf(fields, entries, long, x) && NoRaise(entries, x)
  }

  /** `[dict setObject:o forKey:key]` with the key of column x. */
  method SetObject(dict: Dictionary, e: Entry, fields: seq<Field>, long: bool, x: nat, ghost entries: seq<Entry>)
    returns (d: Dictionary)
    requires x < |fields| == |entries| && e == entries[x] && !e.Raise? && Collected(dict, fields, entries, long, x)
    ensures Collected(d, fields, entries, long, x + 1)
  {
    d := if e.Put? then dict[KeyOf(fields[x], long) := e.o] else dict;
  }

  /** What a row comes to: its dictionary, unless a column raised. */
  ghost function RowResult(fields: seq<Field>, entries: seq<Entry>, long: bool): Option<Dictionary>
    requires |fields| == |entries|
  {
    if NoRaise(entries, |entries|) then Some(RowOf(fields, entries, long, |fields|)) else None
  }

  lemma RaiseAt(fields: seq<Field>, entries: seq<Entry>, long: bool, x: nat)
    requires |fields| == |entries| && x < |entries| && entries[x].Raise?
    ensures RowResult(fields, entries, long) == None
  {
  }

  lemma CollectedAll(dict: Dictionary, fields: seq<Field>, entries: seq<Entry>, long: bool)
    requires |fields| == |entries| && Collected(dict, fields, entries, long, |fields|)
    ensures RowResult(fields, entries, long) == Some(dict)
  {
  }

  method ReadRow(m: Machine, stmt: Statement, heap: Heap, bindings: array<Bound>, long: bool, truncated: bool,
                 ghost bs: seq<Bound>, ghost was: map<nat, Bytes>, ghost lo: nat)
    returns (r: Option<Dictionary>)
    requires Sane(m) && heap.Valid() && bindings[..] == bs
    requires Suited(m, stmt.fields, stmt.current, bs, lo)
    requires Reading(m, stmt.fields, stmt.current, bs, was, heap.blocks, lo, 0)
    requires CutIsSeen(bs, stmt.current, truncated)
    modifies heap, bindings
    ensures heap.Valid() && bindings[..] == bs
    ensures r == RowResult(stmt.fields, Entries(m, stmt.fields, stmt.current), long)
    ensures r.Some? ==> Reading(m, stmt.fields, stmt.current, bs, was, heap.blocks, lo, |stmt.fields|)
  {
    ghost var entries := Entries(m, stmt.fields, stmt.current);
    var dict: Dictionary := map[];
    for x := 0 to |stmt.fields|
      invariant heap.Valid() && bindings[..] == bs
      invariant Reading(m, stmt.fields, stmt.current, bs, was, heap.blocks, lo, x)
      invariant Collected(dict, stmt.fields, entries, long, x)
    {
      var e := ReadColumn(m, stmt, heap, bindings, x, truncated, bs, was, lo);
      if e.Raise? {
        RaiseAt(stmt.fields, entries, long, x);
        return None;
      }
      dict := SetObject(dict, e, stmt.fields, long, x, entries);
    }
    CollectedAll(dict, stmt.fields, entries, long);
    return Some(dict);
  }

  // ---- The whole query

  /** The four blocks of a binding, by the addresses it holds by then. */
  method FreeBinding(b: Bound, heap: Heap, ghost p: nat, ghost hi: nat, ghost was: map<nat, Bytes>)
    requires heap.Valid() && LaidAt(b, p) && p + 4 <= hi && (forall q | q in was :: q < p)
    requires Allocated(was, heap.blocks, p, hi)
    modifies heap
    ensures heap.Valid() && Allocated(was, heap.blocks, p + 4, hi)
  {
    heap.Free(b.buffer);
    heap.Free(b.length);
    heap.Free(b.error);
    heap.Free(b.isNull);
  }

  method FreeBindings(bindings: array<Bound>, heap: Heap, ghost lo: nat, ghost was: map<nat, Bytes>)
    requires heap.Valid() && Laid(bindings[..], lo) && (forall p | p in was :: p < lo)
    requires Allocated(was, heap.blocks, lo, lo + 4 * bindings.Length)
    modifies heap
    ensures heap.Valid() && heap.blocks == was
  {
    for x := 0 to bindings.Length
      invariant heap.Valid() && Allocated(was, heap.blocks, lo + 4 * x, lo + 4 * bindings.Length)
    {
      assert LaidAt(bindings[..][x], lo + 4 * x);
      FreeBinding(bindings[x], heap, lo + 4 * x, lo + 4 * bindings.Length, was);
    }
  }

  /** Delivering a row overruns a buffer exactly when a column has no room for it. */
  lemma RowOverrunsIff(m: Machine, fields: seq<Field>, bs: seq<Bound>, lo: nat, row: seq<Cell>)
    requires |bs| == |fields| && AllBind(m, fields) && RowFits(m, fields, row) && Bindings(m, fields, bs, lo)
    requires Sane(m)
    ensures AnyOverruns(bs, row) <==> !RowHasRoom(fields, row)
  {
    forall x | 0 <= x < |bs| ensures Overruns(bs[x], row[x]) <==> !HasRoom(fields[x], row[x]) {
      assert Agrees(m, fields[x], bs[x]) && Binds(m, fields[x]).Some? && Fits(m, fields[x], row[x]);
    }
  }

  datatype Next = Got(dict: Dictionary) | NoMore | Failed | NilPut | Overrun

  /** One turn of the row loop. */
  method ReadNext(m: Machine, stmt: Statement, heap: Heap, bindings: array<Bound>, long: bool,
                  ghost bs: seq<Bound>, ghost was: map<nat, Bytes>, ghost lo: nat)
    returns (r: Next)
    requires Sane(m) && heap.Valid() && bindings[..] == bs == stmt.bound && |bs| == |stmt.fields|
    requires AllBind(m, stmt.fields) && RowsFit(m, stmt.fields, stmt.pending) && Bindings(m, stmt.fields, bs, lo)
    requires AllReady(m, heap.blocks, stmt.fields, bs) && Changed(was, heap.blocks, lo, lo + 4 * |bs|)
    modifies heap, bindings, stmt`pending, stmt`current
    ensures heap.Valid() && bindings[..] == bs
    ensures r.Got? || r.NoMore? || r.Failed? ==>
              AllReady(m, heap.blocks, stmt.fields, bs) && Changed(was, heap.blocks, lo, lo + 4 * |bs|)
    ensures old(stmt.pending) == [] ==> r == (if stmt.failsAtEnd then Failed else NoMore)
    ensures old(stmt.pending) != [] ==>
              && stmt.pending == old(stmt.pending)[1..] && RowFits(m, stmt.fields, old(stmt.pending)[0])
              && r == TurnFor(m, stmt.fields, old(stmt.pending)[0], long)
  {
    ghost var before := heap.blocks;
    var fetched := stmt.Fetch(m, heap, lo);
    if fetched.NoData? {
      return NoMore;
    }
    if fetched.FetchError? {
      return Failed;
    }
    RowReadsIff(m, stmt.fields, stmt.current);
    RowOverrunsIff(m, stmt.fields, bs, lo, stmt.current);
    if fetched.Overran? {
      return Overrun;
    }
    ChangedMore(was, before, heap.blocks, lo, lo + 4 * |bs|, lo, lo + 4 * |bs|);
    var dict := ReadRow(m, stmt, heap, bindings, long, fetched.truncated, bs, was, lo);
    return if dict.None? then NilPut else Got(dict.value);
  }

  /** What becomes of a row. */
  function TurnFor(m: Machine, fields: seq<Field>, row: seq<Cell>, long: bool): Next
    requires Sane(m) && AllBind(m, fields) && RowFits(m, fields, row)
  {
    if !RowHasRoom(fields, row) then Overrun
    else if !RowReads(m, fields, row) then NilPut
    else Got(RowOf(fields, Entries(m, fields, row), long, |fields|))
  }

  datatype Rows = Rows(results: seq<Dictionary>) | NilRaised | EndsInError | OutOfBounds

  /** One dictionary for each row; the bindings end up as they began. */
  method ReadRows(m: Machine, stmt: Statement, heap: Heap, bindings: array<Bound>, long: bool,
                  ghost bs: seq<Bound>, ghost lo: nat)
    returns (r: Rows)
    requires Sane(m) && heap.Valid() && bindings[..] == bs == stmt.bound && |bs| == |stmt.fields|
    requires AllBind(m, stmt.fields) && RowsFit(m, stmt.fields, stmt.pending)
    requires Bindings(m, stmt.fields, bs, lo) && AllReady(m, heap.blocks, stmt.fields, bs)
    modifies heap, bindings, stmt`pending, stmt`current
    ensures heap.Valid() && bindings[..] == bs
    ensures r.Rows? ==> Changed(old(heap.blocks), heap.blocks, lo, lo + 4 * |bs|)
    ensures r == match RowsEnd(m, stmt.fields, old(stmt.pending))
                 case RowOverruns => OutOfBounds
                 case RowRaises => NilRaised
                 case Complete =>
                   if stmt.failsAtEnd then EndsInError else Rows(RowsOf(m, stmt.fields, old(stmt.pending), long))
  {
    ghost var rows, was := stmt.pending, heap.blocks;
    var results := [];
    while true
      invariant heap.Valid() && bindings[..] == bs == stmt.bound && AllReady(m, heap.blocks, stmt.fields, bs)
      invariant Changed(was, heap.blocks, lo, lo + 4 * |bs|)
      invariant Fetched(m, stmt.fields, rows, long, results) && stmt.pending == rows[|results|..]
      decreases |stmt.pending|
    {
      RowsLeftFit(m, stmt.fields, rows, |results|);
      var next := ReadNext(m, stmt, heap, bindings, long, bs, was, lo);
      if next.NoMore? {
        break;
      }
      if !next.Got? {
        NextEnds(m, stmt.fields, rows, long, results);
        return match next
          case Failed => EndsInError
          case NilPut => NilRaised
          case _ => OutOfBounds;
      }
      FetchedGrows(m, stmt.fields, rows, long, results);
      results := results + [next.dict];
    }
    FetchedAll(m, stmt.fields, rows, long, results);
    return Rows(results);
  }

  /** The dictionaries for the rows so far, all of which were read whole. */
  ghost predicate Fetched(m: Machine, fields: seq<Field>, rows: seq<seq<Cell>>, long: bool, results: seq<Dictionary>)
    requires Sane(m) && AllBind(m, fields) && RowsFit(m, fields, rows)
  {
    var k := |results|;
    && k <= |rows| && RowsFit(m, fields, rows[..k])
    && RowsEnd(m, fields, rows) == RowsEnd(m, fields, rows[k..]) && results == RowsOf(m, fields, rows[..k], long)
  }

  lemma RowsLeftFit(m: Machine, fields: seq<Field>, rows: seq<seq<Cell>>, k: nat)
    requires RowsFit(m, fields, rows) && k <= |rows|
    ensures RowsFit(m, fields, rows[k..])
  {
  }

  /** How the loop ends when there is no next row, or the next row ends it. */
  lemma NextEnds(m: Machine, fields: seq<Field>, rows: seq<seq<Cell>>, long: bool, results: seq<Dictionary>)
    requires Sane(m) && AllBind(m, fields) && RowsFit(m, fields, rows) && Fetched(m, fields, rows, long, results)
    ensures var rest := rows[|results|..];
            RowsEnd(m, fields, rows) == if rest == [] then Complete
                                        else match TurnFor(m, fields, rest[0], long)
                                             case Overrun => RowOverruns
                                             case NilPut => RowRaises
                                             case _ => RowsEnd(m, fields, rest[1..])
  {
  }

  lemma FetchedGrows(m: Machine, fields: seq<Field>, rows: seq<seq<Cell>>, long: bool, results: seq<Dictionary>)
    requires Sane(m) && AllBind(m, fields) && RowsFit(m, fields, rows) && Fetched(m, fields, rows, long, results)
    requires |results| < |rows| && TurnFor(m, fields, rows[|results|], long).Got?
    ensures rows[|results|..][0] == rows[|results|] && rows[|results|..][1..] == rows[|results| + 1..]
    ensures Fetched(m, fields, rows, long, results + [TurnFor(m, fields, rows[|results|], long).dict])
  {
    RowsGrow(m, fields, rows, long, |results|);
  }

  lemma FetchedAll(m: Machine, fields: seq<Field>, rows: seq<seq<Cell>>, long: bool, results: seq<Dictionary>)
    requires Sane(m) && AllBind(m, fields) && RowsFit(m, fields, rows) && Fetched(m, fields, rows, long, results)
    requires rows[|results|..] == []
    ensures RowsEnd(m, fields, rows) == Complete && results == RowsOf(m, fields, rows, long)
  {
    assert rows[..|results|] == rows;
  }

  function FieldNames(fields: seq<Field>): (names: seq<string>)
    ensures |names| == |fields| && forall x | 0 <= x < |fields| :: names[x] == fields[x].name
  {
    seq(|fields|, x requires 0 <= x < |fields| => fields[x].name)
  }

  method FetchWithCommand(m: Machine, connected: bool, stmt: Statement, useExtendedNames: bool, heap: Heap,
                          bindSize: nat, answers: Answers) returns (r: Outcome)
    requires Sane(m) && heap.Valid() && RowsFit(m, stmt.fields, stmt.pending)
    modifies heap, stmt
    ensures heap.Valid()
    ensures r.Done? <==> connected && answers.AllWell? && AllBind(m, stmt.fields) && !stmt.failsAtEnd
                         && AllRead(m, stmt.fields, old(stmt.pending)) && AllHaveRoom(stmt.fields, old(stmt.pending))
    ensures !connected ==> r == Raised(NotConnected)
    ensures connected && answers.PrepareFails? ==> r == Raised(Library(answers))
    ensures connected && !answers.PrepareFails? && !AllBind(m, stmt.fields) ==> r == Raised(NoBinding)
    ensures connected && !answers.AllWell? && AllBind(m, stmt.fields) ==> r == Raised(Library(answers))
    ensures connected && answers.AllWell? && AllBind(m, stmt.fields) ==>
              match RowsEnd(m, stmt.fields, old(stmt.pending))
              case RowOverruns => r == Undefined
              case RowRaises => r == Raised(NilObject)
              case Complete => stmt.failsAtEnd ==> r == Raised(FetchFails)
    ensures AllWide(stmt.fields) ==> r != Undefined
    ensures r.Done? ==> heap.blocks == old(heap.blocks) && r.fieldNames == FieldNames(stmt.fields)
    ensures var long := useExtendedNames || |SourceTables(stmt.fields)| > 1;
            r.Done? ==> r.results == RowsOf(m, stmt.fields, old(stmt.pending), long)
  {
    if !connected {
      return Raised(NotConnected);
    }
    if answers.PrepareFails? {
      return Raised(Library(answers));
    }
    var block := heap.Calloc(|stmt.fields|, bindSize);
    ghost var lo, was := heap.next, heap.blocks;
    var bindings := new Bound[|stmt.fields|](_ => Bound(OtherType(0), 0, 0, 0, 0, 0));
    var ok := BindFields(m, stmt.fields, bindings, heap);
    if !ok {
      return Raised(NoBinding);
    }
    stmt.BindResult(bindings);
    if answers.BindFails? || answers.ExecuteFails? {
      return Raised(Library(answers));
    }
    ghost var bs, bound := bindings[..], heap.blocks;
    CompleteIff(m, stmt.fields, stmt.pending);
    WideIsEnough(m, stmt.fields, stmt.pending);
    var long := useExtendedNames || |SourceTables(stmt.fields)| > 1;
    var results := ReadRows(m, stmt, heap, bindings, long, bs, lo);
    if results.OutOfBounds? {
      return Undefined;
    }
    if results.NilRaised? {
      return Raised(NilObject);
    }
    if results.EndsInError? {
      return Raised(FetchFails);
    }
    StillAllocated(was, bound, heap.blocks, lo, lo + 4 * |bs|);
    FreeBindings(bindings, heap, lo, was);
    Freed(old(heap.blocks), block, was[block]);
    heap.Free(block);
    return Done(FieldNames(stmt.fields), results.results);
  }

  lemma StillAllocated(was: map<nat, Bytes>, bound: map<nat, Bytes>, now: map<nat, Bytes>, lo: nat, hi: nat)
    requires Allocated(was, bound, lo, hi) && Changed(bound, now, lo, hi)
    ensures Allocated(was, now, lo, hi)
  {
  }

  // ---- The sizes of the buffers

  /** A buffer for text or a decimal is as large as the largest value the column announces, and no larger; one
      for BIGINT, TINYINT or DATETIME is as large as its values; one for INT as large as `long`; and one for data
      has the default size. */
  lemma BufferSizes(m: Machine, f: Field)
    requires Sane(m) && Binds(m, f).Some?
    ensures var size := Binds(m, f).value.1;
            match f.fieldType
            case LongLong => forall d: Bytes | Fits(m, f, Some(d)) :: |d| == size
            case Tiny => forall d: Bytes | Fits(m, f, Some(d)) :: |d| == size
            case DateTime => forall d: Bytes | Fits(m, f, Some(d)) :: |d| == size
            case Long => size == m.longSize
            case Blob => size == m.blobSize
            case _ => size == f.width
  {
  }

  // ---- Columns too narrow for their values

  /** What the metadata must say of a FLOAT or DOUBLE column for its values to fit the buffer. */
  predicate WideEnough(f: Field) {
    (f.fieldType == Float ==> f.width >= 4) && (f.fieldType == Double ==> f.width >= 8)
  }

  predicate AllWide(fields: seq<Field>) {
    forall x | 0 <= x < |fields| :: WideEnough(fields[x])
  }

  /** A FLOAT or DOUBLE fits the buffer that the switch allocates exactly when its column is wide enough. */
  lemma BufferHoldsIff(m: Machine, f: Field)
    requires Sane(m) && (f.fieldType == Float || f.fieldType == Double)
    ensures (forall d: Bytes | Fits(m, f, Some(d)) :: |d| <= Binds(m, f).value.1) <==> WideEnough(f)
  {
    var d := Zeros(if f.fieldType == Float then 4 else 8);
    assert Fits(m, f, Some(d)) by { Powers(); }
  }

  lemma {:induction false} WideIsEnough(m: Machine, fields: seq<Field>, rows: seq<seq<Cell>>)
    requires RowsFit(m, fields, rows)
    ensures AllWide(fields) ==> RowsEnd(m, fields, rows) != RowOverruns
  {
    if AllWide(fields) && rows != [] {
      assert RowFits(m, fields, rows[0]);
      forall x | 0 <= x < |fields| ensures HasRoom(fields[x], rows[0][x]) {
        assert WideEnough(fields[x]) && Fits(m, fields[x], rows[0][x]);
      }
      assert RowsFit(m, fields, rows[1..]);
      WideIsEnough(m, fields, rows[1..]);
    }
  }

  /** No result overruns a buffer exactly when every FLOAT and DOUBLE column is wide enough. */
  lemma NeverOverrunsIff(m: Machine, fields: seq<Field>)
    requires Sane(m)
    ensures (forall rows | RowsFit(m, fields, rows) :: RowsEnd(m, fields, rows) != RowOverruns) <==> AllWide(fields)
  {
    if AllWide(fields) {
      forall rows | RowsFit(m, fields, rows) ensures RowsEnd(m, fields, rows) != RowOverruns {
        WideIsEnough(m, fields, rows);
      }
    } else {
      var x :| 0 <= x < |fields| && !WideEnough(fields[x]);
      var row := seq(|fields|, y requires 0 <= y < |fields| =>
        if y == x then Some(Zeros(if fields[x].fieldType == Float then 4 else 8)) else None);
      assert Fits(m, fields[x], row[x]) by { Powers(); }
      assert RowsFit(m, fields, [row]) && !HasRoom(fields[x], row[x]);
      assert RowsEnd(m, fields, [row]) == RowOverruns;
    }
  }

  /** A column declared DOUBLE(5,2): five bytes are allocated and eight are written. */
  lemma NarrowDoubleOverruns(m: Machine)
    requires Sane(m)
    ensures var price := Field("t", "price", Double, 5);
            && Binds(m, price) == Some((Double, 5)) && RowsFit(m, [price], [[Some(Zeros(8))]])
            && RowsEnd(m, [price], [[Some(Zeros(8))]]) == RowOverruns
  {
    var price := Field("t", "price", Double, 5);
    assert Fits(m, price, Some(Zeros(8))) by { Powers(); }
    assert !HasRoom([price][0], [Some(Zeros(8))][0]);
  }

  // ---- What the dictionaries hold

  lemma {:induction false} RowKeys(fields: seq<Field>, entries: seq<Entry>, long: bool, n: nat, key: string)
    requires n <= |fields| == |entries|
    ensures key in RowOf(fields, entries, long, n) <==>
            exists x | 0 <= x < n :: entries[x].Put? && KeyOf(fields[x], long) == key
  {
    if n > 0 { RowKeys(fields, entries, long, n - 1, key); }
  }

  /** Under a key there is the object of the last column of that name that has one. */
  lemma {:induction false} LastColumnWins(fields: seq<Field>, entries: seq<Entry>, long: bool, n: nat, x: nat)
    requires x < n <= |fields| == |entries| && entries[x].Put?
    requires forall y | x < y < n && entries[y].Put? :: KeyOf(fields[y], long) != KeyOf(fields[x], long)
    ensures KeyOf(fields[x], long) in RowOf(fields, entries, long, n)
    ensures RowOf(fields, entries, long, n)[KeyOf(fields[x], long)] == entries[x].o
  {
    if x < n - 1 { LastColumnWins(fields, entries, long, n - 1, x); }
  }

  /** The last column before `n` that has an object and shares its key with column x. */
  lemma {:induction false} LastOfName(fields: seq<Field>, entries: seq<Entry>, long: bool, n: nat, x: nat)
    returns (z: nat)
    requires x < n <= |fields| == |entries| && entries[x].Put?
    ensures x <= z < n && KeyOf(fields[z], long) == KeyOf(fields[x], long) && entries[z].Put?
    ensures forall y | z < y < n && entries[y].Put? :: KeyOf(fields[y], long) != KeyOf(fields[z], long)
  {
    if entries[n - 1].Put? && KeyOf(fields[n - 1], long) == KeyOf(fields[x], long) {
      z := n - 1;
    } else {
      z := LastOfName(fields, entries, long, n - 1, x);
    }
  }

  ghost predicate EveryColumnIsThere(fields: seq<Field>, entries: seq<Entry>, long: bool)
    requires |fields| == |entries|
  {
    var d := RowOf(fields, entries, long, |fields|);
    forall x | 0 <= x < |fields| && entries[x].Put? ::
      KeyOf(fields[x], long) in d && d[KeyOf(fields[x], long)] == entries[x].o
  }

  /** In a row no column's object is lost exactly when columns that share a key share their object. */
  lemma NothingLostIff(fields: seq<Field>, entries: seq<Entry>, long: bool)
    requires |fields| == |entries|
    ensures EveryColumnIsThere(fields, entries, long) <==>
            forall x, y | 0 <= x < y < |fields| && KeyOf(fields[x], long) == KeyOf(fields[y], long)
                          && entries[x].Put? && entries[y].Put? :: entries[x].o == entries[y].o
  {
    var n := |fields|;
    if forall x, y | 0 <= x < y < n && KeyOf(fields[x], long) == KeyOf(fields[y], long)
                     && entries[x].Put? && entries[y].Put? :: entries[x].o == entries[y].o {
      var d := RowOf(fields, entries, long, n);
      forall x | 0 <= x < n && entries[x].Put?
        ensures KeyOf(fields[x], long) in d && d[KeyOf(fields[x], long)] == entries[x].o
      {
        var z := LastOfName(fields, entries, long, n, x);
        LastColumnWins(fields, entries, long, n, z);
      }
    }
  }

  predicate KeysDiffer(fields: seq<Field>, long: bool) {
    forall x, y | 0 <= x < y < |fields| :: KeyOf(fields[x], long) != KeyOf(fields[y], long)
  }

  /** A row that the server may deliver and that is read whole. */
  ghost predicate Deliverable(m: Machine, fields: seq<Field>, row: seq<Cell>) {
    RowFits(m, fields, row) && RowReads(m, fields, row) && RowHasRoom(fields, row)
  }

  /** A cell that puts an object other than null under its key. */
  ghost predicate PutsObject(m: Machine, f: Field, c: Cell)
    requires Sane(m)
  {
    c.Some? && Supported(f.fieldType) && Fits(m, f, c) && CellReads(m, f, c) && HasRoom(f, c) && EntryOf(m, f, c).Put?
  }

  ghost predicate CanHold(m: Machine, f: Field)
    requires Sane(m)
  {
    exists c :: PutsObject(m, f, c)
  }

  /** Columns that share a key with another can only ever be null. */
  ghost predicate SharedAreNull(m: Machine, fields: seq<Field>, long: bool)
    requires Sane(m)
  {
    forall x, y | 0 <= x < |fields| && 0 <= y < |fields| && x != y
                  && KeyOf(fields[x], long) == KeyOf(fields[y], long) :: !CanHold(m, fields[x])
  }

  /** Columns whose values are never too large for their buffer and never no date. */
  predicate Ordinary(f: Field) {
    WideEnough(f) && f.fieldType != Timestamp && f.fieldType != DateTime
  }

  lemma OrdinaryCanHold(m: Machine, f: Field)
    requires Sane(m) && Binds(m, f).Some? && Ordinary(f)
    ensures CanHold(m, f)
  {
    var n := match f.fieldType
      case LongLong => 8
      case Double => 8
      case Long => 4
      case Float => 4
      case Tiny => 1
      case _ => 0;
    var c := Some(Zeros(n));
    assert 8 < Pow256(m.longSize) by { Powers(); }
    assert Decode([]) == Some("");
    assert n == 0 ==> Zeros(n) == [];
    assert PutsObject(m, f, c);
  }

  /** A row of nulls but for one cell. */
  function OneCell(n: nat, x: nat, c: Cell): (row: seq<Cell>)
    ensures |row| == n && forall y | 0 <= y < n :: row[y] == if y == x then c else None
  {
    seq(n, y => if y == x then c else None)
  }

  lemma OneCellLoses(m: Machine, fields: seq<Field>, long: bool, x: nat, y: nat, c: Cell)
    requires Sane(m) && AllBind(m, fields) && x < |fields| && y < |fields| && x != y
    requires KeyOf(fields[x], long) == KeyOf(fields[y], long)
    requires PutsObject(m, fields[x], c)
    ensures Deliverable(m, fields, OneCell(|fields|, x, c))
    ensures !EveryColumnIsThere(fields, Entries(m, fields, OneCell(|fields|, x, c)), long)
  {
    var row := OneCell(|fields|, x, c);
    EntriesAt(m, fields, row, x);
    EntriesAt(m, fields, row, y);
    var es := Entries(m, fields, row);
    assert es[y] == Put(NullObject) && es[x].Put? && es[x].o != NullObject;
    NothingLostIff(fields, es, long);
  }

  /** Whatever row comes, no column's object is lost from it: exactly when columns that share a key can only
      ever be null. */
  lemma NothingEverLostIff(m: Machine, fields: seq<Field>, long: bool)
    requires Sane(m) && AllBind(m, fields)
    ensures (forall row | Deliverable(m, fields, row) :: EveryColumnIsThere(fields, Entries(m, fields, row), long))
            <==> SharedAreNull(m, fields, long)
  {
    if SharedAreNull(m, fields, long) {
      forall row | Deliverable(m, fields, row) ensures EveryColumnIsThere(fields, Entries(m, fields, row), long) {
        OnlyNullsShared(m, fields, long, row);
      }
    } else {
      var x, y :| 0 <= x < |fields| && 0 <= y < |fields| && x != y
                  && KeyOf(fields[x], long) == KeyOf(fields[y], long) && CanHold(m, fields[x]);
      var c :| PutsObject(m, fields[x], c);
      OneCellLoses(m, fields, long, x, y, c);
    }
  }

  lemma OnlyNullsShared(m: Machine, fields: seq<Field>, long: bool, row: seq<Cell>)
    requires Sane(m) && AllBind(m, fields) && Deliverable(m, fields, row) && SharedAreNull(m, fields, long)
    ensures EveryColumnIsThere(fields, Entries(m, fields, row), long)
  {
    var es := Entries(m, fields, row);
    forall x, y | 0 <= x < y < |fields| && KeyOf(fields[x], long) == KeyOf(fields[y], long) && es[x].Put? && es[y].Put?
      ensures es[x].o == es[y].o
    {
      NullIfNone(m, fields, row, x);
      NullIfNone(m, fields, row, y);
    }
    NothingLostIff(fields, es, long);
  }

  lemma NullIfNone(m: Machine, fields: seq<Field>, row: seq<Cell>, x: nat)
    requires Sane(m) && AllBind(m, fields) && Deliverable(m, fields, row) && x < |fields|
    requires !CanHold(m, fields[x]) && Entries(m, fields, row)[x].Put?
    ensures Entries(m, fields, row)[x].o == NullObject
  {
    EntriesAt(m, fields, row, x);
    assert !PutsObject(m, fields[x], row[x]);
  }

  /** So for ordinary columns, exactly when they have different keys. */
  lemma OrdinaryNeverLostIff(m: Machine, fields: seq<Field>, long: bool)
    requires Sane(m) && AllBind(m, fields) && forall x | 0 <= x < |fields| :: Ordinary(fields[x])
    ensures (forall row | Deliverable(m, fields, row) :: EveryColumnIsThere(fields, Entries(m, fields, row), long)) <==>
            KeysDiffer(fields, long)
  {
    NothingEverLostIff(m, fields, long);
    OrdinaryShared(m, fields, long);
  }

  lemma OrdinaryShared(m: Machine, fields: seq<Field>, long: bool)
    requires Sane(m) && AllBind(m, fields) && forall x | 0 <= x < |fields| :: Ordinary(fields[x])
    ensures SharedAreNull(m, fields, long) <==> KeysDiffer(fields, long)
  {
    forall x | 0 <= x < |fields| ensures CanHold(m, fields[x]) { OrdinaryCanHold(m, fields[x]); }
  }

  /** With extended names, and tables without dots in their names, the keys differ exactly when no two columns
      have both table and name in common. */
  lemma ExtendedKeysDifferIff(fields: seq<Field>)
    requires forall x | 0 <= x < |fields| :: '.' !in fields[x].table
    ensures KeysDiffer(fields, true) <==>
            forall x, y | 0 <= x < y < |fields| ::
              fields[x].table != fields[y].table || fields[x].name != fields[y].name
  {
    forall x, y | 0 <= x < y < |fields|
      ensures KeyOf(fields[x], true) == KeyOf(fields[y], true) <==>
              fields[x].table == fields[y].table && fields[x].name == fields[y].name
    {
      ExtendedNamesDiffer(fields[x], fields[y]);
    }
  }

  /** Two INT columns of one name, with 1 and 2 in a row: only the 2 is found. */
  lemma FirstOfTwoIsLost(m: Machine)
    requires Sane(m)
    ensures var a := Field("t", "a", Long, 11);
            var row: seq<Cell> := [Some(Little(4, 1)), Some(Little(4, 2))];
            && AllBind(m, [a, a]) && RowFits(m, [a, a], row) && RowReads(m, [a, a], row)
            && RowsOf(m, [a, a], [row], false) == [map["a" := NumberObject(2)]]
  {
    var a := Field("t", "a", Long, 11);
    var row: seq<Cell> := [Some(Little(4, 1)), Some(Little(4, 2))];
    assert FitsSigned(4, 1) && FitsSigned(4, 2) by { Powers(); }
    IntReadsIff(m, a, 1);
    IntReadsIff(m, a, 2);
    var es := Entries(m, [a, a], row);
    EntriesAt(m, [a, a], row, 0);
    EntriesAt(m, [a, a], row, 1);
    TwoOfOneKey(a, es);
    assert RowsFit(m, [a, a], [row]);
  }

  lemma TwoOfOneKey(a: Field, es: seq<Entry>)
    requires |es| == 2 && es[0].Put? && es[1].Put?
    ensures RowOf([a, a], es, false, 2) == map[a.name := es[1].o]
  {
    assert RowOf([a, a], es, false, 0) == map[];
    assert RowOf([a, a], es, false, 1) == map[a.name := es[0].o];
  }

  /** Extended names tell apart columns of different tables, and of different names. */
  lemma {:induction false} ExtendedNamesDiffer(f: Field, g: Field)
    requires '.' !in f.table && '.' !in g.table
    ensures KeyOf(f, true) == KeyOf(g, true) <==> f.table == g.table && f.name == g.name
  {
    var k, l := KeyOf(f, true), KeyOf(g, true);
    var i, j := |f.table|, |g.table|;
    assert k[i] == '.' && k[..i] == f.table && k[i + 1..] == f.name;
    assert l[j] == '.' && l[..j] == g.table && l[j + 1..] == g.name;
    assert i < j ==> l[i] == g.table[i];
    assert j < i ==> k[j] == f.table[j];
  }

  // ---- Integers

  lemma ZerosAbove(d: Bytes)
    requires |d| == 4
    ensures Overwrite(Zeros(8), d) == d + [0, 0, 0, 0] && Overwrite(Zeros(4), d) == d
  {
    assert Zeros(8)[4..] == [0, 0, 0, 0];
    assert Zeros(4)[4..] == [] && d + [] == d;
  }

  /** The bytes of an INT in a buffer of eight, above them zeros. */
  lemma Widened(v: int)
    requires FitsUnsigned(4, v)
    ensures Overwrite(Zeros(8), Little(4, v)) == Little(8, v)
  {
    assert v < Pow256(4);
    LittleWithZeros(4, 4, v);
    ZerosAbove(Little(4, v));
    assert Zeros(4) == [0, 0, 0, 0];
  }

  lemma {:induction false} LittleOfZero(n: nat)
    ensures Little(n, 0) == Zeros(n)
  {
    if n > 0 { LittleOfZero(n - 1); }
  }

  lemma LittleWithZeros(n: nat, k: nat, v: nat)
    requires v < Pow256(n)
    ensures Little(k + n, v) == Little(n, v) + Zeros(k)
  {
    HighAndLow(k, n, v);
    DivisionIsUnique(v, Pow256(n), 0, v);
    LittleOfZero(k);
  }

  /** In the range of a signed or of an unsigned column of `n` bytes. */
  predicate InRange(n: nat, v: int) {
    FitsSigned(n, v) || FitsUnsigned(n, v)
  }

  /** The number that the bytes of `v` are for an unsigned reader. */
  lemma UnsignedOf(n: nat, v: int)
    requires InRange(n, v)
    ensures FromLittle(Little(n, v), 0, n) == (if v < 0 then v + Pow256(n) else v) == v % Pow256(n)
  {
    LittleRoundTrip(n, v);
    DivisionIsUnique(v, Pow256(n), if v < 0 then -1 else 0, if v < 0 then v + Pow256(n) else v);
  }

  /** Bytes read as signed are the number exactly when it is in the signed range. */
  lemma SignedOfIff(n: nat, v: int)
    requires InRange(n, v)
    ensures Signed(n, FromLittle(Little(n, v), 0, n)) == v <==> FitsSigned(n, v)
  {
    UnsignedOf(n, v);
    if FitsSigned(n, v) { SignedReadsBack(n, v); }
  }

  lemma InEight(v: int)
    requires InRange(4, v)
    ensures Signed(8, FromLittle(Overwrite(Zeros(8), Little(4, v)), 0, 8)) == (if v < 0 then v + Pow256(4) else v)
  {
    UnsignedOf(4, v);
    var w := v % Pow256(4);
    LowBytes(4, 4, v);
    Widened(w);
    assert 2 * w < Pow256(8) by { Powers(); }
    UnsignedReadsBack(8, w);
  }

  lemma InFour(v: int)
    requires InRange(4, v)
    ensures Signed(4, FromLittle(Overwrite(Zeros(4), Little(4, v)), 0, 4)) == v <==> FitsSigned(4, v)
  {
    ZerosAbove(Little(4, v));
    SignedOfIff(4, v);
  }

  predicate ReadsAsItself(m: Machine, f: Field, n: nat, v: int)
    requires Sane(m) && Supported(f.fieldType) && Fits(m, f, Some(Little(n, v)))
  {
    EntryOf(m, f, Some(Little(n, v))) == Put(NumberObject(v))
  }

  lemma IntegerFits(m: Machine, f: Field, n: nat, v: int)
    requires Sane(m) && (n == 1 || n == 4 || n == 8)
    requires f.fieldType == if n == 1 then Tiny else if n == 4 then Long else LongLong
    ensures Fits(m, f, Some(Little(n, v)))
  {
    assert 8 < Pow256(m.longSize) by { Powers(); }
  }

  /** An INT, signed or unsigned, reads as itself exactly when it is not negative, where `long` has eight
      bytes, and when it is in the signed range, where it has four. */
  lemma IntReadsIff(m: Machine, f: Field, v: int)
    requires Sane(m) && f.fieldType == Long && InRange(4, v)
    ensures Fits(m, f, Some(Little(4, v)))
    ensures ReadsAsItself(m, f, 4, v) <==> if m.longSize == 4 then FitsSigned(4, v) else v >= 0
  {
    IntegerFits(m, f, 4, v);
    if m.longSize == 4 { InFour(v); } else { InEight(v); }
  }

  /** A BIGINT reads as itself exactly in the signed range. */
  lemma BigIntReadsIff(m: Machine, f: Field, v: int)
    requires Sane(m) && f.fieldType == LongLong && InRange(8, v)
    ensures Fits(m, f, Some(Little(8, v)))
    ensures ReadsAsItself(m, f, 8, v) <==> FitsSigned(8, v)
  {
    IntegerFits(m, f, 8, v);
    SignedOfIff(8, v);
  }

  /** A TINYINT reads as itself exactly in the range of `char`. */
  lemma TinyIntReadsIff(m: Machine, f: Field, v: int)
    requires Sane(m) && f.fieldType == Tiny && InRange(1, v)
    ensures Fits(m, f, Some(Little(1, v)))
    ensures ReadsAsItself(m, f, 1, v) <==> if m.charSigned then FitsSigned(1, v) else v >= 0
  {
    IntegerFits(m, f, 1, v);
    SignedOfIff(1, v);
    UnsignedOf(1, v);
  }

  // ---- What the cells become

  predicate IsText(f: Field) {
    f.fieldType == String || f.fieldType == VarString
  }

  /** Only NULL becomes null. */
  lemma NullIff(m: Machine, f: Field, c: Cell)
    requires Sane(m) && Supported(f.fieldType) && Fits(m, f, c)
    ensures EntryOf(m, f, c) == Put(NullObject) <==> c == None
  {
  }

  /** A text column puts a string exactly when the cell is its UTF-8. */
  lemma TextIff(m: Machine, f: Field, c: Cell, s: string)
    requires Sane(m) && IsText(f) && Fits(m, f, c)
    ensures EntryOf(m, f, c) == Put(StringObject(s)) <==> c == Some(Utf8(s))
  {
    if c.Some? { DecodeIff(c.value, s); }
  }

  /** Data, decimals and floating-point numbers are made from exactly the bytes of the cell. */
  lemma BytesIff(m: Machine, f: Field, c: Cell, d: Bytes)
    requires Sane(m) && Fits(m, f, c)
    ensures IsBlob(f.fieldType) ==> (EntryOf(m, f, c) == Put(DataObject(d)) <==> c == Some(d))
    ensures f.fieldType == NewDecimal ==> (EntryOf(m, f, c) == Put(DecimalObject(d)) <==> c == Some(d))
    ensures f.fieldType == Float || f.fieldType == Double ==>
              (EntryOf(m, f, c) == Put(FloatObject(d)) <==> c == Some(d))
  {
  }

  /** A timestamp puts the date that its text parses to, and a DATETIME the date of its parts. */
  lemma DateIff(m: Machine, f: Field, c: Cell, t: int)
    requires Sane(m) && Fits(m, f, c)
    ensures f.fieldType == Timestamp ==>
              (EntryOf(m, f, c) == Put(DateObject(t)) <==>
                 exists s :: c == Some(Utf8(s)) && m.calendar.parse(s) == Some(t))
    ensures f.fieldType == DateTime ==>
              (EntryOf(m, f, c) == Put(DateObject(t)) <==> c.Some? && m.calendar.fromParts(c.value) == Some(t))
    ensures f.fieldType == DateTime ==> (EntryOf(m, f, c) == Skip <==> c.Some? && m.calendar.fromParts(c.value) == None)
  {
    if f.fieldType == Timestamp && c.Some? {
      if s :| c == Some(Utf8(s)) && m.calendar.parse(s) == Some(t) { DecodeIff(c.value, s); }
    }
  }

  /** In the results of a fetch, under the key of a column that puts an object and that no later column shares,
      there is the object for the row's cell. */
  lemma FetchedObject(m: Machine, fields: seq<Field>, rows: seq<seq<Cell>>, long: bool, i: nat, x: nat)
    requires Sane(m) && AllBind(m, fields) && RowsFit(m, fields, rows) && i < |rows| && x < |fields|
    requires forall y | x < y < |fields| :: KeyOf(fields[y], long) != KeyOf(fields[x], long)
    ensures Supported(fields[x].fieldType) && RowFits(m, fields, rows[i])
    ensures var e, d := EntryOf(m, fields[x], rows[i][x]), RowsOf(m, fields, rows, long)[i];
            e.Put? ==> KeyOf(fields[x], long) in d && d[KeyOf(fields[x], long)] == e.o
  {
    RowsOfAt(m, fields, rows, long, i);
    EntriesAt(m, fields, rows[i], x);
    var es := Entries(m, fields, rows[i]);
    if es[x].Put? { LastColumnWins(fields, es, long, |fields|, x); }
  }

  /** So the text of a column is found exactly as the server sent it. */
  lemma FetchedText(m: Machine, fields: seq<Field>, rows: seq<seq<Cell>>, long: bool, i: nat, x: nat, s: string)
    requires Sane(m) && AllBind(m, fields) && RowsFit(m, fields, rows) && i < |rows| && x < |fields|
    requires forall y | x < y < |fields| :: KeyOf(fields[y], long) != KeyOf(fields[x], long)
    requires IsText(fields[x]) && RowReads(m, fields, rows[i])
    ensures var d := RowsOf(m, fields, rows, long)[i];
            && KeyOf(fields[x], long) in d
            && (d[KeyOf(fields[x], long)] == StringObject(s) <==> rows[i][x] == Some(Utf8(s)))
  {
    FetchedObject(m, fields, rows, long, i, x);
    EntriesAt(m, fields, rows[i], x);
    TextIff(m, fields[x], rows[i][x], s);
  }

  // ---- Cells that raise

  /** A byte that starts no character: the row it is in raises. */
  lemma NotUtf8Raises(m: Machine, f: Field)
    requires Sane(m) && (f.fieldType == String || f.fieldType == VarString) && f.width >= 1
    ensures Fits(m, f, Some([0xFF])) && EntryOf(m, f, Some([0xFF])) == Raise && !CellReads(m, f, Some([0xFF]))
  {
    assert 8 < Pow256(m.longSize) by { Powers(); }
    assert Decode([0xFF]) == None;
  }
}
