/** The bindings of a result set, and what the client library does with them: `mysql_stmt_fetch` and
    `mysql_stmt_fetch_column` are not part of the repository, so their documented effect stands here. */
module MysqlStmt {
  import opened CHeap
  import ByteOrder
  import opened SqlText

  /** sizeof(long), sizeof(MYSQL_TIME), BLOB_DEFAULT_SIZE, whether `char` is signed, and how dates are made. */
  datatype Machine = Machine(longSize: nat, timeSize: nat, blobSize: nat, charSigned: bool, calendar: Calendar)

  /** `dateFromString:` on a timestamp, and `dateFromComponents:` on a MYSQL_TIME; `None` for nil. */
  datatype Calendar = Calendar(parse: string -> Option<int>, fromParts: Bytes -> Option<int>)

  predicate Sane(m: Machine) {
    m.longSize == 4 || m.longSize == 8
  }

  datatype FieldType = LongLong | Long | String | VarString | Blob | Tiny | NewDecimal | Timestamp | Float
                     | Double | DateTime | TinyBlob | MediumBlob | LongBlob | OtherType(code: nat)

  datatype Field = Field(table: string, name: string, fieldType: FieldType, width: nat)

  /** The fields of GC_MYSQL_BIND that are used; the last four are addresses. */
  datatype Bound = Bound(bufferType: FieldType, bufferLength: nat, buffer: nat, length: nat, error: nat, isNull: nat)

  /** A column of a row in the bytes its binding asks for; `None` for NULL. */
  type Cell = Option<Bytes>

  /** What the server keeps to: numbers have their own size, text at most the width announced, and decimals
      are digits. */
  predicate Fits(m: Machine, f: Field, c: Cell) {
    c.Some? ==>
      && ByteOrder.FitsUnsigned(m.longSize, |c.value|)
      && match f.fieldType
         case LongLong => |c.value| == 8
         case Long => |c.value| == 4
         case Tiny => |c.value| == 1
         case Float => |c.value| == 4
         case Double => |c.value| == 8
         case DateTime => |c.value| == m.timeSize
         case String => |c.value| <= f.width
         case VarString => |c.value| <= f.width
         case NewDecimal => |c.value| <= f.width && forall i | 0 <= i < |c.value| :: c.value[i] < 0x80
         case Timestamp => |c.value| <= f.width
         case _ => true
  }

  /** The blocks of a binding are live and have their sizes. */
  predicate Live(m: Machine, blocks: map<nat, Bytes>, b: Bound) {
    && b.buffer in blocks && |blocks[b.buffer]| == b.bufferLength
    && b.length in blocks && |blocks[b.length]| == m.longSize
    && b.error in blocks && |blocks[b.error]| == 1
    && b.isNull in blocks && |blocks[b.isNull]| == 1
    && b.buffer != b.length && b.buffer != b.error && b.buffer != b.isNull
    && b.length != b.error && b.length != b.isNull && b.error != b.isNull
  }

  predicate Cut(b: Bound, c: Cell) {
    c.Some? && |c.value| > b.bufferLength
  }

  /** The types whose values have a size of their own: for these the library does not look at the length of
      the buffer. */
  predicate FixedSize(t: FieldType) {
    t == LongLong || t == Long || t == Tiny || t == Float || t == Double || t == DateTime
  }

  /** Delivering `c` through `b` would write past the end of the buffer. */
  predicate Overruns(b: Bound, c: Cell) {
    FixedSize(b.bufferType) && Cut(b, c)
  }

  /** As much of `d` as there is room for, from the start of `buf`. */
  function Overwrite(buf: Bytes, d: Bytes): (r: Bytes)
    ensures |r| == |buf|
    ensures if |d| <= |buf| then d <= r && (forall i | |d| <= i < |r| :: r[i] == buf[i]) else r == d[..|buf|]
  {
    if |d| <= |buf| then d + buf[|d|..] else d[..|buf|]
  }

  /** `blocks` after the library has delivered `c` through `b`. */
  function Stored(m: Machine, blocks: map<nat, Bytes>, b: Bound, c: Cell): map<nat, Bytes>
    requires Live(m, blocks, b) && !Overruns(b, c)
  {
    if c.None? then blocks[b.isNull := [1]]
    else
      blocks[b.isNull := [0]]
            [b.length := ByteOrder.Little(m.longSize, |c.value|)]
            [b.error := [if Cut(b, c) then 1 else 0]]
            [b.buffer := Overwrite(blocks[b.buffer], c.value)]
  }

  /** What the connector finds in the blocks of a binding. */
  predicate Holds(m: Machine, blocks: map<nat, Bytes>, b: Bound, c: Cell) {
    && Live(m, blocks, b) && !Overruns(b, c)
    && if c.None? then blocks[b.isNull] == [1]
       else
         && blocks[b.isNull] == [0]
         && blocks[b.length] == ByteOrder.Little(m.longSize, |c.value|)
         && blocks[b.error] == [if Cut(b, c) then 1 else 0]
         && blocks[b.buffer] == Overwrite(blocks[b.buffer], c.value)
  }

  lemma StoredHolds(m: Machine, blocks: map<nat, Bytes>, b: Bound, c: Cell)
    requires Live(m, blocks, b) && !Overruns(b, c)
    ensures Holds(m, Stored(m, blocks, b, c), b, c)
  {
  }

  /** `*length` as the connector reads it. */
  function LengthAt(m: Machine, blocks: map<nat, Bytes>, b: Bound): nat
    requires Live(m, blocks, b)
  {
    ByteOrder.FromLittle(blocks[b.length], 0, m.longSize)
  }

  lemma LengthIsRight(m: Machine, blocks: map<nat, Bytes>, b: Bound, f: Field, c: Cell)
    requires Holds(m, blocks, b, c) && c.Some? && Fits(m, f, c)
    ensures LengthAt(m, blocks, b) == |c.value|
  {
    ByteOrder.UnsignedReadsBack(m.longSize, |c.value|);
  }

  // ---- Many bindings, each with four blocks of its own

  /** Binding x has the four addresses from `lo + 4 * x` on. */
  predicate LaidAt(b: Bound, p: nat) {
    b.buffer == p && b.length == p + 1 && b.error == p + 2 && b.isNull == p + 3
  }

  predicate Laid(bs: seq<Bound>, lo: nat) {
    forall x | 0 <= x < |bs| :: LaidAt(bs[x], lo + 4 * x)
  }

  /** Live, and beyond the four bytes an INT is delivered in, still as `calloc` left it. */
  predicate Ready(m: Machine, blocks: map<nat, Bytes>, f: Field, b: Bound) {
    && Live(m, blocks, b)
    && (f.fieldType == Long ==> b.bufferLength == m.longSize)
    && (f.fieldType == Long ==> forall i | 4 <= i < m.longSize :: blocks[b.buffer][i] == 0)
  }

  ghost predicate AllReady(m: Machine, blocks: map<nat, Bytes>, fields: seq<Field>, bs: seq<Bound>)
    requires |bs| == |fields|
  {
    forall x | 0 <= x < |bs| :: Ready(m, blocks, fields[x], bs[x])
  }

  ghost predicate HoldFrom(m: Machine, blocks: map<nat, Bytes>, bs: seq<Bound>, row: seq<Cell>, from: nat, to: nat)
    requires from <= to <= |bs| == |row|
  {
    forall x | from <= x < to :: Holds(m, blocks, bs[x], row[x])
  }

  /** The same blocks are live, and outside the given addresses nothing has changed. */
  ghost predicate Changed(was: map<nat, Bytes>, now: map<nat, Bytes>, lo: nat, hi: nat) {
    && (forall p: nat :: p in now <==> p in was)
    && (forall p | p in was && !(lo <= p < hi) :: now[p] == was[p])
  }

  /** A change within the blocks of binding x leaves the other bindings as they were. */
  lemma OthersKept(m: Machine, was: map<nat, Bytes>, now: map<nat, Bytes>, fields: seq<Field>, bs: seq<Bound>,
                   lo: nat, x: nat)
    requires x < |bs| == |fields| && Laid(bs, lo) && AllReady(m, was, fields, bs)
    requires Changed(was, now, lo + 4 * x, lo + 4 * x + 4) && Ready(m, now, fields[x], bs[x])
    ensures AllReady(m, now, fields, bs)
    ensures forall y, c | 0 <= y < |bs| && y != x && Holds(m, was, bs[y], c) :: Holds(m, now, bs[y], c)
  {
    forall y | 0 <= y < |bs| && y != x
      ensures Ready(m, now, fields[y], bs[y])
      ensures forall c | Holds(m, was, bs[y], c) :: Holds(m, now, bs[y], c)
    {
      assert Ready(m, was, fields[y], bs[y]) && LaidAt(bs[y], lo + 4 * y);
    }
  }

  lemma StoredIsReady(m: Machine, blocks: map<nat, Bytes>, f: Field, b: Bound, c: Cell, p: nat)
    requires Ready(m, blocks, f, b) && Fits(m, f, c) && LaidAt(b, p) && !Overruns(b, c)
    ensures Ready(m, Stored(m, blocks, b, c), f, b) && Holds(m, Stored(m, blocks, b, c), b, c)
    ensures Changed(blocks, Stored(m, blocks, b, c), p, p + 4)
  {
  }

  predicate AnyCut(bs: seq<Bound>, row: seq<Cell>)
    requires |bs| == |row|
  {
    exists x | 0 <= x < |bs| :: Cut(bs[x], row[x])
  }

  predicate AnyOverruns(bs: seq<Bound>, row: seq<Cell>)
    requires |bs| == |row|
  {
    exists x | 0 <= x < |bs| :: Overruns(bs[x], row[x])
  }

  ghost predicate RowFits(m: Machine, fields: seq<Field>, row: seq<Cell>) {
    |row| == |fields| && forall x | 0 <= x < |row| :: Fits(m, fields[x], row[x])
  }

  ghost predicate RowsFit(m: Machine, fields: seq<Field>, rows: seq<seq<Cell>>) {
    forall i | 0 <= i < |rows| :: RowFits(m, fields, rows[i])
  }

  /** `Overran` stands for a write outside a block, after which C promises nothing. */
  datatype FetchResult = Row(truncated: bool) | NoData | FetchError | Overran

  /** A prepared statement: its fields, and once executed the rows to come. */
  class Statement {
    const fields: seq<Field>
    const failsAtEnd: bool
    var pending: seq<seq<Cell>>
    var current: seq<Cell>
    var bound: seq<Bound>  // mysql_stmt_bind_result keeps a copy

    constructor (fields: seq<Field>, rows: seq<seq<Cell>>, failsAtEnd: bool)
      ensures this.fields == fields && this.failsAtEnd == failsAtEnd && pending == rows && bound == []
    {
      this.fields, this.failsAtEnd := fields, failsAtEnd;
      pending, bound, current := rows, [], [];
    }

    method BindResult(bindings: array<Bound>)
      modifies this`bound
      ensures bound == bindings[..]
    {
      bound := bindings[..];
    }

    /** `mysql_stmt_fetch`: the next row through the bindings. */
    method Fetch(m: Machine, heap: Heap, ghost lo: nat) returns (r: FetchResult)
      requires heap.Valid() && |bound| == |fields| && Laid(bound, lo)
      requires AllReady(m, heap.blocks, fields, bound) && RowsFit(m, fields, pending)
      modifies heap, this`pending, this`current
      ensures heap.Valid() && heap.next == old(heap.next)
      ensures !r.Overran? ==> Changed(old(heap.blocks), heap.blocks, lo, lo + 4 * |bound|)
      ensures !r.Overran? ==> AllReady(m, heap.blocks, fields, bound)
      ensures r.Row? || r.Overran? <==> old(pending) != []
      ensures r.Row? || r.Overran? ==>
                pending == old(pending)[1..] && current == old(pending)[0] && RowFits(m, fields, current)
      ensures r.Row? || r.Overran? ==> (r.Overran? <==> AnyOverruns(bound, current))
      ensures r.Row? ==> HoldFrom(m, heap.blocks, bound, current, 0, |bound|) && r.truncated == AnyCut(bound, current)
      ensures old(pending) == [] ==> heap.blocks == old(heap.blocks) && r == if failsAtEnd then FetchError else NoData
    {
      if pending == [] {
        return if failsAtEnd then FetchError else NoData;
      }
      assert RowFits(m, fields, pending[0]);
      current, pending := pending[0], pending[1..];
      var truncated := false;
      for x := 0 to |bound|
        invariant pending == old(pending)[1..] && current == old(pending)[0] && RowFits(m, fields, current)
        invariant heap.Valid() && heap.next == old(heap.next)
        invariant Changed(old(heap.blocks), heap.blocks, lo, lo + 4 * |bound|)
        invariant AllReady(m, heap.blocks, fields, bound)
        invariant HoldFrom(m, heap.blocks, bound, current, 0, x)
        invariant truncated <==> exists y | 0 <= y < x :: Cut(bound[y], current[y])
      {
        if Overruns(bound[x], current[x]) {
          return Overran;
        }
        ghost var before := heap.blocks;
        Deliver(m, heap, bound[x], current[x], fields[x], lo + 4 * x);
        OthersKept(m, before, heap.blocks, fields, bound, lo, x);
        truncated := truncated || Cut(bound[x], current[x]);
      }
      return Row(truncated);
    }

    method Deliver(m: Machine, heap: Heap, b: Bound, c: Cell, ghost f: Field, ghost p: nat)
      requires heap.Valid() && LaidAt(b, p) && Ready(m, heap.blocks, f, b) && Fits(m, f, c) && !Overruns(b, c)
      modifies heap
      ensures heap.Valid() && heap.next == old(heap.next)
      ensures Ready(m, heap.blocks, f, b) && Holds(m, heap.blocks, b, c)
      ensures Changed(old(heap.blocks), heap.blocks, p, p + 4)
    {
      StoredIsReady(m, heap.blocks, f, b, c, p);
      heap.blocks := Stored(m, heap.blocks, b, c);
    }

    /** `mysql_stmt_fetch_column`: a column of the current row once more, through `b`. */
    method FetchColumn(m: Machine, heap: Heap, b: Bound, x: nat)
      requires heap.Valid() && x < |current| && Live(m, heap.blocks, b) && !Overruns(b, current[x])
      modifies heap
      ensures heap.Valid() && heap.next == old(heap.next)
      ensures heap.blocks == Stored(m, old(heap.blocks), b, current[x])
    {
      heap.blocks := Stored(m, heap.blocks, b, current[x]);
    }
  }
}
