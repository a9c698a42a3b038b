/** Values bound to the placeholders of a statement: the branch on the class of a value that
    MysqlInsert.m and MysqlUpdate.m share, and the null flags it allocates. */
module MysqlBind {
  import opened CHeap
  import opened SqlText

  /** A value of a row by the class the connector tests for; strings as their UTF-8 bytes. */
  datatype Value = Str(utf8: Bytes) | Data(bytes: Bytes) | Number(text: Bytes) | Null | Other(text: Bytes)

  datatype BufferType = Unset | StringType | BlobType

  /** The fields of GC_MYSQL_BIND that are used; a null pointer is `None`. */
  datatype Binding = Binding(isNull: Option<nat>, bufferType: BufferType, buffer: Option<Bytes>, length: nat)

  const ZERO_BINDING := Binding(None, Unset, None, 0)

  /** `strlen`: up to the first zero byte. */
  function StrLen(s: Bytes): (n: nat)
    ensures n <= |s| && (forall i | 0 <= i < n :: s[i] != 0) && (n < |s| ==> s[n] == 0)
  {
    if s == [] || s[0] == 0 then 0 else 1 + StrLen(s[1..])
  }

  /** What the server reads from a binding while the statement executes. */
  datatype Param = NullParam | TextParam(Bytes) | BlobParam(Bytes) | Unreadable

  function Reads(blocks: map<nat, Bytes>, b: Binding): Param {
    if b.isNull.Some? then
      if b.isNull.value in blocks && blocks[b.isNull.value] == [1] then NullParam else Unreadable
    else
      var buffer := if b.buffer.Some? then b.buffer.value else [];  // nothing is read through a null pointer
      if b.length > |buffer| then Unreadable
      else if b.bufferType == StringType then TextParam(buffer[..b.length])
      else if b.bufferType == BlobType then BlobParam(buffer[..b.length])
      else Unreadable
  }

  /** What a value should reach the server as. */
  function Wanted(v: Value): Param {
    match v
    case Str(s) => TextParam(s)
    case Data(d) => BlobParam(d)
    case Number(t) => TextParam(t)
    case Null => NullParam
    case Other(t) => TextParam(t)
  }

  /** Each parameter is wanted for the very bytes of a text, a number or a description, or of data, or for null. */
  lemma WantedIff(v: Value, b: Bytes)
    ensures Wanted(v) == TextParam(b) <==> v == Str(b) || v == Number(b) || v == Other(b)
    ensures Wanted(v) == BlobParam(b) <==> v == Data(b)
    ensures Wanted(v) == NullParam <==> v == Null
    ensures Wanted(v) != Unreadable
  {
  }

  /** Text passes through C strings, so a zero byte ends it; other objects get the length of their
      description and no buffer. */
  predicate Carried(v: Value) {
    match v
    case Str(s) => 0 !in s
    case Number(t) => 0 !in t
    case Data(_) => true
    case Null => true
    case Other(t) => t == []
  }

  /** What a binding for `v` looks like; `flag` is the block allocated for a null. */
  function BindingFor(v: Value, flag: nat): Binding {
    match v
    case Str(s) => Binding(None, StringType, Some(s), StrLen(s))
    case Data(d) => Binding(None, BlobType, Some(d), |d|)
    case Number(t) => Binding(None, StringType, Some(t), StrLen(t))
    case Null => Binding(Some(flag), Unset, None, 0)
    case Other(t) => Binding(None, StringType, None, StrLen(t))
  }

  /** A value reaches the server as it should exactly when it is carried. */
  lemma ArrivesIff(v: Value, flag: nat, blocks: map<nat, Bytes>)
    requires flag in blocks && blocks[flag] == [1]
    ensures Reads(blocks, BindingFor(v, flag)) == Wanted(v) <==> Carried(v)
  {
    match v
    case Str(s) => TextIff(s);
    case Number(t) => TextIff(t);
    case Data(d) => assert d[..|d|] == d;
    case Null =>
    case Other(_) =>
  }

  lemma TextIff(s: Bytes)
    ensures s[..StrLen(s)] == s <==> 0 !in s
  {
    if 0 !in s { assert s[..|s|] == s; }
  }

  method BindValue(v: Value, heap: Heap) returns (b: Binding)
    requires heap.Valid()
    modifies heap
    ensures heap.Valid() && b == BindingFor(v, old(heap.next))
    ensures heap.blocks == if v.Null? then old(heap.blocks)[old(heap.next) := [1]] else old(heap.blocks)
    ensures heap.next == old(heap.next) + if v.Null? then 1 else 0
  {
    b := ZERO_BINDING;
    if v.Str? {
      b := b.(isNull := None, bufferType := StringType, buffer := Some(v.utf8), length := StrLen(v.utf8));
    } else if v.Data? {
      b := b.(isNull := None, bufferType := BlobType, buffer := Some(v.bytes), length := |v.bytes|);
    } else if v.Number? {
      b := b.(isNull := None, bufferType := StringType, buffer := Some(v.text), length := StrLen(v.text));
    } else if v.Null? {
      var aBool := heap.Calloc(1, 1);
      heap.Write(aBool, [1]);
      b := b.(isNull := Some(aBool));
    } else {
      b := b.(isNull := None, bufferType := StringType, length := StrLen(v.text));
    }
  }

  // ---- All the bindings of a statement

  /** The addresses of the null flags of the values before `n`, the first of them at `base`. */
  function FlagAt(vs: seq<Value>, base: nat, n: nat): nat
    requires n <= |vs|
  {
    if n == 0 then base else FlagAt(vs, base, n - 1) + if vs[n - 1].Null? then 1 else 0
  }

  function Bindings(vs: seq<Value>, base: nat, n: nat): (bs: seq<Binding>)
    requires n <= |vs|
    ensures |bs| == n
  {
    if n == 0 then [] else Bindings(vs, base, n - 1) + [BindingFor(vs[n - 1], FlagAt(vs, base, n - 1))]
  }

  lemma {:induction false} BindingAt(vs: seq<Value>, base: nat, n: nat, i: nat)
    requires i < n <= |vs|
    ensures Bindings(vs, base, n)[i] == BindingFor(vs[i], FlagAt(vs, base, i))
  {
    if i < n - 1 { BindingAt(vs, base, n - 1, i); }
  }

  lemma {:induction false} FlagAtGrows(vs: seq<Value>, base: nat, i: nat, n: nat)
    requires i <= n <= |vs|
    ensures base <= FlagAt(vs, base, i) <= FlagAt(vs, base, n)
    ensures i < n && vs[i].Null? ==> FlagAt(vs, base, i) < FlagAt(vs, base, n)
    decreases n
  {
    if i < n {
      FlagAtGrows(vs, base, i, n - 1);
    } else if n > 0 {
      FlagAtGrows(vs, base, n - 1, n - 1);
    }
  }

  /** `blocks` is `was` with every flag from `from` up to `to` set. */
  ghost predicate FlagsSet(was: map<nat, Bytes>, blocks: map<nat, Bytes>, from: nat, to: nat) {
    && (forall p: nat :: p in blocks <==> p in was || from <= p < to)
    && (forall p | p in was && !(from <= p < to) :: blocks[p] == was[p])
    && (forall p: nat | from <= p < to :: blocks[p] == [1])
  }

  /** What `execute` hands to the server: the bytes of the text, and what the placeholders read as at that moment. */
  datatype Sent = Sent(text: Bytes, params: seq<Param>)

  function ReadsAll(blocks: map<nat, Bytes>, bs: seq<Binding>): (ps: seq<Param>)
    ensures |ps| == |bs| && forall i | 0 <= i < |bs| :: ps[i] == Reads(blocks, bs[i])
  {
    seq(|bs|, i requires 0 <= i < |bs| => Reads(blocks, bs[i]))
  }

  /** The x-th placeholder carries the x-th value. */
  lemma AllArrive(vs: seq<Value>, base: nat, was: map<nat, Bytes>, blocks: map<nat, Bytes>)
    requires FlagsSet(was, blocks, base, FlagAt(vs, base, |vs|))
    ensures forall i | 0 <= i < |vs| ::
              Reads(blocks, BindingFor(vs[i], FlagAt(vs, base, i))) == Wanted(vs[i]) <==> Carried(vs[i])
  {
    forall i | 0 <= i < |vs|
      ensures Reads(blocks, BindingFor(vs[i], FlagAt(vs, base, i))) == Wanted(vs[i]) <==> Carried(vs[i])
    {
      var p := FlagAt(vs, base, i);
      FlagAtGrows(vs, base, i, |vs|);
      if vs[i].Null? {
        assert base <= p < FlagAt(vs, base, |vs|);
        ArrivesIff(vs[i], p, blocks);
      } else {
        ArrivesIff(vs[i], p, blocks[p := [1]]);
      }
    }
  }

  // ---- A row and the statement made of it

  /** What the client library answers to prepare, bind, execute and close. */
  datatype Answers = AllWell | PrepareFails | BindFails | ExecuteFails | CloseFails

  datatype Reason = NoTable | NoRowData | OutOfRange | Library(answers: Answers)

  /** Either an exception, or a completed statement with what the server saw of it. */
  datatype Outcome = Raised(reason: Reason) | Done(sent: Sent)

  function Escaped(esc: string -> string, keys: seq<string>): (names: seq<string>)
    ensures |names| == |keys|
  {
    seq(|keys|, i requires 0 <= i < |keys| => esc(keys[i]))
  }

  predicate InRow<V>(keys: seq<string>, row: map<string, V>) {
    forall i | 0 <= i < |keys| :: keys[i] in row
  }

  /** The x-th name printed is the x-th key, escaped. */
  lemma EscapedAt(esc: string -> string, keys: seq<string>, x: nat)
    requires x < |keys|
    ensures Escaped(esc, keys)[x] == esc(keys[x])
  {
  }

  /** `keys` lists every key of `row` once, in whatever order `allKeys` gives them. */
  ghost predicate KeysOf<V>(keys: seq<string>, row: map<string, V>) {
    && InRow(keys, row)
    && (forall k | k in row :: k in keys)
    && (forall i, j | 0 <= i < j < |keys| :: keys[i] != keys[j])
  }

  function ValuesOf(keys: seq<string>, row: map<string, Value>): (vs: seq<Value>)
    requires InRow(keys, row)
    ensures |vs| == |keys| && forall i | 0 <= i < |keys| :: vs[i] == row[keys[i]]
  {
    seq(|keys|, i requires 0 <= i < |keys| => row[keys[i]])
  }

  /** The placeholders carry the row in key order, each exactly as far as its value can be carried. */
  ghost predicate CarriesRow(params: seq<Param>, keys: seq<string>, row: map<string, Value>) {
    && |params| == |keys|
    && InRow(keys, row)
    && forall i | 0 <= i < |keys| :: params[i] == Wanted(row[keys[i]]) <==> Carried(row[keys[i]])
  }

  lemma RowArrives(keys: seq<string>, row: map<string, Value>, base: nat, was: map<nat, Bytes>, blocks: map<nat, Bytes>)
    requires InRow(keys, row)
    requires FlagsSet(was, blocks, base, FlagAt(ValuesOf(keys, row), base, |keys|))
    ensures CarriesRow(ReadsAll(blocks, Bindings(ValuesOf(keys, row), base, |keys|)), keys, row)
  {
    var vs := ValuesOf(keys, row);
    AllArrive(vs, base, was, blocks);
    forall i | 0 <= i < |keys|
      ensures Bindings(vs, base, |keys|)[i] == BindingFor(vs[i], FlagAt(vs, base, i))
    {
      BindingAt(vs, base, |keys|, i);
    }
  }

  /** What each column is given when the x-th placeholder belongs to the x-th column. */
  function Assigned(columns: seq<string>, params: seq<Param>): map<string, Param>
    requires |columns| == |params|
  {
    if columns == [] then map[]
    else
      var k := |columns| - 1;
      Assigned(columns[..k], params[..k])[columns[k] := params[k]]
  }

  lemma {:induction false} AssignedAt(columns: seq<string>, params: seq<Param>, i: nat)
    requires |columns| == |params| && i < |columns|
    requires forall i, j | 0 <= i < j < |columns| :: columns[i] != columns[j]
    ensures columns[i] in Assigned(columns, params) && Assigned(columns, params)[columns[i]] == params[i]
  {
    var k := |columns| - 1;
    if i < k {
      AssignedAt(columns[..k], params[..k], i);
      assert columns[..k][i] == columns[i] && params[..k][i] == params[i];
    }
  }

  lemma {:induction false} AssignedKeys(columns: seq<string>, params: seq<Param>, c: string)
    requires |columns| == |params|
    ensures c in Assigned(columns, params) <==> c in columns
  {
    if columns != [] {
      var k := |columns| - 1;
      AssignedKeys(columns[..k], params[..k], c);
      assert columns == columns[..k] + [columns[k]];
    }
  }

  ghost function WantedRow(row: map<string, Value>): map<string, Param> {
    map c | c in row :: Wanted(row[c])
  }

  /** In whatever order the keys come, the row arrives as it is exactly when each of its values can be carried. */
  lemma RowArrivesIff(keys: seq<string>, row: map<string, Value>, params: seq<Param>)
    requires KeysOf(keys, row) && CarriesRow(params, keys, row)
    ensures Assigned(keys, params) == WantedRow(row) <==> forall c | c in row :: Carried(row[c])
  {
    var got := Assigned(keys, params);
    forall c ensures c in got <==> c in row { AssignedKeys(keys, params, c); }
    forall c | c in row ensures got[c] == Wanted(row[c]) <==> Carried(row[c]) {
      var i :| 0 <= i < |keys| && keys[i] == c;
      AssignedAt(keys, params, i);
    }
    if forall c | c in row :: Carried(row[c]) {
      assert forall c | c in row :: got[c] == WantedRow(row)[c];
    } else {
      var c :| c in row && !Carried(row[c]);
      assert got[c] != WantedRow(row)[c];
    }
  }

  lemma WordsKept(esc: string -> string, names: seq<string>)
    requires KeepsWords(esc) && forall i | 0 <= i < |names| :: IsWord(names[i])
    ensures Escaped(esc, names) == names
  {
  }

  /** One more binding leaves the flags set as far as it goes. */
  lemma FlagsGrow(was: map<nat, Bytes>, blocks: map<nat, Bytes>, from: nat, to: nat)
    requires FlagsSet(was, blocks, from, to) && from <= to
    ensures FlagsSet(was, blocks[to := [1]], from, to + 1)
  {
  }

  lemma FlagsShrink(was: map<nat, Bytes>, blocks: map<nat, Bytes>, from: nat, to: nat)
    requires FlagsSet(was, blocks, from, to) && from < to && from !in was
    ensures from in blocks && FlagsSet(was, blocks - {from}, from + 1, to)
  {
  }

  /** The binding loop before its turn `x`: the first `x` values are bound, and a flag is set for each null. */
  ghost predicate BoundSoFar(vs: seq<Value>, bs: seq<Binding>, was: map<nat, Bytes>, blocks: map<nat, Bytes>,
                             base: nat, next: nat, x: nat)
    requires x <= |vs| && x <= |bs|
  {
    base <= next == FlagAt(vs, base, x) && FlagsSet(was, blocks, base, next) && bs[..x] == Bindings(vs, base, x)
  }

  /** The body of the binding loop. */
  method BindColumn(keys: seq<string>, row: map<string, Value>, binding: array<Binding>, heap: Heap, x: nat,
                    ghost base: nat, ghost was: map<nat, Bytes>)
    requires heap.Valid() && x < |keys| == binding.Length && InRow(keys, row)
    requires BoundSoFar(ValuesOf(keys, row), binding[..], was, heap.blocks, base, heap.next, x)
    modifies heap, binding
    ensures heap.Valid()
    ensures BoundSoFar(ValuesOf(keys, row), binding[..], was, heap.blocks, base, heap.next, x + 1)
  {
    FlagsGrow(was, heap.blocks, base, heap.next);
    ghost var before := binding[..][..x];
    binding[x] := BindValue(row[keys[x]], heap);
    assert binding[..][..x + 1] == before + [binding[x]];
  }

  /** The loop at the end of `execute`: the flags go, and with them all that binding allocated. */
  method FreeFlags(keys: seq<string>, row: map<string, Value>, binding: array<Binding>, heap: Heap,
                   ghost base: nat, ghost was: map<nat, Bytes>)
    requires heap.Valid() && InRow(keys, row)
    requires binding.Length == |keys| && binding[..] == Bindings(ValuesOf(keys, row), base, |keys|)
    requires FlagsSet(was, heap.blocks, base, FlagAt(ValuesOf(keys, row), base, |keys|))
    requires forall p | p in was :: p < base
    modifies heap
    ensures heap.Valid() && heap.blocks == was
  {
    ghost var vs := ValuesOf(keys, row);
    ghost var end := FlagAt(vs, base, |keys|);
    for x := 0 to |keys|
      invariant heap.Valid()
      invariant FlagsSet(was, heap.blocks, FlagAt(vs, base, x), end)
    {
      FlagAtGrows(vs, base, x, |keys|);
      BindingAt(vs, base, |keys|, x);
      assert binding[x] == binding[..][x];
      if row[keys[x]].Null? {
        FlagsShrink(was, heap.blocks, FlagAt(vs, base, x), end);
        heap.Free(binding[x].isNull.value);
      }
    }
  }
}
