/** MysqlInsert.m: the text and the bindings of an INSERT, and the memory they need. */
module MysqlInsert {
  import opened CHeap
  import opened MysqlBind
  import opened SqlText
  import opened StatementText

  /** Items as the loop with `firstAdd` prints them. */
  function Listed(items: seq<string>): string {
    if items == [] then "" else
      var k := |items| - 1;
      Listed(items[..k]) + (if k == 0 then " " else ", ") + items[k] + " "
  }

  function Marks(n: nat): (ms: seq<string>)
    ensures |ms| == n && forall i | 0 <= i < n :: ms[i] == "?"
  {
    seq(n, i => "?")
  }

  function InsertText(table: string, names: seq<string>): string {
    "INSERT INTO " + table + " ( " + Listed(names) + " ) values ( " + Listed(Marks(|names|)) + " ) "
  }

  class MysqlInsert {
    var table: Option<string>
    var rowData: Option<map<string, Value>>

    constructor ()
      ensures table == None && rowData == None
    {
      table, rowData := None, None;
    }

    /** One turn of either loop: the item with a comma before it unless it is the first. */
    method AppendItem(cmd: string, firstAdd: bool, item: string,
                      ghost head: string, ghost items: seq<string>, ghost x: nat)
      returns (r: string)
      requires x < |items| && item == items[x] && (firstAdd <==> x == 0) && cmd == head + Listed(items[..x])
      ensures r == head + Listed(items[..x + 1])
    {
      assert items[..x + 1][..x] == items[..x];
      if firstAdd {
        r := cmd + " " + item + " ";
      } else {
        r := cmd + ", " + item + " ";
      }
    }

    method BuildText(table: string, keys: seq<string>, esc: string -> string) returns (cmd: string)
      ensures cmd == InsertText(table, Escaped(esc, keys))
    {
      ghost var names := Escaped(esc, keys);
      ghost var marks := Marks(|names|);
      cmd := "INSERT INTO " + table + " ( ";
      ghost var head := cmd;
      var firstAdd := true;
      for x := 0 to |keys|
        invariant firstAdd <==> x == 0
        invariant cmd == head + Listed(names[..x])
      {
        cmd := AppendItem(cmd, firstAdd, esc(keys[x]), head, names, x);
        firstAdd := false;
      }
      assert names[..|keys|] == names;
      cmd := cmd + " ) values ( ";
      ghost var middle := cmd;
      firstAdd := true;
      for x := 0 to |keys|
        invariant firstAdd <==> x == 0
        invariant cmd == middle + Listed(marks[..x])
      {
        cmd := AppendItem(cmd, firstAdd, "?", middle, marks, x);
        firstAdd := false;
      }
      assert marks[..|keys|] == marks;
      cmd := cmd + " ) ";
    }

    method BindRow(keys: seq<string>, row: map<string, Value>, binding: array<Binding>, heap: Heap)
      requires heap.Valid() && binding.Length == |keys| && InRow(keys, row)
      modifies heap, binding
      ensures heap.Valid() && binding[..] == Bindings(ValuesOf(keys, row), old(heap.next), |keys|)
      ensures FlagsSet(old(heap.blocks), heap.blocks, old(heap.next), heap.next)
      ensures heap.next == FlagAt(ValuesOf(keys, row), old(heap.next), |keys|)
    {
      ghost var base, was := heap.next, heap.blocks;
      for x := 0 to |keys|
        invariant heap.Valid()
        invariant BoundSoFar(ValuesOf(keys, row), binding[..], was, heap.blocks, base, heap.next, x)
      {
        BindColumn(keys, row, binding, heap, x, base, was);
      }
      assert binding[..][..|keys|] == binding[..];
    }

    method Execute(keys: seq<string>, esc: string -> string, heap: Heap, bindSize: nat, answers: Answers)
      returns (r: Outcome)
      requires heap.Valid()
      requires rowData.Some? ==> KeysOf(keys, rowData.value)
      modifies heap
      ensures heap.Valid()
      ensures r.Done? <==> table.Some? && rowData.Some? && answers.AllWell?
      ensures table.None? ==> r == Raised(NoTable)
      ensures table.Some? && rowData.None? ==> r == Raised(NoRowData)
      ensures table.Some? && rowData.Some? && !answers.AllWell? ==> r == Raised(Library(answers))
      ensures r.Done? ==> heap.blocks == old(heap.blocks)
      ensures r.Done? ==> r.sent.text == Prepared(InsertText(table.value, Escaped(esc, keys)))
      ensures r.Done? ==> CarriesRow(r.sent.params, keys, rowData.value)
    {
      if table.None? {
        return Raised(NoTable);
      }
      if rowData.None? {
        return Raised(NoRowData);
      }
      var cmd := BuildText(table.value, keys, esc);
      if answers.PrepareFails? {
        return Raised(Library(answers));
      }
      var block := heap.Calloc(bindSize, |keys|);
      ghost var base, was := heap.next, heap.blocks;
      var binding := new Binding[|keys|](_ => ZERO_BINDING);
      BindRow(keys, rowData.value, binding, heap);
      if answers.BindFails? {
        return Raised(Library(answers));
      }
      var sent := Sent(Prepared(cmd), ReadsAll(heap.blocks, binding[..]));
      RowArrives(keys, rowData.value, base, was, heap.blocks);
      if answers.ExecuteFails? || answers.CloseFails? {
        return Raised(Library(answers));
      }
      FreeFlags(keys, rowData.value, binding, heap, base, was);
      Freed(old(heap.blocks), block, was[block]);
      heap.Free(block);
      return Done(sent);
    }
  }

  // ---- Reading back

  predicate IsListItem(item: string) {
    item == "?" || IsWord(item)
  }

  function ItemToken(item: string): Token {
    if item == "?" then Mark else Word(item)
  }

  function ItemTokens(items: seq<string>): (ts: seq<Token>)
    ensures |ts| == |items| && forall i | 0 <= i < |items| :: ts[i] == ItemToken(items[i])
  {
    seq(|items|, i requires 0 <= i < |items| => ItemToken(items[i]))
  }

  lemma LexesItem(read: Reader, item: string)
    requires IsListItem(item)
    ensures Lexes(read, item, [ItemToken(item)], false)
  {
    if item == "?" {
      LexesChar(read, '?');
      assert item == ['?'];
    } else {
      LexesWord(read, item);
    }
  }

  /** One more item after `before`, with the separators around it. */
  lemma LexesNext(read: Reader, before: string, ts: seq<Token>, item: string)
    requires Lexes(read, before, CommaList(ts), true) && IsListItem(item) && ts != []
    ensures Lexes(read, before + ", " + item + " ", CommaList(ts + [ItemToken(item)]), true)
  {
    var t := CommaList(ts) + [Comma];
    LexesThenChar(read, before, CommaList(ts), true, ',');
    LexesThenChar(read, before + [','], t, true, ' ');
    LexesItem(read, item);
    LexesBoth(read, before + [','] + [' '], t + [], true, item, [ItemToken(item)], false);
    LexesThenChar(read, before + [','] + [' '] + item, t + [] + [ItemToken(item)], false, ' ');
    CommaListSnoc(ts, ItemToken(item));
    Associative(before, [','], [' ']);
    assert [','] + [' '] == ", ";
    Associative(CommaList(ts), [Comma], [ItemToken(item)]);
    assert [Comma] + [ItemToken(item)] == [Comma, ItemToken(item)];
    assert t + [] == t && t + [ItemToken(item)] + [] == t + [ItemToken(item)];
  }

  lemma LexesFirst(read: Reader, item: string)
    requires IsListItem(item)
    ensures Lexes(read, " " + item + " ", [ItemToken(item)], true)
  {
    LexesChar(read, ' ');
    LexesItem(read, item);
    LexesBoth(read, [' '], [], true, item, [ItemToken(item)], false);
    LexesThenChar(read, [' '] + item, [] + [ItemToken(item)], false, ' ');
    assert [] + [ItemToken(item)] + [] == [ItemToken(item)];
  }

  lemma {:induction false} LexesListed(read: Reader, items: seq<string>)
    requires forall i | 0 <= i < |items| :: IsListItem(items[i])
    ensures Lexes(read, Listed(items), CommaList(ItemTokens(items)), true)
    decreases |items|
  {
    if items == [] {
      LexesNothing(read);
    } else {
      var k := |items| - 1;
      LexesListed(read, items[..k]);
      ItemTokensSnoc(items);
      if k == 0 {
        LexesFirst(read, items[0]);
        OneListed(items);
      } else {
        LexesNext(read, Listed(items[..k]), ItemTokens(items[..k]), items[k]);
      }
    }
  }

  lemma ItemTokensSnoc(items: seq<string>)
    requires items != []
    ensures ItemTokens(items) == ItemTokens(items[..|items| - 1]) + [ItemToken(items[|items| - 1])]
  {
  }

  lemma OneListed(items: seq<string>)
    requires |items| == 1
    ensures Listed(items) == " " + items[0] + " "
  {
    assert Listed(items[..0]) == "";
    assert "" + " " == " ";
  }

  lemma LexesNothing(read: Reader)
    ensures Lexes(read, "", [], true)
  {
    forall rest ensures Lex(read, "" + rest) == [] + Lex(read, rest) {
      assert "" + rest == rest;
    }
  }

  /** A parenthesis with the spaces around it. */
  lemma LexesSpaced(read: Reader, c: char)
    requires Separator(c) && c != '\''
    ensures Lexes(read, [' ', c, ' '], Single(c), true)
  {
    LexesChar(read, ' ');
    LexesThenChar(read, [' '], [], true, c);
    LexesThenChar(read, [' '] + [c], [] + Single(c), true, ' ');
    assert [' '] + [c] + [' '] == [' ', c, ' '];
    assert [] + Single(c) + [] == Single(c);
  }

  function Parens(list: string): string {
    " ( " + list + " ) "
  }

  /** A list with its parentheses. */
  lemma LexesParenthesised(read: Reader, items: seq<string>)
    requires forall i | 0 <= i < |items| :: IsListItem(items[i])
    ensures Lexes(read, Parens(Listed(items)), [Open] + CommaList(ItemTokens(items)) + [Close], true)
  {
    var list, ts := Listed(items), CommaList(ItemTokens(items));
    LexesSpaced(read, '(');
    LexesSpaced(read, ')');
    LexesListed(read, items);
    LexesBoth(read, " ( ", [Open], true, list, ts, true);
    LexesBoth(read, " ( " + list, [Open] + ts, true, " ) ", [Close], true);
  }

  function Words(names: seq<string>): (ts: seq<Token>)
    ensures |ts| == |names| && forall i | 0 <= i < |names| :: ts[i] == Word(names[i])
  {
    seq(|names|, i requires 0 <= i < |names| => Word(names[i]))
  }

  lemma WordsAreItems(names: seq<string>)
    requires forall i | 0 <= i < |names| :: IsWord(names[i])
    ensures ItemTokens(names) == Words(names)
  {
    forall i | 0 <= i < |names| ensures names[i] != "?" {
      assert Plain(names[i][0]);
    }
  }

  /** What an INSERT says: the table, its columns in order, and a placeholder for each. */
  function InsertOf(table: string, names: seq<string>): (i: Insert)
    ensures i.table == table && |i.columns| == |i.values| == |names|
    ensures forall x | 0 <= x < |names| :: i.columns[x] == Word(names[x]) && i.values[x] == Mark
  {
    Insert(table, Words(names), seq(|names|, i => Mark))
  }

  lemma LexesInto(read: Reader, table: string)
    requires IsWord(table)
    ensures Lexes(read, "INSERT INTO " + table, [Word("INSERT"), Word("INTO"), Word(table)], false)
  {
    LexesWord(read, "INSERT");
    LexesThenChar(read, "INSERT", [Word("INSERT")], false, ' ');
    LexesThenWord(read, "INSERT" + [' '], [Word("INSERT")] + [], "INTO");
    LexesThenChar(read, "INSERT" + [' '] + "INTO", [Word("INSERT")] + [] + [Word("INTO")], false, ' ');
    LexesThenWord(read, "INSERT" + [' '] + "INTO" + [' '], [Word("INSERT")] + [] + [Word("INTO")] + [], table);
    assert "INSERT" + [' '] + "INTO" + [' '] == "INSERT INTO ";
    assert [Word("INSERT")] + [] + [Word("INTO")] + [] + [Word(table)] == [Word("INSERT"), Word("INTO"), Word(table)];
  }

  lemma InsertTextParts(into: string, l1: string, l2: string)
    ensures into + " ( " + l1 + " ) values ( " + l2 + " ) " == into + Parens(l1) + "values" + Parens(l2)
  {
    Associative(into, " ( ", l1);
    Associative(into, " ( " + l1, " ) ");
    assert " ) values ( " == " ) " + "values" + " ( ";
  }

  lemma LexesInsert(read: Reader, table: string, names: seq<string>)
    requires IsWord(table) && forall i | 0 <= i < |names| :: IsWord(names[i])
    ensures Lex(read, InsertText(table, names)) == InsertTokens(InsertOf(table, names))
  {
    var marks := Marks(|names|);
    var s1, t1 := "INSERT INTO " + table, [Word("INSERT"), Word("INTO"), Word(table)];
    var s2, t2 := Parens(Listed(names)), [Open] + CommaList(Words(names)) + [Close];
    var s3, t3 := Parens(Listed(marks)), [Open] + CommaList(ItemTokens(marks)) + [Close];
    LexesInto(read, table);
    WordsAreItems(names);
    LexesParenthesised(read, names);
    LexesParenthesised(read, marks);
    LexesAll(read, s1, t1, s2, t2, s3, t3);
    assert ItemTokens(marks) == seq(|names|, i => Mark);
    InsertTextParts(s1, Listed(names), Listed(marks));
  }

  lemma LexesAll(read: Reader, s1: string, t1: seq<Token>, s2: string, t2: seq<Token>, s3: string, t3: seq<Token>)
    requires Lexes(read, s1, t1, false) && Lexes(read, s2, t2, true) && Lexes(read, s3, t3, true)
    requires s2 != "" && Ends(s2) && s3 != "" && Ends(s3)
    ensures Lex(read, s1 + s2 + "values" + s3) == t1 + t2 + [Word("values")] + t3
  {
    LexesBoth(read, s1, t1, false, s2, t2, true);
    LexesThenWord(read, s1 + s2, t1 + t2, "values");
    LexesBoth(read, s1 + s2 + "values", t1 + t2 + [Word("values")], false, s3, t3, true);
    LexesWhole(read, s1 + s2 + "values" + s3, t1 + t2 + [Word("values")] + t3, true);
  }

  /** The text of an INSERT reads back to its table, its columns in order, and a placeholder for each. */
  lemma InsertReadsBack(read: Reader, table: string, names: seq<string>)
    requires IsWord(table) && forall i | 0 <= i < |names| :: IsWord(names[i])
    ensures ReadInsert(Lex(read, InsertText(table, names))) == Some(InsertOf(table, names))
  {
    LexesInsert(read, table, names);
    TokensReadBack(InsertOf(table, names));
  }

  lemma TokensReadBack(i: Insert)
    requires forall x | 0 <= x < |i.columns| :: IsItem(i.columns[x])
    requires forall x | 0 <= x < |i.values| :: IsItem(i.values[x])
    ensures ReadInsert(InsertTokens(i)) == Some(i)
  {
    var head := [Word("INSERT"), Word("INTO"), Word(i.table)];
    var l1, l2 := ListTokens(i.columns), ListTokens(i.values);
    var tail := [Word("values")] + l2;
    Associative(head + l1, [Word("values")], l2);
    Associative(head, l1, tail);
    Dropped(head, l1 + tail);
    Dropped([Word("values")], l2);
    ListReadsBack(i.columns, tail);
    ListReadsBack(i.values, []);
    assert l2 + [] == l2;
    var ts := head + (l1 + tail);
    assert ts[..2] == [Word("INSERT"), Word("INTO")] && ts[2] == Word(i.table);
  }

  // ---- What the server reads

  function ServerInsert(read: Reader, text: Bytes): Option<Insert> {
    match ServerTokens(read, text)
    case None => None
    case Some(ts) => ReadInsert(ts)
  }

  /** The text without the space at its end. */
  lemma InsertEnds(table: string, names: seq<string>) returns (core: string)
    ensures InsertText(table, names) == core + " " && core != "" && core[|core| - 1] == ')'
  {
    var before := "INSERT INTO " + table + " ( " + Listed(names) + " ) values ( " + Listed(Marks(|names|));
    core := before + " )";
    Associative(before, " )", " ");
    assert " )" + " " == " ) ";
  }

  /** The server reads the statement that was meant exactly when at most one byte of its text is in excess
      of its UTF-16 units: the text ends in a space that may be lost, and in a parenthesis that may not. */
  lemma InsertArrivesIff(read: Reader, table: string, names: seq<string>)
    requires Scans(read) && IsWord(table) && forall i | 0 <= i < |names| :: IsWord(names[i])
    ensures ServerInsert(read, Prepared(InsertText(table, names))) == Some(InsertOf(table, names))
            <==> Excess(InsertText(table, names)) <= 1
  {
    var i, cmd := InsertOf(table, names), InsertText(table, names);
    var core := InsertEnds(table, names);
    LexesInsert(read, table, names);
    TokensReadBack(i);
    InsertClean(i);
    OneSpace(core);
    TokensArriveIff(read, cmd);
    match ServerTokens(read, Prepared(cmd))
    case Some(ts) => if ReadInsert(ts).Some? { InsertReadIs(ts); }
    case None =>
  }

  /** The names of columns as the server reads them. */
  function NamesIn(columns: seq<Token>): (names: seq<string>)
    ensures |names| == |columns|
    ensures forall x | 0 <= x < |columns| && columns[x].Word? :: names[x] == columns[x].w
  {
    seq(|columns|, x requires 0 <= x < |columns| => if columns[x].Word? then columns[x].w else "")
  }

  /** The whole of an INSERT: what the server reads, and what the columns it reads are given. */
  lemma InsertArrives(read: Reader, esc: string -> string, table: string, keys: seq<string>, row: map<string, Value>,
                      sent: Sent)
    requires KeysOf(keys, row) && CarriesRow(sent.params, keys, row)
    requires sent.text == Prepared(InsertText(table, Escaped(esc, keys)))
    requires Scans(read) && KeepsWords(esc) && IsWord(table) && forall i | 0 <= i < |keys| :: IsWord(keys[i])
    ensures var i := ServerInsert(read, sent.text);
            && (i == Some(InsertOf(table, keys)) <==> Excess(InsertText(table, keys)) <= 1)
            && (Excess(InsertText(table, keys)) <= 1 ==>
                  && i.value.table == table && |i.value.columns| == |i.value.values| == |sent.params|
                  && (Assigned(NamesIn(i.value.columns), sent.params) == WantedRow(row) <==>
                        forall c | c in row :: Carried(row[c])))
  {
    WordsKept(esc, keys);
    InsertArrivesIff(read, table, keys);
    RowArrivesIff(keys, row, sent.params);
    assert NamesIn(InsertOf(table, keys).columns) == keys;
  }

  /** The text for two columns, character by character. */
  lemma TwoColumnsText(table: string, a: string, b: string)
    ensures InsertText(table, [a, b]) == "INSERT INTO " + table + " (  " + a + " , " + b + "  ) values (  ? , ?  ) "
  {
    TwoListed(a, b);
    assert Marks(2) == ["?", "?"];
    TwoListed("?", "?");
    assert " " + "?" + " , " + "?" + " " == " ? , ? ";
    var head := "INSERT INTO " + table;
    assert head + " ( " + (" " + a + " , " + b + " ") + " ) values ( " + " ? , ? " + " ) " ==
           head + " (  " + a + " , " + b + "  ) values (  ? , ?  ) ";
  }

  lemma TwoListed(a: string, b: string)
    ensures Listed([a, b]) == " " + a + " , " + b + " "
  {
    OneListed([a]);
    assert [a, b][..1] == [a];
  }

  // ---- Letters outside ASCII

  /** The text around one column. */
  lemma OneColumn(name: string)
    ensures Excess(InsertText("t", [name])) == Excess(name)
  {
    OneListed([name]);
    OneListed(Marks(1));
    var head, tail := "INSERT INTO t (  ", "  ) values (  ?  ) ";
    assert InsertText("t", [name]) == head + name + tail;
    ExcessInside(head, name, tail);
  }

  lemma OneColumnArrivesIff(read: Reader, name: string)
    requires Scans(read) && IsWord(name)
    ensures ServerInsert(read, Prepared(InsertText("t", [name]))) == Some(InsertOf("t", [name])) <==> Excess(name) <= 1
  {
    OneColumn(name);
    InsertArrivesIff(read, "t", [name]);
  }

  /** A column named by one letter of two bytes arrives; one named by two does not. */
  lemma OneLetterArrivesTwoDoNot(read: Reader)
    requires Scans(read)
    ensures ServerInsert(read, Prepared(InsertText("t", ["\U{E9}"]))) == Some(InsertOf("t", ["\U{E9}"]))
    ensures ServerInsert(read, Prepared(InsertText("t", ["\U{E9}\U{E9}"]))) != Some(InsertOf("t", ["\U{E9}\U{E9}"]))
  {
    TwoByteLetters();
    OneColumnArrivesIff(read, "\U{E9}");
    OneColumnArrivesIff(read, "\U{E9}\U{E9}");
  }

  /** Nor does one named by a letter of three bytes. */
  lemma ThreeByteLetterDoesNotArrive(read: Reader)
    requires Scans(read)
    ensures ServerInsert(read, Prepared(InsertText("t", ["\U{540D}"]))) != Some(InsertOf("t", ["\U{540D}"]))
  {
    ThreeByteLetter();
    OneColumnArrivesIff(read, "\U{540D}");
  }
}
