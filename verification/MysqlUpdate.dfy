/** MysqlUpdate.m: the text and the bindings of an UPDATE, and the rows its WHERE picks. */
module MysqlUpdate {
  import opened CHeap
  import opened MysqlBind
  import opened SqlText
  import opened StatementText

  /** A qualifier's value by the class the loop tests for; anything else goes by its description. */
  datatype Term = Text(s: string) | NullTerm | NumberTerm(n: string) | OtherTerm(description: string)

  function ConditionText(esc: string -> string, key: string, t: Term): string {
    match t
    case Text(s) => esc(key) + "='" + esc(s) + "' "
    case NullTerm => esc(key) + " is null "
    case NumberTerm(n) => esc(key) + "=" + n + " "
    case OtherTerm(d) => esc(key) + "='" + esc(d) + "' "
  }

  /** The column pairs with a separator before each, and the conditions likewise. */
  function Pairs(names: seq<string>): string {
    if names == [] then "" else
      var k := |names| - 1;
      Pairs(names[..k]) + ", " + names[k] + "=?"
  }

  function Joined(texts: seq<string>): string {
    if texts == [] then "" else
      var k := |texts| - 1;
      Joined(texts[..k]) + "AND " + texts[k]
  }

  function ConditionTexts(esc: string -> string, keys: seq<string>, q: map<string, Term>): (ts: seq<string>)
    requires InRow(keys, q)
    ensures |ts| == |keys| && forall i | 0 <= i < |keys| :: ts[i] == ConditionText(esc, keys[i], q[keys[i]])
  {
    seq(|keys|, i requires 0 <= i < |keys| => ConditionText(esc, keys[i], q[keys[i]]))
  }

  lemma Lengths(names: seq<string>, texts: seq<string>)
    ensures |Pairs(names)| >= 2 <==> names != []
    ensures |Joined(texts)| >= 4 <==> texts != []
  {
  }

  /** `deleteCharactersInRange:NSMakeRange(0, n)`, which raises when there are fewer. */
  function DeletePrefix(s: string, n: nat): (r: Option<string>)
    ensures r.Some? <==> n <= |s|
    ensures r.Some? ==> s == s[..n] + r.value
  {
    if n <= |s| then Some(s[n..]) else None
  }

  function TableText(table: Option<string>): string {
    if table.Some? then table.value else "(null)"
  }

  function UpdateText(esc: string -> string, table: string, keys: seq<string>,
                      where: seq<string>, q: map<string, Term>): string
    requires keys != [] && where != [] && InRow(where, q)
  {
    Lengths(Escaped(esc, keys), ConditionTexts(esc, where, q));
    "UPDATE " + table + " set " + Pairs(Escaped(esc, keys))[2..] + " WHERE " +
    Joined(ConditionTexts(esc, where, q))[4..]
  }

  class MysqlUpdate {
    var table: Option<string>
    var rowData: map<string, Value>      // nil has no keys either
    var qualifier: map<string, Term>

    constructor ()
      ensures table == None && rowData == map[] && qualifier == map[]
    {
      table, rowData, qualifier := None, map[], map[];
    }

    method AppendPair(columnPairs: string, esc: string -> string, keys: seq<string>, x: nat) returns (r: string)
      requires x < |keys| && columnPairs == Pairs(Escaped(esc, keys)[..x])
      ensures r == Pairs(Escaped(esc, keys)[..x + 1])
    {
      ghost var names := Escaped(esc, keys);
      assert names[..x + 1][..x] == names[..x];
      var escapeKey := esc(keys[x]);
      r := columnPairs + ", " + escapeKey + "=?";
    }

    method BindPairs(keys: seq<string>, row: map<string, Value>, esc: string -> string,
                     binding: array<Binding>, heap: Heap)
      returns (columnPairs: string)
      requires heap.Valid() && binding.Length == |keys| && InRow(keys, row)
      modifies heap, binding
      ensures columnPairs == Pairs(Escaped(esc, keys))
      ensures heap.Valid() && binding[..] == Bindings(ValuesOf(keys, row), old(heap.next), |keys|)
      ensures FlagsSet(old(heap.blocks), heap.blocks, old(heap.next), heap.next)
      ensures heap.next == FlagAt(ValuesOf(keys, row), old(heap.next), |keys|)
    {
      ghost var base, was := heap.next, heap.blocks;
      columnPairs := "";
      for x := 0 to |keys|
        invariant heap.Valid()
        invariant BoundSoFar(ValuesOf(keys, row), binding[..], was, heap.blocks, base, heap.next, x)
        invariant columnPairs == Pairs(Escaped(esc, keys)[..x])
      {
        columnPairs := AppendPair(columnPairs, esc, keys, x);
        BindColumn(keys, row, binding, heap, x, base, was);
      }
      assert binding[..][..|keys|] == binding[..];
      assert Escaped(esc, keys)[..|keys|] == Escaped(esc, keys);
    }

    /** What follows the AND, by the class of the value. */
    method PrintCondition(key: string, value: Term, esc: string -> string) returns (text: string)
      ensures text == ConditionText(esc, key, value)
    {
      var escapeKey := esc(key);
      if value.Text? {
        text := escapeKey + "='" + esc(value.s) + "' ";
      } else if value.NullTerm? {
        text := escapeKey + " is null ";
      } else if value.NumberTerm? {
        text := escapeKey + "=" + value.n + " ";
      } else {
        text := escapeKey + "='" + esc(value.description) + "' ";
      }
    }

    method AppendCondition(text: string, where: seq<string>, q: map<string, Term>, esc: string -> string, x: nat)
      returns (r: string)
      requires InRow(where, q) && x < |where| && text == Joined(ConditionTexts(esc, where, q)[..x])
      ensures r == Joined(ConditionTexts(esc, where, q)[..x + 1])
    {
      ghost var texts := ConditionTexts(esc, where, q);
      assert texts[..x + 1][..x] == texts[..x];
      var condition := PrintCondition(where[x], q[where[x]], esc);
      r := text + "AND " + condition;
    }

    method BuildQualifier(where: seq<string>, q: map<string, Term>, esc: string -> string) returns (text: string)
      requires InRow(where, q)
      ensures text == Joined(ConditionTexts(esc, where, q))
    {
      text := "";
      for x := 0 to |where|
        invariant text == Joined(ConditionTexts(esc, where, q)[..x])
      {
        text := AppendCondition(text, where, q, esc, x);
      }
      assert ConditionTexts(esc, where, q)[..|where|] == ConditionTexts(esc, where, q);
    }

    method Execute(keys: seq<string>, where: seq<string>, esc: string -> string, heap: Heap,
                   bindSize: nat, answers: Answers)
      returns (r: Outcome)
      requires heap.Valid() && KeysOf(keys, rowData) && KeysOf(where, qualifier)
      modifies heap
      ensures heap.Valid()
      ensures r.Done? <==> keys != [] && where != [] && answers.AllWell?
      ensures keys == [] || where == [] ==> r == Raised(OutOfRange)
      ensures keys != [] && where != [] && !answers.AllWell? ==> r == Raised(Library(answers))
      ensures r.Done? ==> heap.blocks == old(heap.blocks)
      ensures r.Done? && table.Some? ==> r.sent.text == Prepared(UpdateText(esc, table.value, keys, where, qualifier))
      ensures r.Done? && table.None? ==> r.sent.text == Prepared(UpdateText(esc, "(null)", keys, where, qualifier))
      ensures r.Done? ==> CarriesRow(r.sent.params, keys, rowData)
    {
      var cmd := "UPDATE " + TableText(table) + " set ";
      var block := heap.Calloc(bindSize, |keys|);
      ghost var base, was := heap.next, heap.blocks;
      var binding := new Binding[|keys|](_ => ZERO_BINDING);
      var columnPairs := BindPairs(keys, rowData, esc, binding, heap);
      Lengths(Escaped(esc, keys), ConditionTexts(esc, where, qualifier));
      var trimmed := DeletePrefix(columnPairs, 2);
      if trimmed.None? {
        return Raised(OutOfRange);
      }
      cmd := cmd + trimmed.value + " WHERE ";
      var qualifierString := BuildQualifier(where, qualifier, esc);
      trimmed := DeletePrefix(qualifierString, 4);
      if trimmed.None? {
        return Raised(OutOfRange);
      }
      cmd := cmd + trimmed.value;
      if answers.PrepareFails? || answers.BindFails? {
        return Raised(Library(answers));
      }
      var sent := Sent(Prepared(cmd), ReadsAll(heap.blocks, binding[..]));
      RowArrives(keys, rowData, base, was, heap.blocks);
      if answers.ExecuteFails? || answers.CloseFails? {
        return Raised(Library(answers));
      }
      FreeFlags(keys, rowData, binding, heap, base, was);
      Freed(old(heap.blocks), block, was[block]);
      heap.Free(block);
      return Done(sent);
    }
  }

  // ---- Reading back

  /** The condition an entry of the qualifier stands for. */
  function ConditionOf(key: string, t: Term): Condition {
    match t
    case Text(s) => EqualsText(key, CString(s))
    case NullTerm => IsNull(key)
    case NumberTerm(n) => EqualsNumber(key, n)
    case OtherTerm(d) => EqualsText(key, CString(d))
  }

  function ConditionsOf(keys: seq<string>, q: map<string, Term>): (cs: seq<Condition>)
    requires InRow(keys, q)
    ensures |cs| == |keys| && forall i | 0 <= i < |keys| :: cs[i] == ConditionOf(keys[i], q[keys[i]])
  {
    seq(|keys|, i requires 0 <= i < |keys| => ConditionOf(keys[i], q[keys[i]]))
  }

  /** Numbers print as words. */
  predicate Printable(q: map<string, Term>) {
    forall k | k in q && q[k].NumberTerm? :: IsWord(q[k].n)
  }

  /** Those of a qualifier are numerals, so that the server takes them for numbers. */
  predicate Numerals(q: map<string, Term>) {
    forall k | k in q && q[k].NumberTerm? :: IsNumeral(q[k].n)
  }

  lemma NumeralsIff(where: seq<string>, q: map<string, Term>)
    requires KeysOf(where, q)
    ensures Numerals(q) <==> Numeric(ConditionsOf(where, q))
  {
    var cs := ConditionsOf(where, q);
    if Numeric(cs) {
      forall k | k in q && q[k].NumberTerm? ensures IsNumeral(q[k].n) {
        var i :| 0 <= i < |where| && where[i] == k;
        assert cs[i] == ConditionOf(k, q[k]);
      }
    }
  }

  predicate Names(names: seq<string>) {
    forall i | 0 <= i < |names| :: IsWord(names[i])
  }

  function PairOf(name: string): seq<Token> {
    [Word(name), Equals, Mark]
  }

  lemma LexesPair(read: Reader, name: string)
    requires IsWord(name)
    ensures Lexes(read, name + "=?", PairOf(name), true)
  {
    LexesWord(read, name);
    LexesThenChar(read, name, [Word(name)], false, '=');
    LexesThenChar(read, name + ['='], [Word(name)] + [Equals], true, '?');
    assert name + ['='] + ['?'] == name + "=?";
    assert [Word(name)] + [Equals] + [Mark] == PairOf(name);
  }

  lemma LexesComma(read: Reader)
    ensures Lexes(read, ", ", [Comma], true)
  {
    LexesChar(read, ',');
    LexesThenChar(read, [','], [Comma], true, ' ');
    assert [','] + [' '] == ", " && [Comma] + [] == [Comma];
  }

  lemma {:induction false} PairTokensSnoc(names: seq<string>, name: string)
    requires names != []
    ensures PairTokens(names + [name]) == PairTokens(names) + [Comma] + PairOf(name)
  {
    assert (names + [name])[1..] == names[1..] + [name];
    if |names| > 1 {
      PairTokensSnoc(names[1..], name);
    }
  }

  /** Without the separator in front, the pairs are a well-formed list. */
  lemma {:induction false} LexesPairs(read: Reader, names: seq<string>)
    requires names != [] && Names(names)
    ensures |Pairs(names)| >= 2 && Lexes(read, Pairs(names)[2..], PairTokens(names), true)
    decreases |names|
  {
    var k := |names| - 1;
    var name, before := names[k], names[..k];
    LexesPair(read, name);
    assert names == before + [name];
    assert Pairs(names) == Pairs(before) + ", " + (name + "=?");
    if k == 0 {
      assert Pairs(names)[2..] == name + "=?" && PairTokens(names) == PairOf(name);
    } else {
      LexesPairs(read, before);
      var s, t := Pairs(before)[2..], PairTokens(before);
      LexesComma(read);
      LexesBoth(read, s, t, true, ", ", [Comma], true);
      LexesBoth(read, s + ", ", t + [Comma], true, name + "=?", PairOf(name), true);
      PairTokensSnoc(before, name);
      assert Pairs(names)[2..] == s + ", " + (name + "=?");
    }
  }

  lemma LexesQuoted(esc: string -> string, read: Reader, key: string, v: string)
    requires ReadsBack(esc, read) && KeepsWords(esc) && IsWord(key)
    ensures Lexes(read, esc(key) + "='" + esc(v) + "' ", [Word(key), Equals, Literal(CString(v))], true)
  {
    var quoted := "'" + esc(v) + "'";
    LexesWord(read, key);
    LexesThenChar(read, key, [Word(key)], false, '=');
    LexesLiteral(esc, read, v);
    LexesBoth(read, key + ['='], [Word(key)] + [Equals], true, quoted, [Literal(CString(v))], false);
    LexesThenChar(read, key + ['='] + quoted, [Word(key)] + [Equals] + [Literal(CString(v))], false, ' ');
    assert key + ['='] + quoted + [' '] == key + "='" + esc(v) + "' ";
    assert [Word(key)] + [Equals] + [Literal(CString(v))] + [] == [Word(key), Equals, Literal(CString(v))];
  }

  lemma LexesIsNull(read: Reader, key: string)
    requires IsWord(key)
    ensures Lexes(read, key + " is null ", [Word(key), Word("is"), Word("null")], true)
  {
    LexesWord(read, key);
    LexesThenChar(read, key, [Word(key)], false, ' ');
    LexesThenWord(read, key + [' '], [Word(key)] + [], "is");
    LexesThenChar(read, key + [' '] + "is", [Word(key)] + [] + [Word("is")], false, ' ');
    var s, t := key + [' '] + "is" + [' '], [Word(key)] + [] + [Word("is")] + [];
    LexesThenWord(read, s, t, "null");
    LexesThenChar(read, s + "null", t + [Word("null")], false, ' ');
    assert s + "null" + [' '] == key + " is null ";
    assert t + [Word("null")] + [] == [Word(key), Word("is"), Word("null")];
  }

  lemma LexesNumber(read: Reader, key: string, n: string)
    requires IsWord(key) && IsWord(n)
    ensures Lexes(read, key + "=" + n + " ", [Word(key), Equals, Word(n)], true)
  {
    LexesWord(read, key);
    LexesThenChar(read, key, [Word(key)], false, '=');
    LexesThenWord(read, key + ['='], [Word(key)] + [Equals], n);
    LexesThenChar(read, key + ['='] + n, [Word(key)] + [Equals] + [Word(n)], false, ' ');
    assert [Word(key)] + [Equals] + [Word(n)] + [] == [Word(key), Equals, Word(n)];
  }

  lemma LexesCondition(esc: string -> string, read: Reader, key: string, t: Term)
    requires ReadsBack(esc, read) && KeepsWords(esc) && IsWord(key)
    requires t.NumberTerm? ==> IsWord(t.n)
    ensures Lexes(read, ConditionText(esc, key, t), ConditionTokens(ConditionOf(key, t)), true)
  {
    match t
    case Text(s) => LexesQuoted(esc, read, key, s);
    case NullTerm => LexesIsNull(read, key);
    case NumberTerm(n) => LexesNumber(read, key, n);
    case OtherTerm(d) => LexesQuoted(esc, read, key, d);
  }

  lemma LexesAnd(read: Reader)
    ensures Lexes(read, "AND ", [Word("AND")], true)
  {
    LexesWord(read, "AND");
    LexesThenChar(read, "AND", [Word("AND")], false, ' ');
    assert "AND" + [' '] == "AND " && [Word("AND")] + [] == [Word("AND")];
  }

  lemma {:induction false} AndTokensSnoc(cs: seq<Condition>, c: Condition)
    requires cs != []
    ensures AndTokens(cs + [c]) == AndTokens(cs) + [Word("AND")] + ConditionTokens(c)
  {
    assert (cs + [c])[1..] == cs[1..] + [c];
    if |cs| > 1 {
      AndTokensSnoc(cs[1..], c);
    }
  }

  lemma LexesAfterAnd(read: Reader, s: string, t: seq<Token>, text: string, ts: seq<Token>)
    requires Lexes(read, s, t, true) && Lexes(read, text, ts, true)
    ensures Lexes(read, s + "AND " + text, t + [Word("AND")] + ts, true)
  {
    LexesAnd(read);
    LexesBoth(read, s, t, true, "AND ", [Word("AND")], true);
    LexesBoth(read, s + "AND ", t + [Word("AND")], true, text, ts, true);
  }

  lemma {:induction false} LexesJoined(read: Reader, texts: seq<string>, cs: seq<Condition>)
    requires |texts| == |cs| && cs != []
    requires forall i | 0 <= i < |cs| :: Lexes(read, texts[i], ConditionTokens(cs[i]), true)
    ensures |Joined(texts)| >= 4 && Lexes(read, Joined(texts)[4..], AndTokens(cs), true)
    decreases |cs|
  {
    var k := |cs| - 1;
    var text, c := texts[k], cs[k];
    assert cs == cs[..k] + [c];
    assert Lexes(read, text, ConditionTokens(c), true);
    if k == 0 {
      assert Joined(texts[..0]) == "";
      TrimmedFirst(text);
    } else {
      LexesJoined(read, texts[..k], cs[..k]);
      var s := Joined(texts[..k])[4..];
      LexesAfterAnd(read, s, AndTokens(cs[..k]), text, ConditionTokens(c));
      AndTokensSnoc(cs[..k], c);
      TrimmedNext(Joined(texts[..k]), text);
    }
  }

  lemma TrimmedFirst(text: string)
    ensures ("" + "AND " + text)[4..] == text
  {
  }

  lemma TrimmedNext(joined: string, text: string)
    requires |joined| >= 4
    ensures (joined + "AND " + text)[4..] == joined[4..] + "AND " + text
  {
  }

  /** Without the AND in front, the conditions are a well-formed list. */
  lemma LexesConditions(esc: string -> string, read: Reader, keys: seq<string>, q: map<string, Term>)
    requires keys != [] && InRow(keys, q) && Names(keys) && Printable(q)
    requires ReadsBack(esc, read) && KeepsWords(esc)
    ensures |Joined(ConditionTexts(esc, keys, q))| >= 4
    ensures Lexes(read, Joined(ConditionTexts(esc, keys, q))[4..], AndTokens(ConditionsOf(keys, q)), true)
  {
    forall i | 0 <= i < |keys|
      ensures Lexes(read, ConditionText(esc, keys[i], q[keys[i]]),
                    ConditionTokens(ConditionOf(keys[i], q[keys[i]])), true)
    {
      LexesCondition(esc, read, keys[i], q[keys[i]]);
    }
    LexesJoined(read, ConditionTexts(esc, keys, q), ConditionsOf(keys, q));
  }

  lemma LexesHead(read: Reader, table: string)
    requires IsWord(table)
    ensures Lexes(read, "UPDATE " + table + " set ", [Word("UPDATE"), Word(table), Word("set")], true)
  {
    LexesWord(read, "UPDATE");
    LexesThenChar(read, "UPDATE", [Word("UPDATE")], false, ' ');
    LexesThenWord(read, "UPDATE" + [' '], [Word("UPDATE")] + [], table);
    LexesThenChar(read, "UPDATE" + [' '] + table, [Word("UPDATE")] + [] + [Word(table)], false, ' ');
    var s, t := "UPDATE" + [' '] + table + [' '], [Word("UPDATE")] + [] + [Word(table)] + [];
    LexesThenWord(read, s, t, "set");
    LexesThenChar(read, s + "set", t + [Word("set")], false, ' ');
    assert s + "set" + [' '] == "UPDATE " + table + " set ";
    assert t + [Word("set")] + [] == [Word("UPDATE"), Word(table), Word("set")];
  }

  lemma LexesWhere(read: Reader)
    ensures Lexes(read, " WHERE ", [Word("WHERE")], true)
  {
    LexesChar(read, ' ');
    LexesThenWord(read, [' '], [], "WHERE");
    LexesThenChar(read, [' '] + "WHERE", [] + [Word("WHERE")], false, ' ');
    assert [' '] + "WHERE" + [' '] == " WHERE " && [] + [Word("WHERE")] + [] == [Word("WHERE")];
  }

  lemma LexesAll(read: Reader, s1: string, t1: seq<Token>, s2: string, t2: seq<Token>, s3: string, t3: seq<Token>)
    requires Lexes(read, s1, t1, true) && Lexes(read, s2, t2, true) && Lexes(read, s3, t3, true)
    ensures Lex(read, s1 + s2 + " WHERE " + s3) == t1 + t2 + [Word("WHERE")] + t3
  {
    LexesWhere(read);
    LexesBoth(read, s1, t1, true, s2, t2, true);
    LexesBoth(read, s1 + s2, t1 + t2, true, " WHERE ", [Word("WHERE")], true);
    LexesBoth(read, s1 + s2 + " WHERE ", t1 + t2 + [Word("WHERE")], true, s3, t3, true);
    LexesWhole(read, s1 + s2 + " WHERE " + s3, t1 + t2 + [Word("WHERE")] + t3, true);
  }

  /** What an UPDATE says: the table, its columns in order, and the condition of each qualifier entry. */
  function UpdateOf(table: string, keys: seq<string>, where: seq<string>, q: map<string, Term>): (u: Update)
    requires InRow(where, q)
    ensures u.table == table && u.columns == keys && |u.conditions| == |where|
    ensures forall i | 0 <= i < |where| :: u.conditions[i] == ConditionOf(where[i], q[where[i]])
  {
    Update(table, keys, ConditionsOf(where, q))
  }

  /** What is demanded of the names and numbers in a statement. */
  predicate Printed(table: string, keys: seq<string>, where: seq<string>, q: map<string, Term>) {
    && IsWord(table) && keys != [] && Names(keys)
    && where != [] && InRow(where, q) && Names(where) && Printable(q)
  }

  lemma LexesUpdate(esc: string -> string, read: Reader, table: string, keys: seq<string>,
                    where: seq<string>, q: map<string, Term>)
    requires ReadsBack(esc, read) && KeepsWords(esc) && Printed(table, keys, where, q)
    ensures Lex(read, UpdateText(esc, table, keys, where, q)) == UpdateTokens(UpdateOf(table, keys, where, q))
  {
    WordsKept(esc, keys);
    LexesHead(read, table);
    LexesPairs(read, keys);
    LexesConditions(esc, read, where, q);
    LexesAll(read, "UPDATE " + table + " set ", [Word("UPDATE"), Word(table), Word("set")],
             Pairs(keys)[2..], PairTokens(keys),
             Joined(ConditionTexts(esc, where, q))[4..], AndTokens(ConditionsOf(where, q)));
  }

  /** The text of an UPDATE reads back to its table, its columns with a placeholder for each, and its qualifier,
      exactly when the numbers in the qualifier are numerals. */
  lemma UpdateReadsBackIff(esc: string -> string, read: Reader, table: string, keys: seq<string>,
                           where: seq<string>, q: map<string, Term>)
    requires ReadsBack(esc, read) && KeepsWords(esc) && Printed(table, keys, where, q) && KeysOf(where, q)
    ensures ReadUpdate(Lex(read, UpdateText(esc, table, keys, where, q))) == Some(UpdateOf(table, keys, where, q))
            <==> Numerals(q)
  {
    LexesUpdate(esc, read, table, keys, where, q);
    UpdateOfReadsIff(table, keys, where, q);
  }

  lemma UpdateOfReadsIff(table: string, keys: seq<string>, where: seq<string>, q: map<string, Term>)
    requires Printed(table, keys, where, q) && KeysOf(where, q)
    ensures ReadUpdate(UpdateTokens(UpdateOf(table, keys, where, q))) == Some(UpdateOf(table, keys, where, q))
            <==> Numerals(q)
  {
    var u := UpdateOf(table, keys, where, q);
    NumeralsIff(where, q);
    if Numerals(q) { TokensReadBack(u); }
    if ReadUpdate(UpdateTokens(u)) == Some(u) { UpdateReadIsNumeric(UpdateTokens(u)); }
  }

  lemma TokensReadBack(u: Update)
    requires u.columns != [] && u.conditions != [] && Numeric(u.conditions)
    ensures ReadUpdate(UpdateTokens(u)) == Some(u)
  {
    var head := [Word("UPDATE"), Word(u.table), Word("set")];
    var rest := [Word("WHERE")] + AndTokens(u.conditions);
    Associative(head + PairTokens(u.columns), [Word("WHERE")], AndTokens(u.conditions));
    Associative(head, PairTokens(u.columns), rest);
    Dropped(head, PairTokens(u.columns) + rest);
    Dropped([Word("WHERE")], AndTokens(u.conditions));
    PairsReadBack(u.columns, rest);
    ConditionsReadBack(u.conditions);
  }

  // ---- What the server reads

  function ServerUpdate(read: Reader, text: Bytes): Option<Update> {
    match ServerTokens(read, text)
    case None => None
    case Some(ts) => ReadUpdate(ts)
  }

  /** The text up to a condition: `texts` are the conditions before it. */
  function Before(table: string, names: seq<string>, texts: seq<string>): string
    requires names != []
  {
    Lengths(names, [""]);
    "UPDATE " + table + " set " + Pairs(names)[2..] + " WHERE " + (Joined(texts) + "AND ")[4..]
  }

  function BeforeLast(esc: string -> string, table: string, keys: seq<string>,
                      where: seq<string>, q: map<string, Term>): string
    requires keys != [] && where != [] && InRow(where, q)
  {
    Before(table, Escaped(esc, keys), ConditionTexts(esc, where, q)[..|where| - 1])
  }

  lemma LastText(head: string, texts: seq<string>)
    requires texts != []
    ensures |Joined(texts)| >= 4
    ensures var k := |texts| - 1;
            head + Joined(texts)[4..] == head + (Joined(texts[..k]) + "AND ")[4..] + texts[k]
  {
    var k := |texts| - 1;
    var joined := Joined(texts[..k]) + "AND ";
    assert (joined + texts[k])[4..] == joined[4..] + texts[k];
    Associative(head, joined[4..], texts[k]);
  }

  lemma LastCondition(esc: string -> string, table: string, keys: seq<string>, where: seq<string>, q: map<string, Term>)
    requires keys != [] && where != [] && InRow(where, q)
    ensures var k := where[|where| - 1];
            UpdateText(esc, table, keys, where, q) ==
              BeforeLast(esc, table, keys, where, q) + ConditionText(esc, k, q[k])
  {
    var texts := ConditionTexts(esc, where, q);
    Lengths(Escaped(esc, keys), texts);
    LastText("UPDATE " + table + " set " + Pairs(Escaped(esc, keys))[2..] + " WHERE ", texts);
  }

  /** A condition ends in a space, with something else before it. */
  lemma ConditionEnds(esc: string -> string, key: string, t: Term) returns (core: string)
    requires t.NumberTerm? ==> IsWord(t.n)
    ensures ConditionText(esc, key, t) == core + " " && core != "" && core[|core| - 1] != ' '
  {
    match t
    case Text(s) =>
      core := esc(key) + "='" + esc(s) + "'";
      Associative(esc(key) + "='" + esc(s), "'", " ");
    case OtherTerm(d) =>
      core := esc(key) + "='" + esc(d) + "'";
      Associative(esc(key) + "='" + esc(d), "'", " ");
    case NullTerm =>
      core := esc(key) + " is null";
      Associative(esc(key), " is null", " ");
      assert " is null" + " " == " is null ";
    case NumberTerm(n) =>
      core := esc(key) + "=" + n;
      assert Plain(n[|n| - 1]) && core[|core| - 1] == n[|n| - 1];
  }

  /** The server reads the statement that was meant exactly when at most one byte of its text is in excess
      of its UTF-16 units and the numbers in the qualifier are numerals. */
  lemma UpdateArrivesIff(esc: string -> string, read: Reader, table: string, keys: seq<string>,
                         where: seq<string>, q: map<string, Term>)
    requires ReadsBack(esc, read) && KeepsWords(esc) && Scans(read)
    requires Printed(table, keys, where, q) && KeysOf(where, q)
    ensures ServerUpdate(read, Prepared(UpdateText(esc, table, keys, where, q))) ==
              Some(UpdateOf(table, keys, where, q))
            <==> Excess(UpdateText(esc, table, keys, where, q)) <= 1 && Numerals(q)
  {
    var u, cmd := UpdateOf(table, keys, where, q), UpdateText(esc, table, keys, where, q);
    UpdateTokensArriveIff(esc, read, table, keys, where, q);
    UpdateOfReadsIff(table, keys, where, q);
    match ServerTokens(read, Prepared(cmd))
    case Some(ts) => if ReadUpdate(ts) == Some(u) { UpdateReadIs(ts); }
    case None =>
  }

  lemma UpdateTokensArriveIff(esc: string -> string, read: Reader, table: string, keys: seq<string>,
                              where: seq<string>, q: map<string, Term>)
    requires ReadsBack(esc, read) && KeepsWords(esc) && Scans(read) && Printed(table, keys, where, q)
    ensures ServerTokens(read, Prepared(UpdateText(esc, table, keys, where, q))) ==
              Some(UpdateTokens(UpdateOf(table, keys, where, q)))
            <==> Excess(UpdateText(esc, table, keys, where, q)) <= 1
  {
    var k := where[|where| - 1];
    var last := ConditionEnds(esc, k, q[k]);
    var core := BeforeLast(esc, table, keys, where, q) + last;
    LastCondition(esc, table, keys, where, q);
    Associative(BeforeLast(esc, table, keys, where, q), last, " ");
    assert core[|core| - 1] == last[|last| - 1];
    LexesUpdate(esc, read, table, keys, where, q);
    UpdateClean(UpdateOf(table, keys, where, q));
    OneSpace(core);
    TokensArriveIff(read, UpdateText(esc, table, keys, where, q));
  }

  /** With two bytes in excess, a number at the end loses its last digit: the server reads another statement,
      with a condition on another number. */
  lemma NumberIsCut(esc: string -> string, read: Reader, table: string, keys: seq<string>,
                    where: seq<string>, q: map<string, Term>, n: string, d: char)
    requires ReadsBack(esc, read) && KeepsWords(esc) && Scans(read)
    requires Printed(table, keys, where, q) && KeysOf(where, q)
    requires q[where[|where| - 1]] == NumberTerm(n + [d]) && Numerals(q) && IsNumeral(n) && d as int < 0x80
    requires Excess(UpdateText(esc, table, keys, where, q)) == 2
    ensures var cut := q[where[|where| - 1] := NumberTerm(n)];
            ServerUpdate(read, Prepared(UpdateText(esc, table, keys, where, q))) ==
              Some(UpdateOf(table, keys, where, cut))
  {
    var cut := q[where[|where| - 1] := NumberTerm(n)];
    var core := CutText(esc, table, keys, where, q, n, d);
    CutIsPrinted(table, keys, where, q, n);
    UpdateReadsBackIff(esc, read, table, keys, where, cut);
    ReadWithoutDigit(read, core, d, UpdateText(esc, table, keys, where, q));
  }

  lemma ReadWithoutDigit(read: Reader, core: string, d: char, text: string)
    requires Scans(read) && text == core + [d, ' '] && d as int < 0x80 && Excess(text) == 2
    ensures ServerUpdate(read, Prepared(text)) == ReadUpdate(Lex(read, core + " "))
  {
    EndIsLost(core, [d, ' ']);
    TrailingSpace(read, core);
  }

  lemma CutIsPrinted(table: string, keys: seq<string>, where: seq<string>, q: map<string, Term>, n: string)
    requires Printed(table, keys, where, q) && Numerals(q) && KeysOf(where, q) && IsNumeral(n)
    ensures var cut := q[where[|where| - 1] := NumberTerm(n)];
            Printed(table, keys, where, cut) && Numerals(cut) && KeysOf(where, cut)
  {
  }

  /** The two texts have everything up to the last digit in common. */
  lemma CutText(esc: string -> string, table: string, keys: seq<string>, where: seq<string>, q: map<string, Term>,
                n: string, d: char) returns (core: string)
    requires keys != [] && where != [] && KeysOf(where, q) && q[where[|where| - 1]] == NumberTerm(n + [d])
    ensures UpdateText(esc, table, keys, where, q) == core + [d, ' ']
    ensures UpdateText(esc, table, keys, where, q[where[|where| - 1] := NumberTerm(n)]) == core + " "
  {
    var k := where[|where| - 1];
    var cut := q[k := NumberTerm(n)];
    core := BeforeLast(esc, table, keys, where, q) + (esc(k) + "=" + n);
    SameBefore(esc, table, keys, where, q, n);
    LastCondition(esc, table, keys, where, q);
    LastCondition(esc, table, keys, where, cut);
    Associative(BeforeLast(esc, table, keys, where, q), esc(k) + "=" + n, " ");
    NumberText(BeforeLast(esc, table, keys, where, q), esc(k) + "=", n, d);
  }

  lemma SameBefore(esc: string -> string, table: string, keys: seq<string>,
                   where: seq<string>, q: map<string, Term>, n: string)
    requires keys != [] && where != [] && KeysOf(where, q)
    ensures BeforeLast(esc, table, keys, where, q) ==
            BeforeLast(esc, table, keys, where, q[where[|where| - 1] := NumberTerm(n)])
  {
    SameTexts(esc, where, q, n);
  }

  lemma SameTexts(esc: string -> string, where: seq<string>, q: map<string, Term>, n: string)
    requires where != [] && KeysOf(where, q)
    ensures var k := |where| - 1;
            ConditionTexts(esc, where, q)[..k] == ConditionTexts(esc, where, q[where[k] := NumberTerm(n)])[..k]
  {
    var k := |where| - 1;
    var cut := q[where[k] := NumberTerm(n)];
    forall i | 0 <= i < k ensures ConditionTexts(esc, where, q)[i] == ConditionTexts(esc, where, cut)[i] {
      assert where[i] != where[k] && q[where[i]] == cut[where[i]];
    }
  }

  lemma NumberText(before: string, key: string, n: string, d: char)
    ensures before + (key + (n + [d]) + " ") == before + (key + n) + [d, ' ']
  {
  }

  /** A statement with one column and one number. */
  function ByNumber(key: string, n: string): map<string, Term> {
    map[key := NumberTerm(n)]
  }

  lemma ByNumberIsPrinted(name: string, key: string, n: string)
    requires IsWord(name) && IsWord(key) && IsNumeral(n)
    ensures Printed("t", [name], [key], ByNumber(key, n)) && KeysOf([key], ByNumber(key, n))
    ensures Numerals(ByNumber(key, n))
    ensures UpdateOf("t", [name], [key], ByNumber(key, n)) == Update("t", [name], [EqualsNumber(key, n)])
  {
    assert [key][0] == key && IsWord("t");
    assert ConditionsOf([key], ByNumber(key, n)) == [EqualsNumber(key, n)];
  }

  lemma ByNumberText(esc: string -> string, name: string, key: string, n: string)
    requires esc(key) == key && esc(name) == name
    ensures UpdateText(esc, "t", [name], [key], ByNumber(key, n)) ==
            "UPDATE t set " + name + ("=? WHERE " + key + "=" + n + " ")
  {
    var texts := ConditionTexts(esc, [key], ByNumber(key, n));
    assert Escaped(esc, [name]) == [name];
    OnePair(name);
    assert texts == [key + "=" + n + " "];
    OneJoined(key + "=" + n + " ");
    assert "UPDATE " + "t" + " set " == "UPDATE t set ";
  }

  lemma OnePair(name: string)
    ensures Pairs([name]) == ", " + name + "=?"
  {
    assert [name][..0] == [] && Pairs([]) == "";
  }

  lemma OneJoined(text: string)
    ensures Joined([text]) == "AND " + text
  {
    assert [text][..0] == [] && Joined([]) == "";
  }

  /** A column of four bytes and two units, and a number at the end: row 1 is updated in place of row 12. */
  lemma AnotherRowIsPicked(esc: string -> string, read: Reader)
    requires ReadsBack(esc, read) && KeepsWords(esc) && Scans(read)
    ensures ServerUpdate(read, Prepared(UpdateText(esc, "t", ["\U{E9}\U{E9}"], ["id"], ByNumber("id", "12")))) ==
            Some(Update("t", ["\U{E9}\U{E9}"], [EqualsNumber("id", "1")]))
  {
    TwoByteLetters();
    OneAndTwelve();
    DigitIsCut(esc, read, "\U{E9}\U{E9}", "id", "1", '2');
  }

  lemma OneAndTwelve()
    ensures "1" + ['2'] == "12" && IsNumeral("1") && IsNumeral("12")
  {
    assert "1"[1..] == "" && "12"[1..] == "2" && "2"[1..] == "";
    assert DigitsLength("1") == 1 && DigitsLength("12") == 2;
  }

  lemma DigitIsCut(esc: string -> string, read: Reader, name: string, key: string, n: string, d: char)
    requires ReadsBack(esc, read) && KeepsWords(esc) && Scans(read)
    requires IsWord(name) && IsWord(key) && IsNumeral(n) && IsNumeral(n + [d])
    requires Excess(name) == 2 && Ascii(key) && Ascii(n) && d as int < 0x80
    ensures ServerUpdate(read, Prepared(UpdateText(esc, "t", [name], [key], ByNumber(key, n + [d])))) ==
            Some(Update("t", [name], [EqualsNumber(key, n)]))
  {
    AsciiConcat(n, [d]);
    ByNumberIsPrinted(name, key, n + [d]);
    ByNumberIsPrinted(name, key, n);
    ByNumberExcess(esc, name, key, n + [d]);
    ByNumberIsCut(esc, read, name, key, n, d);
  }

  lemma ByNumberIsCut(esc: string -> string, read: Reader, name: string, key: string, n: string, d: char)
    requires ReadsBack(esc, read) && KeepsWords(esc) && Scans(read) && IsNumeral(n) && d as int < 0x80
    requires Printed("t", [name], [key], ByNumber(key, n + [d])) && Numerals(ByNumber(key, n + [d]))
    requires Excess(UpdateText(esc, "t", [name], [key], ByNumber(key, n + [d]))) == 2
    ensures ServerUpdate(read, Prepared(UpdateText(esc, "t", [name], [key], ByNumber(key, n + [d])))) ==
            Some(UpdateOf("t", [name], [key], ByNumber(key, n)))
  {
    var q := ByNumber(key, n + [d]);
    assert [key][|[key]| - 1] == key && KeysOf([key], q);
    assert q[key := NumberTerm(n)] == ByNumber(key, n);
    NumberIsCut(esc, read, "t", [name], [key], q, n, d);
  }

  lemma ByNumberExcess(esc: string -> string, name: string, key: string, n: string)
    requires esc(key) == key && esc(name) == name && Ascii(key) && Ascii(n)
    ensures Excess(UpdateText(esc, "t", [name], [key], ByNumber(key, n))) == Excess(name)
  {
    var head, tail := "UPDATE t set ", "=? WHERE " + key + "=" + n + " ";
    ByNumberText(esc, name, key, n);
    AsciiConcat("=? WHERE ", key);
    AsciiConcat("=? WHERE " + key, "=");
    AsciiConcat("=? WHERE " + key + "=", n);
    AsciiConcat("=? WHERE " + key + "=" + n, " ");
    ExcessInside(head, name, tail);
  }

  // ---- Which rows

  /** A cell of the table; a comparison with a null is never true. */
  datatype Cell = NullCell | TextCell(s: string) | NumberCell(n: string)

  type Row = map<string, Cell>

  predicate Holds(c: Condition, row: Row) {
    match c
    case EqualsText(k, v) => k in row && row[k] == TextCell(v)
    case EqualsNumber(k, n) => k in row && row[k] == NumberCell(n)
    case IsNull(k) => k in row && row[k] == NullCell
  }

  /** The rows a statement changes. */
  predicate Picks(u: Update, row: Row) {
    forall i | 0 <= i < |u.conditions| :: Holds(u.conditions[i], row)
  }

  /** What an entry of the qualifier asks of a cell. */
  predicate Meets(t: Term, cell: Cell) {
    match cell
    case NullCell => t.NullTerm?
    case TextCell(s) => t == Text(s) || t == OtherTerm(s)
    case NumberCell(n) => t == NumberTerm(n)
  }

  predicate Qualifies(q: map<string, Term>, row: Row) {
    forall k | k in q :: k in row && Meets(q[k], row[k])
  }

  predicate Whole(t: Term) {
    match t
    case Text(s) => 0 as char !in s
    case OtherTerm(d) => 0 as char !in d
    case NullTerm => true
    case NumberTerm(_) => true
  }

  /** No text in the qualifier holds a zero character, where escaping would cut it. */
  predicate AllWhole(q: map<string, Term>) {
    forall k | k in q :: Whole(q[k])
  }

  /** WHERE picks the rows on which every entry of the qualifier holds, and only those, whatever order the
      keys came in: so it is exactly when no text of the qualifier is cut. */
  lemma WherePicksQualifyingIff(where: seq<string>, q: map<string, Term>, u: Update)
    requires KeysOf(where, q) && u.conditions == ConditionsOf(where, q)
    ensures (forall row :: Picks(u, row) <==> Qualifies(q, row)) <==> AllWhole(q)
  {
    if AllWhole(q) {
      forall row ensures Picks(u, row) <==> Qualifies(q, row) { PicksIfQualifies(where, q, row, u); }
    } else {
      var k :| k in q && !Whole(q[k]);
      var row := PickedRow(where, q, u);
      assert !Meets(q[k], row[k]);
      assert Picks(u, row) && !Qualifies(q, row);
    }
  }

  lemma PicksIfQualifies(where: seq<string>, q: map<string, Term>, row: Row, u: Update)
    requires KeysOf(where, q) && u.conditions == ConditionsOf(where, q) && AllWhole(q)
    ensures Picks(u, row) <==> Qualifies(q, row)
  {
    forall i | 0 <= i < |where|
      ensures Holds(u.conditions[i], row) <==> where[i] in row && Meets(q[where[i]], row[where[i]])
    {
    }
    if Picks(u, row) {
      forall k | k in q ensures k in row && Meets(q[k], row[k]) {
        var i :| 0 <= i < |where| && where[i] == k;
        assert Holds(u.conditions[i], row);
      }
    }
  }

  /** The cell that the condition for a term asks for. */
  function CellFor(t: Term): Cell {
    match t
    case Text(s) => TextCell(CString(s))
    case NullTerm => NullCell
    case NumberTerm(n) => NumberCell(n)
    case OtherTerm(d) => TextCell(CString(d))
  }

  lemma PickedRow(where: seq<string>, q: map<string, Term>, u: Update) returns (row: Row)
    requires KeysOf(where, q) && u.conditions == ConditionsOf(where, q)
    ensures Picks(u, row) && row.Keys == q.Keys && forall k | k in q :: row[k] == CellFor(q[k])
  {
    row := map k | k in q :: CellFor(q[k]);
  }

  /** The whole of an UPDATE: what the server reads, which rows that picks, and what the columns it reads are
      given. */
  lemma UpdateArrives(esc: string -> string, read: Reader, table: string, keys: seq<string>, row: map<string, Value>,
                      where: seq<string>, q: map<string, Term>, sent: Sent)
    requires ReadsBack(esc, read) && KeepsWords(esc) && Scans(read) && Printed(table, keys, where, q)
    requires KeysOf(keys, row) && KeysOf(where, q) && CarriesRow(sent.params, keys, row)
    requires sent.text == Prepared(UpdateText(esc, table, keys, where, q))
    ensures var u := ServerUpdate(read, sent.text);
            && (u == Some(UpdateOf(table, keys, where, q)) <==>
                  Excess(UpdateText(esc, table, keys, where, q)) <= 1 && Numerals(q))
            && (Excess(UpdateText(esc, table, keys, where, q)) <= 1 && Numerals(q) ==>
                  && u.value.table == table && |u.value.columns| == |sent.params|
                  && ((forall r :: Picks(u.value, r) <==> Qualifies(q, r)) <==> AllWhole(q))
                  && (Assigned(u.value.columns, sent.params) == WantedRow(row) <==>
                        forall c | c in row :: Carried(row[c])))
  {
    UpdateArrivesIff(esc, read, table, keys, where, q);
    WherePicksQualifyingIff(where, q, UpdateOf(table, keys, where, q));
    RowArrivesIff(keys, row, sent.params);
  }
}
