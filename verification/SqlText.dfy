/** How the text of the statements the connector prints reads back: a lexer and the two statement shapes.
    String literals are read by a function that is a parameter, since `mysql_real_escape_string`, whose
    inverse it is, belongs to the client library. */
module SqlText {

  datatype Option<+T> = None | Some(value: T)

  datatype Token = Word(w: string) | Comma | Open | Close | Equals | Mark | Literal(v: string) | Unclosed

  /** Given what follows an opening quote: the value, and what follows the closing quote. */
  type Reader = string -> Option<(string, string)>

  lemma Associative<T>(a: seq<T>, b: seq<T>, c: seq<T>)
    ensures a + b + c == a + (b + c)
  {
  }

  lemma Dropped<T>(a: seq<T>, b: seq<T>)
    ensures (a + b)[|a|..] == b && (a + b)[..|a|] == a
  {
  }

  predicate Separator(c: char) {
    c == ' ' || c == ',' || c == '(' || c == ')' || c == '=' || c == '?' || c == '\''
  }

  /** A character that ends no word and that escaping leaves alone. */
  predicate Plain(c: char) {
    !Separator(c) && c != '\\' && c != '"' && ' ' < c
  }

  /** A name or number that stands for itself in a statement. */
  predicate IsWord(w: string) {
    w != "" && forall i | 0 <= i < |w| :: Plain(w[i])
  }

  predicate IsDigit(c: char) {
    '0' <= c <= '9'
  }

  function DigitsLength(s: string): (n: nat)
    ensures n <= |s|
  {
    if s == "" || !IsDigit(s[0]) then 0 else 1 + DigitsLength(s[1..])
  }

  predicate IsExponent(s: string) {
    s != "" && s[0] == 'e' &&
    var digits := if |s| > 1 && (s[1] == '+' || s[1] == '-') then s[2..] else s[1..];
    digits != "" && DigitsLength(digits) == |digits|
  }

  /** What the server takes for a number, of the words that numbers print as: `nan` and `inf` are names to it. */
  predicate IsNumeral(w: string) {
    IsWord(w) &&
    var s := if w[0] == '-' then w[1..] else w;
    var whole := DigitsLength(s);
    var point := whole < |s| && s[whole] == '.';
    var rest := if point then s[whole + 1..] else s[whole..];
    var fraction := if point then DigitsLength(rest) else 0;
    whole > 0 && (point ==> fraction > 0) && (rest[fraction..] == "" || IsExponent(rest[fraction..]))
  }

  function WordLength(s: string): (n: nat)
    ensures n <= |s| && forall i | 0 <= i < n :: !Separator(s[i])
    ensures n < |s| ==> Separator(s[n])
  {
    if s == "" || Separator(s[0]) then 0 else 1 + WordLength(s[1..])
  }

  /** The token of a single character, if it is one. */
  function Single(c: char): seq<Token> {
    match c
    case ',' => [Comma]
    case '(' => [Open]
    case ')' => [Close]
    case '=' => [Equals]
    case '?' => [Mark]
    case _ => []
  }

  function Lex(read: Reader, s: string): seq<Token>
    decreases |s|
  {
    if s == "" then []
    else if s[0] == '\'' then
      match read(s[1..])
      case Some((v, rest)) => if |rest| < |s| then [Literal(v)] + Lex(read, rest) else [Unclosed]
      case None => [Unclosed]
    else if Separator(s[0]) then Single(s[0]) + Lex(read, s[1..])
    else
      var n := WordLength(s);
      [Word(s[..n])] + Lex(read, s[n..])
  }

  lemma LexChar(read: Reader, c: char, rest: string)
    requires Separator(c) && c != '\''
    ensures Lex(read, [c] + rest) == Single(c) + Lex(read, rest)
  {
    assert ([c] + rest)[1..] == rest;
  }

  lemma {:induction false} WordEnds(w: string, rest: string)
    requires forall i | 0 <= i < |w| :: Plain(w[i])
    requires rest == "" || Separator(rest[0])
    ensures WordLength(w + rest) == |w|
  {
    if w == "" {
      assert w + rest == rest;
    } else {
      assert (w + rest)[1..] == w[1..] + rest;
      WordEnds(w[1..], rest);
    }
  }

  lemma LexWord(read: Reader, w: string, rest: string)
    requires IsWord(w) && (rest == "" || Separator(rest[0]))
    ensures Lex(read, w + rest) == [Word(w)] + Lex(read, rest)
  {
    var s := w + rest;
    var n := WordLength(s);
    WordEnds(w, rest);
    assert s[..n] == w && s[n..] == rest;
    assert !Separator(s[0]) by { assert s[0] == w[0]; }
  }

  /** What may follow a word or a literal: a quote would join it. */
  predicate Ends(rest: string) {
    rest != "" ==> Separator(rest[0]) && rest[0] != '\''
  }

  /** `s` becomes `ts` in front of anything; unless `closed`, only in front of what ends a word. */
  ghost predicate Lexes(read: Reader, s: string, ts: seq<Token>, closed: bool) {
    forall rest {:trigger Lex(read, s + rest)} | closed || Ends(rest) :: Lex(read, s + rest) == ts + Lex(read, rest)
  }

  lemma LexesWhole(read: Reader, s: string, ts: seq<Token>, closed: bool)
    requires Lexes(read, s, ts, closed)
    ensures Lex(read, s) == ts
  {
    assert s + "" == s && Lex(read, s + "") == ts + Lex(read, "");
  }

  lemma LexesBoth(read: Reader, s1: string, t1: seq<Token>, c1: bool, s2: string, t2: seq<Token>, c2: bool)
    requires Lexes(read, s1, t1, c1) && Lexes(read, s2, t2, c2)
    requires c1 || (s2 != "" && Ends(s2))
    ensures Lexes(read, s1 + s2, t1 + t2, c2)
  {
    forall rest | c2 || Ends(rest)
      ensures Lex(read, s1 + s2 + rest) == t1 + t2 + Lex(read, rest)
    {
      Associative(s1, s2, rest);
      assert Lex(read, s1 + (s2 + rest)) == t1 + Lex(read, s2 + rest) by {
        assert c1 || Ends(s2 + rest);
      }
      Associative(t1, t2, Lex(read, rest));
    }
  }

  lemma LexesWord(read: Reader, w: string)
    requires IsWord(w)
    ensures Lexes(read, w, [Word(w)], false)
  {
    forall rest | Ends(rest) ensures Lex(read, w + rest) == [Word(w)] + Lex(read, rest) {
      LexWord(read, w, rest);
    }
  }

  lemma LexesChar(read: Reader, c: char)
    requires Separator(c) && c != '\''
    ensures Lexes(read, [c], Single(c), true)
  {
    forall rest ensures Lex(read, [c] + rest) == Single(c) + Lex(read, rest) {
      LexChar(read, c, rest);
    }
  }

  /** `s` followed by one separator. */
  lemma LexesThenChar(read: Reader, s: string, ts: seq<Token>, closed: bool, c: char)
    requires Lexes(read, s, ts, closed) && Separator(c) && c != '\''
    ensures Lexes(read, s + [c], ts + Single(c), true)
  {
    LexesChar(read, c);
    LexesBoth(read, s, ts, closed, [c], Single(c), true);
  }

  /** `s`, which does not end in a word, followed by a word. */
  lemma LexesThenWord(read: Reader, s: string, ts: seq<Token>, w: string)
    requires Lexes(read, s, ts, true) && IsWord(w)
    ensures Lexes(read, s + w, ts + [Word(w)], false)
  {
    LexesWord(read, w);
    LexesBoth(read, s, ts, true, w, [Word(w)], false);
  }

  /** A string as C code sees it: up to its first zero character. */
  function CString(s: string): (c: string)
    ensures 0 as char !in c
    ensures c == s <==> 0 as char !in s
  {
    if s == "" || s[0] == 0 as char then ""
    else
      var c := CString(s[1..]);
      assert s == [s[0]] + s[1..];
      [s[0]] + c
  }

  predicate Quoted(s: string) {
    s != "" && s[0] == '\''
  }

  /** `read` undoes `esc`: an escaped value followed by a quote reads back, as far as C code sees it and
      whatever comes after but another quote. */
  ghost predicate ReadsBack(esc: string -> string, read: Reader) {
    forall v, rest | !Quoted(rest) :: read(esc(v) + "'" + rest) == Some((CString(v), rest))
  }

  /** A literal ends at a quote. What follows is left over and has no influence, unless it is a quote right
      there: that makes a doubled quote of the two, and the value another or none. */
  ghost predicate Scans(read: Reader) {
    && (forall s | read(s).Some? :: AfterQuote(s, read(s).value.1))
    && (forall s, v, rest, more | !(rest == "" && Quoted(more)) ::
          read(s) == Some((v, rest)) <==> read(s + more) == Some((v, rest + more)))
    && (forall s, more | read(s).Some? && read(s).value.1 == "" && Quoted(more) ::
          read(s + more).None? || read(s + more).value.0 != read(s).value.0)
  }

  /** `rest` is what `s` has after one of its quotes. */
  predicate AfterQuote(s: string, rest: string) {
    |rest| < |s| && s[|s| - |rest|..] == rest && s[|s| - |rest| - 1] == '\''
  }

  /** Escaping leaves words alone. */
  ghost predicate KeepsWords(esc: string -> string) {
    forall w | IsWord(w) :: esc(w) == w
  }

  lemma LexesLiteral(esc: string -> string, read: Reader, v: string)
    requires ReadsBack(esc, read)
    ensures Lexes(read, "'" + esc(v) + "'", [Literal(CString(v))], false)
  {
    forall rest | Ends(rest) ensures Lex(read, "'" + esc(v) + "'" + rest) == [Literal(CString(v))] + Lex(read, rest) {
      Associative("'", esc(v), "'");
      Associative("'", esc(v) + "'", rest);
      Dropped("'", esc(v) + "'" + rest);
      assert !Quoted(rest);
      assert read(esc(v) + "'" + rest) == Some((CString(v), rest));
    }
  }

  /** Nothing in it is left open. */
  predicate Clean(ts: seq<Token>) {
    Unclosed !in ts
  }

  // ---- Separated lists

  function CommaList(ts: seq<Token>): seq<Token> {
    if |ts| <= 1 then ts else [ts[0], Comma] + CommaList(ts[1..])
  }

  lemma {:induction false} CommaListSnoc(ts: seq<Token>, t: Token)
    requires ts != []
    ensures CommaList(ts + [t]) == CommaList(ts) + [Comma, t]
  {
    if |ts| > 1 {
      CommaListSnoc(ts[1..], t);
      assert (ts + [t])[1..] == ts[1..] + [t];
    } else {
      assert (ts + [t])[1..] == [t];
    }
  }

  predicate IsItem(t: Token) {
    t.Word? || t.Mark?
  }

  /** Items separated by commas, as many as there are. */
  function ReadItems(ts: seq<Token>): Option<(seq<Token>, seq<Token>)> {
    if ts == [] || !IsItem(ts[0]) then None
    else if |ts| > 1 && ts[1] == Comma then
      match ReadItems(ts[2..])
      case Some((items, rest)) => Some(([ts[0]] + items, rest))
      case None => None
    else Some(([ts[0]], ts[1..]))
  }

  lemma {:induction false} ItemsReadBack(items: seq<Token>, rest: seq<Token>)
    requires items != [] && (forall i | 0 <= i < |items| :: IsItem(items[i]))
    requires rest == [] || rest[0] != Comma
    ensures ReadItems(CommaList(items) + rest) == Some((items, rest))
    decreases |items|
  {
    var ts := CommaList(items) + rest;
    if |items| == 1 {
      assert ts == [items[0]] + rest && ts[1..] == rest && [items[0]] == items;
    } else {
      ItemsReadBack(items[1..], rest);
      assert ts[2..] == CommaList(items[1..]) + rest;
      assert [items[0]] + items[1..] == items;
    }
  }

  /** A list in parentheses, possibly empty. */
  function ReadList(ts: seq<Token>): Option<(seq<Token>, seq<Token>)> {
    if |ts| < 2 || ts[0] != Open then None
    else if ts[1] == Close then Some(([], ts[2..]))
    else
      match ReadItems(ts[1..])
      case Some((items, rest)) => if rest != [] && rest[0] == Close then Some((items, rest[1..])) else None
      case None => None
  }

  lemma ListReadsBack(items: seq<Token>, rest: seq<Token>)
    requires forall i | 0 <= i < |items| :: IsItem(items[i])
    ensures ReadList([Open] + CommaList(items) + [Close] + rest) == Some((items, rest))
  {
    var tail := [Close] + rest;
    var body := CommaList(items) + tail;
    Associative([Open] + CommaList(items), [Close], rest);
    Associative([Open], CommaList(items), tail);
    Dropped([Open], body);
    Dropped([Close], rest);
    if items == [] {
      assert body == tail;
      Dropped([Open] + [Close], rest);
      Associative([Open], [Close], rest);
    } else {
      ItemsReadBack(items, tail);
      assert body[0] == items[0];
    }
  }

  // ---- INSERT

  datatype Insert = Insert(table: string, columns: seq<Token>, values: seq<Token>)

  function ReadInsert(ts: seq<Token>): Option<Insert> {
    if |ts| < 3 || ts[..2] != [Word("INSERT"), Word("INTO")] || !ts[2].Word? then None
    else
      match ReadList(ts[3..])
      case None => None
      case Some((columns, rest)) =>
        if rest == [] || rest[0] != Word("values") then None
        else
          match ReadList(rest[1..])
          case None => None
          case Some((values, end)) => if end == [] then Some(Insert(ts[2].w, columns, values)) else None
  }

  function ListTokens(items: seq<Token>): seq<Token> {
    [Open] + CommaList(items) + [Close]
  }

  function InsertTokens(i: Insert): seq<Token> {
    [Word("INSERT"), Word("INTO"), Word(i.table)] + ListTokens(i.columns) + [Word("values")] + ListTokens(i.values)
  }

  lemma CommaListCons(t: Token, ts: seq<Token>)
    requires ts != []
    ensures CommaList([t] + ts) == [t, Comma] + CommaList(ts)
  {
    assert ([t] + ts)[1..] == ts;
  }

  lemma {:induction false} ItemsReadAre(ts: seq<Token>)
    requires ReadItems(ts).Some?
    ensures ReadItems(ts).value.0 != []
    ensures ts == CommaList(ReadItems(ts).value.0) + ReadItems(ts).value.1
    decreases |ts|
  {
    var (items, rest) := ReadItems(ts).value;
    if |ts| > 1 && ts[1] == Comma {
      ItemsReadAre(ts[2..]);
      var others := ReadItems(ts[2..]).value.0;
      CommaListCons(ts[0], others);
      Associative([ts[0], Comma], CommaList(others), rest);
      assert ts == [ts[0], Comma] + ts[2..];
    } else {
      assert ts == [ts[0]] + ts[1..];
    }
  }

  lemma ListReadIs(ts: seq<Token>)
    requires ReadList(ts).Some?
    ensures ts == ListTokens(ReadList(ts).value.0) + ReadList(ts).value.1
  {
    var (items, rest) := ReadList(ts).value;
    if ts[1] == Close {
      assert ts == [Open, Close] + ts[2..] && ListTokens([]) == [Open, Close];
    } else {
      ItemsReadAre(ts[1..]);
      var tail := ReadItems(ts[1..]).value.1;
      assert ts == [Open] + (CommaList(items) + tail) && tail == [Close] + rest;
      Associative([Open], CommaList(items), tail);
      Associative([Open] + CommaList(items), [Close], rest);
    }
  }

  /** A statement reads as an INSERT in one way only. */
  lemma InsertReadIs(ts: seq<Token>)
    requires ReadInsert(ts).Some?
    ensures ts == InsertTokens(ReadInsert(ts).value)
  {
    var i := ReadInsert(ts).value;
    var head := [Word("INSERT"), Word("INTO"), Word(i.table)];
    ListReadIs(ts[3..]);
    var rest := ReadList(ts[3..]).value.1;
    ListReadIs(rest[1..]);
    assert ts == head + (ListTokens(i.columns) + rest) by {
      assert ts[..2] == [Word("INSERT"), Word("INTO")];
      assert ts[..3] == ts[..2] + [ts[2]];
      assert ts == ts[..3] + ts[3..];
    }
    assert rest == [Word("values")] + ListTokens(i.values) by {
      assert rest == [rest[0]] + rest[1..] && rest[1..] == ListTokens(i.values) + [];
    }
    Associative(head, ListTokens(i.columns), rest);
    Associative(head + ListTokens(i.columns), [Word("values")], ListTokens(i.values));
  }

  // ---- UPDATE

  datatype Condition = EqualsText(column: string, v: string)
                     | EqualsNumber(column: string, n: string)
                     | IsNull(column: string)

  datatype Update = Update(table: string, columns: seq<string>, conditions: seq<Condition>)

  /** `column=?` separated by commas. */
  function ReadPairs(ts: seq<Token>): Option<(seq<string>, seq<Token>)> {
    if |ts| < 3 || !ts[0].Word? || ts[1] != Equals || ts[2] != Mark then None
    else if |ts| > 3 && ts[3] == Comma then
      match ReadPairs(ts[4..])
      case Some((columns, rest)) => Some(([ts[0].w] + columns, rest))
      case None => None
    else Some(([ts[0].w], ts[3..]))
  }

  function ReadCondition(ts: seq<Token>): Option<Condition>
    requires |ts| >= 3
  {
    match (ts[0], ts[1], ts[2])
    case (Word(k), Equals, Literal(v)) => Some(EqualsText(k, v))
    case (Word(k), Equals, Word(n)) => if IsNumeral(n) then Some(EqualsNumber(k, n)) else None
    case (Word(k), Word(i), Word(n)) => if i == "is" && n == "null" then Some(IsNull(k)) else None
    case _ => None
  }

  /** Conditions joined by AND, to the end of the text. */
  function ReadConditions(ts: seq<Token>): Option<seq<Condition>> {
    if |ts| < 3 then None
    else
      match ReadCondition(ts)
      case None => None
      case Some(c) =>
        if |ts| == 3 then Some([c])
        else if ts[3] != Word("AND") then None
        else
          match ReadConditions(ts[4..])
          case Some(cs) => Some([c] + cs)
          case None => None
  }

  function ReadUpdate(ts: seq<Token>): Option<Update> {
    if |ts| < 3 || ts[0] != Word("UPDATE") || !ts[1].Word? || ts[2] != Word("set") then None
    else
      match ReadPairs(ts[3..])
      case None => None
      case Some((columns, rest)) =>
        if rest == [] || rest[0] != Word("WHERE") then None
        else
          match ReadConditions(rest[1..])
          case Some(cs) => Some(Update(ts[1].w, columns, cs))
          case None => None
  }

  function PairTokens(columns: seq<string>): seq<Token> {
    if columns == [] then []
    else if |columns| == 1 then [Word(columns[0]), Equals, Mark]
    else [Word(columns[0]), Equals, Mark, Comma] + PairTokens(columns[1..])
  }

  lemma {:induction false} PairsReadBack(columns: seq<string>, rest: seq<Token>)
    requires columns != [] && (rest == [] || rest[0] != Comma)
    ensures ReadPairs(PairTokens(columns) + rest) == Some((columns, rest))
    decreases |columns|
  {
    var first := [Word(columns[0]), Equals, Mark];
    if |columns| == 1 {
      Dropped(first, rest);
      assert [columns[0]] == columns;
    } else {
      var others := PairTokens(columns[1..]);
      Associative(first + [Comma], others, rest);
      Dropped(first + [Comma], others + rest);
      PairsReadBack(columns[1..], rest);
      assert PairTokens(columns) == first + [Comma] + others;
      assert [columns[0]] + columns[1..] == columns;
    }
  }

  function ConditionTokens(c: Condition): (ts: seq<Token>)
    ensures |ts| == 3
  {
    match c
    case EqualsText(k, v) => [Word(k), Equals, Literal(v)]
    case EqualsNumber(k, n) => [Word(k), Equals, Word(n)]
    case IsNull(k) => [Word(k), Word("is"), Word("null")]
  }

  function AndTokens(cs: seq<Condition>): seq<Token> {
    if cs == [] then []
    else if |cs| == 1 then ConditionTokens(cs[0])
    else ConditionTokens(cs[0]) + [Word("AND")] + AndTokens(cs[1..])
  }

  /** The numbers in the conditions are numerals. */
  predicate Numeric(cs: seq<Condition>) {
    forall i | 0 <= i < |cs| && cs[i].EqualsNumber? :: IsNumeral(cs[i].n)
  }

  /** A condition reads as itself exactly when its number, if it has one, is a numeral. */
  lemma ConditionReadsIff(c: Condition)
    ensures ReadCondition(ConditionTokens(c)) == Some(c) <==> c.EqualsNumber? ==> IsNumeral(c.n)
  {
  }

  lemma {:induction false} ConditionsReadBack(cs: seq<Condition>)
    requires cs != [] && Numeric(cs)
    ensures ReadConditions(AndTokens(cs)) == Some(cs)
    decreases |cs|
  {
    var ts := AndTokens(cs);
    assert ts[..3] == ConditionTokens(cs[0]);
    assert ts[0] == ConditionTokens(cs[0])[0] && ts[1] == ConditionTokens(cs[0])[1];
    assert ts[2] == ConditionTokens(cs[0])[2];
    if |cs| == 1 {
      assert [cs[0]] == cs;
    } else {
      ConditionsReadBack(cs[1..]);
      assert ts[4..] == AndTokens(cs[1..]);
      assert [cs[0]] + cs[1..] == cs;
    }
  }

  lemma {:induction false} CommaListClean(ts: seq<Token>)
    requires Clean(ts)
    ensures Clean(CommaList(ts))
  {
    if |ts| > 1 {
      assert Clean(ts[1..]) by { assert forall t | t in ts[1..] :: t in ts; }
      CommaListClean(ts[1..]);
    }
  }

  lemma InsertClean(i: Insert)
    requires Clean(i.columns) && Clean(i.values)
    ensures Clean(InsertTokens(i))
  {
    CommaListClean(i.columns);
    CommaListClean(i.values);
  }

  function UpdateTokens(u: Update): seq<Token> {
    [Word("UPDATE"), Word(u.table), Word("set")] + PairTokens(u.columns) + [Word("WHERE")] + AndTokens(u.conditions)
  }

  lemma {:induction false} PairsClean(columns: seq<string>)
    ensures Clean(PairTokens(columns))
  {
    if |columns| > 1 { PairsClean(columns[1..]); }
  }

  lemma {:induction false} ConditionsClean(cs: seq<Condition>)
    ensures Clean(AndTokens(cs))
  {
    if cs != [] { assert Clean(ConditionTokens(cs[0])); }
    if |cs| > 1 { ConditionsClean(cs[1..]); }
  }

  lemma UpdateClean(u: Update)
    ensures Clean(UpdateTokens(u))
  {
    PairsClean(u.columns);
    ConditionsClean(u.conditions);
  }

  lemma {:induction false} PairsReadAre(ts: seq<Token>)
    requires ReadPairs(ts).Some?
    ensures ReadPairs(ts).value.0 != []
    ensures ts == PairTokens(ReadPairs(ts).value.0) + ReadPairs(ts).value.1
    decreases |ts|
  {
    var (columns, rest) := ReadPairs(ts).value;
    var first := [ts[0], Equals, Mark];
    if |ts| > 3 && ts[3] == Comma {
      PairsReadAre(ts[4..]);
      assert ts == first + [Comma] + ts[4..];
      assert columns[1..] == ReadPairs(ts[4..]).value.0 && columns[0] == ts[0].w;
      assert PairTokens(columns) == first + [Comma] + PairTokens(columns[1..]);
      Associative(first + [Comma], PairTokens(columns[1..]), rest);
    } else {
      assert ts == first + ts[3..];
    }
  }

  /** What is read has numerals for numbers. */
  lemma {:induction false} ConditionsReadAreNumeric(ts: seq<Token>)
    requires ReadConditions(ts).Some?
    ensures Numeric(ReadConditions(ts).value)
    decreases |ts|
  {
    if |ts| > 3 { ConditionsReadAreNumeric(ts[4..]); }
  }

  lemma UpdateReadIsNumeric(ts: seq<Token>)
    requires ReadUpdate(ts).Some?
    ensures Numeric(ReadUpdate(ts).value.conditions)
  {
    ConditionsReadAreNumeric(ReadPairs(ts[3..]).value.1[1..]);
  }

  /** Not a number and infinity, as NSNumber prints them, are names to the server. */
  lemma NotNumerals()
    ensures !IsNumeral("nan") && !IsNumeral("inf") && !IsNumeral("-inf")
  {
    assert "-inf"[1..] == "inf";
  }

  lemma {:induction false} ConditionsReadAre(ts: seq<Token>)
    requires ReadConditions(ts).Some?
    ensures ReadConditions(ts).value != [] && ts == AndTokens(ReadConditions(ts).value)
    decreases |ts|
  {
    var cs := ReadConditions(ts).value;
    assert ts[..3] == ConditionTokens(cs[0]);
    if |ts| > 3 {
      ConditionsReadAre(ts[4..]);
      assert cs[1..] == ReadConditions(ts[4..]).value;
      assert ts == ts[..3] + [ts[3]] + ts[4..];
    } else {
      assert ts == ts[..3];
    }
  }

  /** A statement reads as an UPDATE in one way only. */
  lemma UpdateReadIs(ts: seq<Token>)
    requires ReadUpdate(ts).Some?
    ensures ts == UpdateTokens(ReadUpdate(ts).value)
  {
    var u := ReadUpdate(ts).value;
    var head := [Word("UPDATE"), Word(u.table), Word("set")];
    PairsReadAre(ts[3..]);
    var rest := ReadPairs(ts[3..]).value.1;
    ConditionsReadAre(rest[1..]);
    assert ts == head + (PairTokens(u.columns) + rest) by {
      assert ts[..3] == head && ts == ts[..3] + ts[3..];
    }
    assert rest == [Word("WHERE")] + AndTokens(u.conditions) by {
      assert rest == [rest[0]] + rest[1..];
    }
    Associative(head, PairTokens(u.columns), rest);
    Associative(head + PairTokens(u.columns), [Word("WHERE")], AndTokens(u.conditions));
  }

  // ---- Statements that are cut short

  lemma {:induction false} TrailingSpace(read: Reader, s: string)
    requires Scans(read)
    ensures Lex(read, s + " ") == Lex(read, s)
    decreases |s|
  {
    if s == "" {
      assert s + " " == [' '] + "";
      LexChar(read, ' ', "");
    } else if s[0] == '\'' {
      LiteralAndSpace(read, s[1..]);
      assert (s + " ")[1..] == s[1..] + " ";
      if read(s[1..]).Some? { TrailingSpace(read, read(s[1..]).value.1); }
    } else if Separator(s[0]) {
      assert (s + " ")[1..] == s[1..] + " ";
      TrailingSpace(read, s[1..]);
    } else {
      var n := WordLength(s);
      WordGrows(s, " ");
      assert (s + " ")[..n] == s[..n] && (s + " ")[n..] == s[n..] + " ";
      TrailingSpace(read, s[n..]);
    }
  }

  lemma LiteralAndSpace(read: Reader, s: string)
    requires Scans(read)
    ensures read(s + " ") == match read(s)
                             case None => None
                             case Some((v, rest)) => Some((v, rest + " "))
  {
    if read(s + " ").Some? {
      var (v, r) := read(s + " ").value;
      assert AfterQuote(s + " ", r);
      var rest := r[..|r| - 1];
      assert r == rest + " " && !Quoted(" ");
      assert read(s) == Some((v, rest)) <==> read(s + " ") == Some((v, rest + " "));
    }
    if read(s).Some? {
      var (v, rest) := read(s).value;
      assert !Quoted(" ") && read(s + " ") == Some((v, rest + " "));
    }
  }

  /** A word goes on for as long as it does in a longer text, or ends where the shorter text ends. */
  lemma {:induction false} WordGrows(s: string, more: string)
    ensures WordLength(s) < |s| ==> WordLength(s + more) == WordLength(s)
    ensures WordLength(s) == |s| ==> WordLength(s + more) == |s| + WordLength(more)
  {
    if s == "" {
      assert s + more == more;
    } else if !Separator(s[0]) {
      assert (s + more)[1..] == s[1..] + more;
      WordGrows(s[1..], more);
    }
  }

  /** A text that is not all spaces has a token. */
  lemma {:induction false} SomeToken(read: Reader, u: string)
    requires exists i :: 0 <= i < |u| && u[i] != ' '
    ensures Lex(read, u) != []
  {
    if u[0] == ' ' {
      assert u == [' '] + u[1..];
      LexChar(read, ' ', u[1..]);
      var i :| 0 <= i < |u| && u[i] != ' ';
      assert u[1..][i - 1] != ' ';
      SomeToken(read, u[1..]);
    }
  }

  /** A statement cut before something that counts has other tokens than the whole of it. */
  lemma {:induction false} CutDiffers(read: Reader, t: string, u: string)
    requires Scans(read) && Clean(Lex(read, t + u))
    requires exists i :: 0 <= i < |u| && u[i] != ' '
    ensures Lex(read, t) != Lex(read, t + u)
    decreases |t|, 1
  {
    var whole := t + u;
    if t == "" {
      assert whole == u;
      SomeToken(read, u);
    } else {
      assert whole[0] == t[0] && whole[1..] == t[1..] + u;
      if t[0] == '\'' {
        CutLiteral(read, t, u);
      } else if Separator(t[0]) {
        CutAfter(read, Single(t[0]), t[1..], u);
      } else {
        CutWord(read, t, u);
      }
    }
  }

  /** The same tokens, and then a cut. */
  lemma CutAfter(read: Reader, first: seq<Token>, t: string, u: string)
    requires Scans(read) && Clean(first + Lex(read, t + u))
    requires exists i :: 0 <= i < |u| && u[i] != ' '
    ensures first + Lex(read, t) != first + Lex(read, t + u)
    decreases |t|, 2
  {
    var a, b := Lex(read, t), Lex(read, t + u);
    assert forall x | x in b :: x in first + b;
    CutDiffers(read, t, u);
    Dropped(first, a);
    Dropped(first, b);
  }

  lemma CutLiteral(read: Reader, t: string, u: string)
    requires Scans(read) && Clean(Lex(read, t + u)) && Quoted(t)
    requires exists i :: 0 <= i < |u| && u[i] != ' '
    ensures Lex(read, t) != Lex(read, t + u)
    decreases |t|, 0
  {
    var s, whole := t[1..], t + u;
    assert whole[1..] == s + u;
    if read(s + u).None? || read(s).None? {
      assert Lex(read, t) == [Unclosed] || Lex(read, whole) == [Unclosed];
    } else {
      var (v, rest) := read(s).value;
      assert AfterQuote(s, rest) && AfterQuote(s + u, read(s + u).value.1);
      if rest == "" && Quoted(u) {
        assert read(s + u).value.0 != v;
        assert Lex(read, t)[0] == Literal(v) && Lex(read, whole)[0] == Literal(read(s + u).value.0);
      } else {
        assert read(s + u) == Some((v, rest + u));
        assert Lex(read, whole) == [Literal(v)] + Lex(read, rest + u);
        CutAfter(read, [Literal(v)], rest, u);
      }
    }
  }

  lemma CutWord(read: Reader, t: string, u: string)
    requires Scans(read) && Clean(Lex(read, t + u)) && t != "" && !Separator(t[0])
    requires exists i :: 0 <= i < |u| && u[i] != ' '
    ensures Lex(read, t) != Lex(read, t + u)
    decreases |t|, 0
  {
    var n, whole := WordLength(t), t + u;
    WordGrows(t, u);
    LexWordStart(read, t);
    LexWordStart(read, whole);
    if n < |t| {
      CutInside(t, u, n);
      CutAfter(read, [Word(t[..n])], t[n..], u);
    } else if WordLength(u) > 0 {
      assert |whole[..WordLength(whole)]| > |t[..n]|;
      assert Lex(read, t)[0] != Lex(read, whole)[0];
    } else {
      Dropped(t, u);
      assert t[..n] == t && t[n..] == "";
      SomeToken(read, u);
      Dropped([Word(t)], Lex(read, u));
    }
  }

  lemma LexWordStart(read: Reader, t: string)
    requires t != "" && !Separator(t[0])
    ensures Lex(read, t) == [Word(t[..WordLength(t)])] + Lex(read, t[WordLength(t)..])
  {
  }

  lemma CutInside(t: string, u: string, n: nat)
    requires n <= |t|
    ensures (t + u)[..n] == t[..n] && (t + u)[n..] == t[n..] + u
  {
  }

  // ---- The hypotheses about escaping can be met, for one by a backslash before quotes and backslashes,
  // ---- with a reader that takes a doubled quote for a quote as well.

  function EscapedChar(c: char): string {
    if c == '\\' || c == '\'' then ['\\', c] else [c]
  }

  function BackslashEscape(v: string): string {
    if v == "" then ""
    else EscapedChar(v[0]) + BackslashEscape(v[1..])
  }

  /** The character that `s` starts with, as it stands in a literal, and how much of `s` it takes; nothing
      at the end of the literal or of `s`. */
  function ReadChar(s: string): (r: Option<(char, nat)>)
    ensures r.Some? ==> 1 <= r.value.1 <= |s|
  {
    if s == "" then None
    else if s[0] == '\'' then (if Quoted(s[1..]) then Some(('\'', 2)) else None)
    else if s[0] == '\\' then (if |s| > 1 then Some((s[1], 2)) else None)
    else Some((s[0], 1))
  }

  function BackslashRead(s: string): Option<(string, string)> {
    match ReadChar(s)
    case None => if Quoted(s) then Some(("", s[1..])) else None
    case Some((c, k)) =>
      match BackslashRead(s[k..])
      case Some((v, rest)) => Some(([c] + v, rest))
      case None => None
  }

  lemma {:induction false} BackslashReadsBack(v: string, tail: string)
    requires Quoted(tail) && !Quoted(tail[1..])
    ensures BackslashRead(BackslashEscape(v) + tail) == Some((v, tail[1..]))
  {
    if v == "" {
      assert BackslashEscape(v) + tail == tail;
    } else {
      var rest := BackslashEscape(v[1..]) + tail;
      BackslashReadsBack(v[1..], tail);
      Associative(EscapedChar(v[0]), BackslashEscape(v[1..]), tail);
      ReadEscaped(v[0], rest);
      assert [v[0]] + v[1..] == v;
    }
  }

  lemma ReadEscaped(c: char, rest: string)
    ensures ReadChar(EscapedChar(c) + rest) == Some((c, |EscapedChar(c)|))
    ensures (EscapedChar(c) + rest)[|EscapedChar(c)|..] == rest
  {
  }

  lemma {:induction false} BackslashKeeps(w: string)
    requires forall i | 0 <= i < |w| :: Plain(w[i])
    ensures BackslashEscape(w) == w
  {
    if w != "" {
      BackslashKeeps(w[1..]);
      assert [w[0]] + w[1..] == w;
    }
  }

  lemma {:induction false} BackslashStops(s: string)
    requires BackslashRead(s).Some?
    ensures AfterQuote(s, BackslashRead(s).value.1)
    decreases |s|
  {
    if ReadChar(s).Some? {
      var k := ReadChar(s).value.1;
      var rest := BackslashRead(s).value.1;
      BackslashStops(s[k..]);
      assert s[k..][|s[k..]| - |rest|..] == s[|s| - |rest|..];
    }
  }

  /** What more text does to what has been read. */
  lemma {:induction false} BackslashGoesOn(s: string, more: string)
    ensures var short, long := BackslashRead(s), BackslashRead(s + more);
            && (short.Some? && !(short.value.1 == "" && Quoted(more)) ==>
                  long == Some((short.value.0, short.value.1 + more)))
            && (short.Some? && short.value.1 == "" && Quoted(more) ==>
                  long.None? || (|long.value.0| > |short.value.0| && |long.value.1| < |more|))
            && (short.None? && long.Some? ==> |long.value.1| < |more|)
    decreases |s|
  {
    var long := s + more;
    if s == "" {
      assert long == more;
      if BackslashRead(long).Some? { BackslashStops(long); }
    } else if s == "\\" || (s == "'" && Quoted(more)) {
      OpenEnded(s, more);
    } else if ReadChar(s).None? {
      assert long[1..] == s[1..] + more && long[0] == s[0];
    } else {
      CharGoesOn(s, more);
      BackslashGoesOn(s[ReadChar(s).value.1..], more);
    }
  }

  lemma CharGoesOn(s: string, more: string)
    requires ReadChar(s).Some?
    ensures ReadChar(s + more) == ReadChar(s)
    ensures (s + more)[ReadChar(s).value.1..] == s[ReadChar(s).value.1..] + more
  {
    assert (s + more)[0] == s[0] && (|s| > 1 ==> (s + more)[1] == s[1] && (s + more)[1..][0] == s[1]);
  }

  /** A last character that what follows belongs to. */
  lemma OpenEnded(s: string, more: string)
    requires s == "\\" || (s == "'" && Quoted(more))
    ensures BackslashRead(s + more).Some? ==> |BackslashRead(s + more).value.1| < |more| &&
                                              |BackslashRead(s + more).value.0| > 0
  {
    var long := s + more;
    if more == "" {
      assert long == s;
    } else {
      assert long[0] == s[0] && long[1] == more[0] && long[2..] == more[1..] && long[1..] == more;
      if BackslashRead(more[1..]).Some? { BackslashStops(more[1..]); }
    }
  }

  lemma BackslashScans()
    ensures Scans(BackslashRead)
  {
    forall s | BackslashRead(s).Some? ensures AfterQuote(s, BackslashRead(s).value.1) { BackslashStops(s); }
    forall s, v, rest, more | !(rest == "" && Quoted(more))
      ensures BackslashRead(s) == Some((v, rest)) <==> BackslashRead(s + more) == Some((v, rest + more))
    {
      BackslashGoesOn(s, more);
      if BackslashRead(s).Some? && BackslashRead(s + more) == Some((v, rest + more)) {
        BackslashSame(s, v, rest, more);
      }
    }
    forall s, more | BackslashRead(s).Some? && BackslashRead(s).value.1 == "" && Quoted(more)
      ensures BackslashRead(s + more).None? || BackslashRead(s + more).value.0 != BackslashRead(s).value.0
    {
      BackslashGoesOn(s, more);
    }
  }

  lemma BackslashSame(s: string, v: string, rest: string, more: string)
    requires BackslashRead(s).Some? && BackslashRead(s + more) == Some((v, rest + more))
    requires !(rest == "" && Quoted(more))
    ensures BackslashRead(s) == Some((v, rest))
  {
    BackslashGoesOn(s, more);
    Unappended(BackslashRead(s).value.1, rest, more);
  }

  lemma Unappended(a: string, b: string, c: string)
    ensures a + c == b + c ==> a == b
  {
    if a + c == b + c { assert a == (a + c)[..|a|] == b; }
  }

  lemma EscapingCanBeUndone() returns (esc: string -> string)
    ensures ReadsBack(esc, BackslashRead) && KeepsWords(esc) && Scans(BackslashRead)
  {
    BackslashScans();
    esc := (v: string) => BackslashEscape(CString(v));
    forall v, rest | !Quoted(rest) ensures BackslashRead(esc(v) + "'" + rest) == Some((CString(v), rest)) {
      Dropped("'", rest);
      BackslashReadsBack(CString(v), "'" + rest);
      Associative(esc(v), "'", rest);
    }
    forall w | IsWord(w) ensures esc(w) == w {
      assert 0 as char !in w;
      BackslashKeeps(w);
    }
  }
}
