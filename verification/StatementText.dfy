/** From the text the connector builds to the bytes the server parses. `mysql_stmt_prepare` is given
    `[cmd UTF8String]` with `[cmd length]`, which counts UTF-16 units and not bytes. */
module StatementText {
  import opened CHeap
  import opened CTypes
  import opened SqlText

  /** One character in UTF-8 (RFC 3629, section 3). */
  function Utf8Char(c: char): (b: Bytes)
    ensures |b| == (if c as int < 0x80 then 1 else if c as int < 0x800 then 2 else if c as int < 0x10000 then 3 else 4)
  {
    var n := c as int;
    if n < 0x80 then [n]
    else if n < 0x800 then [0xC0 + n / 0x40, 0x80 + n % 0x40]
    else if n < 0x10000 then [0xE0 + n / 0x1000, 0x80 + n / 0x40 % 0x40, 0x80 + n % 0x40]
    else [0xF0 + n / 0x40000, 0x80 + n / 0x1000 % 0x40, 0x80 + n / 0x40 % 0x40, 0x80 + n % 0x40]
  }

  function Utf8(s: string): Bytes {
    if s == "" then [] else Utf8Char(s[0]) + Utf8(s[1..])
  }

  /** One character in UTF-16: itself, or a high and a low surrogate (RFC 2781, section 2.1). */
  function Utf16Char(c: char): (u: seq<uint16>)
    ensures if c as int < 0x10000 then u == [c as int]
            else |u| == 2 && 0xD800 <= u[0] < 0xDC00 <= u[1] < 0xE000
                 && c as int == 0x10000 + (u[0] - 0xD800) as int * 0x400 + (u[1] - 0xDC00) as int
  {
    var n := c as int;
    if n < 0x10000 then [n] else [0xD800 + (n - 0x10000) / 0x400, 0xDC00 + (n - 0x10000) % 0x400]
  }

  function Utf16(s: string): seq<uint16> {
    if s == "" then [] else Utf16Char(s[0]) + Utf16(s[1..])
  }

  /** `[s length]` */
  function Utf16Length(s: string): nat {
    |Utf16(s)|
  }

  predicate IsHigh(u: uint16) {
    0xD800 <= u < 0xDC00
  }

  predicate IsLow(u: uint16) {
    0xDC00 <= u < 0xE000
  }

  function DecodeUtf16(u: seq<uint16>): Option<string> {
    if u == [] then Some("")
    else
      var pair := |u| > 1 && IsHigh(u[0]) && IsLow(u[1]);
      if !pair && (IsHigh(u[0]) || IsLow(u[0])) then None
      else
        var c := if pair then (0x10000 + (u[0] as int - 0xD800) * 0x400 + (u[1] as int - 0xDC00)) as char
                 else u[0] as char;
        match DecodeUtf16(u[if pair then 2 else 1..])
        case None => None
        case Some(s) => Some([c] + s)
  }

  /** The units that are counted are those of an encoding: they give the text back. */
  lemma {:induction false} Utf16ReadsBack(s: string)
    ensures DecodeUtf16(Utf16(s)) == Some(s)
  {
    if s != "" {
      Utf16ReadsBack(s[1..]);
      Dropped(Utf16Char(s[0]), Utf16(s[1..]));
      assert [s[0]] + s[1..] == s;
    }
  }

  /** A character of one, two, three or four bytes has 0, 1, 2 or 2 in excess of its units. */
  lemma ExcessOfChar(c: char)
    ensures Excess([c]) == match |Utf8Char(c)|
                           case 1 => 0
                           case 2 => 1
                           case _ => 2
  {
    assert [c][1..] == "";
    assert Utf8([c]) == Utf8Char(c) + [] && Utf16([c]) == Utf16Char(c) + [];
  }

  predicate Ascii(s: string) {
    forall i | 0 <= i < |s| :: s[i] as int < 0x80
  }

  lemma {:induction false} BytesAndUnits(s: string)
    ensures Utf16Length(s) <= |Utf8(s)|
    ensures Utf16Length(s) == |Utf8(s)| <==> Ascii(s)
  {
    if s != "" {
      BytesAndUnits(s[1..]);
      assert |Utf16Char(s[0])| <= |Utf8Char(s[0])|;
      assert Ascii(s) <==> s[0] as int < 0x80 && Ascii(s[1..]) by {
        assert forall i | 1 <= i < |s| :: s[i] == s[1..][i - 1];
        assert forall i | 0 <= i < |s| - 1 :: s[1..][i] == s[i + 1];
      }
    }
  }

  /** The bytes of the statement the server is given. */
  function Prepared(cmd: string): (b: Bytes)
    ensures b <= Utf8(cmd)
  {
    BytesAndUnits(cmd);
    Utf8(cmd)[..Utf16Length(cmd)]
  }

  /** How many bytes a text has more than UTF-16 units; the server is not given as many from its end. */
  function Excess(s: string): nat {
    BytesAndUnits(s);
    |Utf8(s)| - Utf16Length(s)
  }

  /** The server is given the whole statement exactly when all of its characters are ASCII. */
  lemma WholeIffAscii(cmd: string)
    ensures Prepared(cmd) == Utf8(cmd) <==> Ascii(cmd)
    ensures |Prepared(cmd)| == |Utf8(cmd)| - Excess(cmd)
  {
    BytesAndUnits(cmd);
    assert Utf8(cmd)[..|Utf8(cmd)|] == Utf8(cmd);
  }

  lemma {:induction false} Utf8Concat(s: string, t: string)
    ensures Utf8(s + t) == Utf8(s) + Utf8(t) && Utf16Length(s + t) == Utf16Length(s) + Utf16Length(t)
    ensures Excess(s + t) == Excess(s) + Excess(t)
  {
    if s == "" {
      assert s + t == t;
    } else {
      assert (s + t)[1..] == s[1..] + t;
      Utf8Concat(s[1..], t);
    }
  }

  lemma AsciiConcat(s: string, t: string)
    ensures Ascii(s + t) <==> Ascii(s) && Ascii(t)
  {
    forall i | 0 <= i < |s| ensures (s + t)[i] == s[i] {}
    forall i | 0 <= i < |t| ensures t[i] == (s + t)[|s| + i] {}
  }

  lemma ExcessInside(head: string, s: string, tail: string)
    requires Ascii(head) && Ascii(tail)
    ensures Excess(head + s + tail) == Excess(s)
  {
    Utf8Concat(head + s, tail);
    Utf8Concat(head, s);
    BytesAndUnits(head);
    BytesAndUnits(tail);
  }

  lemma ThreeByteLetter()
    ensures Excess("\U{540D}") == 2
  {
    ExcessOfChar('\U{540D}');
    assert ['\U{540D}'] == "\U{540D}";
  }

  lemma TwoByteLetters()
    ensures Excess("\U{E9}") == 1 && Excess("\U{E9}\U{E9}") == 2
  {
    assert Excess("\U{E9}") == 1 by { assert "\U{E9}"[1..] == ""; }
    Utf8Concat("\U{E9}", "\U{E9}");
    assert "\U{E9}" + "\U{E9}" == "\U{E9}\U{E9}";
  }

  // ---- Decoding

  /** How many bytes the character has that starts with `lead`; 0 if none does. */
  function Size(lead: uchar): nat {
    if lead < 0x80 then 1
    else if lead < 0xC0 then 0
    else if lead < 0xE0 then 2
    else if lead < 0xF0 then 3
    else if lead < 0xF8 then 4
    else 0
  }

  /** The number that the bytes of one character carry. */
  function Code(b: Bytes): int
    requires b != [] && |b| == Size(b[0])
  {
    if |b| == 1 then b[0]
    else if |b| == 2 then (b[0] as int - 0xC0) * 0x40 + Low(b[1])
    else if |b| == 3 then (b[0] as int - 0xE0) * 0x1000 + Low(b[1]) * 0x40 + Low(b[2])
    else (b[0] as int - 0xF0) * 0x40000 + Low(b[1]) * 0x1000 + Low(b[2]) * 0x40 + Low(b[3])
  }

  /** The number in a byte that continues a character. */
  function Low(b: uchar): int {
    b as int - 0x80
  }

  predicate IsScalar(n: int) {
    0 <= n < 0xD800 || 0xE000 <= n < 0x11_0000
  }

  /** The first character, if the bytes start with one. */
  function FirstChar(b: Bytes): (r: Option<char>)
    requires b != []
    ensures r.Some? ==> |Utf8Char(r.value)| <= |b| && b[..|Utf8Char(r.value)|] == Utf8Char(r.value)
  {
    var n := Size(b[0]);
    if n == 0 || |b| < n || !IsScalar(Code(b[..n])) then None
    else
      var c := Code(b[..n]) as char;
      if Utf8Char(c) == b[..n] then Some(c) else None
  }

  /** `initWithBytes:length:encoding:` for UTF-8: nil, here `None`, for bytes that are not UTF-8. */
  function Decode(b: Bytes): (r: Option<string>)
    ensures r.Some? ==> Utf8(r.value) == b
  {
    if b == [] then Some("")
    else
      match FirstChar(b)
      case None => None
      case Some(c) =>
        match Decode(b[|Utf8Char(c)|..])
        case None => None
        case Some(s) =>
          assert ([c] + s)[1..] == s;
          Some([c] + s)
  }

  lemma CodeIsChar(c: char)
    ensures Size(Utf8Char(c)[0]) == |Utf8Char(c)| && Code(Utf8Char(c)) == c as int
  {
    var n := c as int;
    Digits64(n);
    Digits64(n / 0x40);
    Digits64(n / 0x1000);
  }

  lemma Digits64(n: nat)
    ensures n == n / 0x40 * 0x40 + n % 0x40 && n / 0x40 / 0x40 == n / 0x1000 && n / 0x1000 / 0x40 == n / 0x40000
  {
  }

  lemma FirstCharIs(c: char, rest: Bytes)
    ensures FirstChar(Utf8Char(c) + rest) == Some(c)
  {
    CodeIsChar(c);
    Dropped(Utf8Char(c), rest);
  }

  /** Exactly the encodings of strings decode, each to its string. */
  lemma {:induction false} DecodeIff(b: Bytes, s: string)
    ensures Decode(b) == Some(s) <==> b == Utf8(s)
    decreases |s|
  {
    if b == Utf8(s) && s != "" {
      FirstCharIs(s[0], Utf8(s[1..]));
      Dropped(Utf8Char(s[0]), Utf8(s[1..]));
      DecodeIff(Utf8(s[1..]), s[1..]);
      assert [s[0]] + s[1..] == s;
    }
    if Decode(b) == Some(s) {
      assert Utf8(s) == b;
    }
  }

  /** No text's encoding starts another's unless the text starts the other. */
  lemma {:induction false} PrefixCode(t: string, s: string)
    requires Utf8(t) <= Utf8(s)
    ensures t <= s
  {
    if t != "" {
      assert Utf8(s) != [] && s != "";
      var rest := Utf8(s)[|Utf8Char(t[0])|..];
      assert Utf8(s) == Utf8Char(t[0]) + rest;
      FirstCharIs(t[0], rest);
      FirstCharIs(s[0], Utf8(s[1..]));
      Dropped(Utf8Char(s[0]), Utf8(s[1..]));
      PrefixCode(t[1..], s[1..]);
      assert t == [t[0]] + t[1..] && s == [s[0]] + s[1..];
    }
  }

  lemma PrefixIsNotLonger(t: string, s: string)
    requires t <= s
    ensures |Utf8(t)| <= |Utf8(s)|
  {
    Utf8Concat(t, s[|t|..]);
    assert s == t + s[|t|..];
  }

  // ---- What is lost

  /** The text whose bytes the server is given, if they are those of a text. */
  function Delivered(cmd: string): Option<string> {
    Decode(Prepared(cmd))
  }

  /** The server is given the very text that was printed exactly when it is ASCII. */
  lemma PreparedIsTextIff(cmd: string)
    ensures Delivered(cmd) == Some(cmd) <==> Ascii(cmd)
  {
    WholeIffAscii(cmd);
    DecodeIff(Prepared(cmd), cmd);
  }

  function Blanks(n: nat): (b: string)
    ensures |b| == n && forall i | 0 <= i < n :: b[i] == ' '
  {
    seq(n, i => ' ')
  }

  /** How many spaces a text ends in. */
  function TrailingSpaces(s: string): (n: nat)
    ensures n <= |s| && s == s[..|s| - n] + Blanks(n)
    ensures n < |s| ==> s[|s| - n - 1] != ' '
  {
    if s == "" || s[|s| - 1] != ' ' then
      assert Blanks(0) == [];
      0
    else
      var n := TrailingSpaces(s[..|s| - 1]);
      assert Blanks(n + 1) == Blanks(n) + [' '];
      n + 1
  }

  lemma {:induction false} BlanksAreOneByte(n: nat)
    ensures |Utf8(Blanks(n))| == n && Utf16Length(Blanks(n)) == n
  {
    if n > 0 {
      assert Blanks(n)[1..] == Blanks(n - 1);
      BlanksAreOneByte(n - 1);
    }
  }

  /** What is lost is as many bytes as are in excess: of `k` spaces at the end, so many spaces, and with more
      in excess all of them and something of what stands before. */
  lemma DeliveredIs(core: string, k: nat)
    ensures var cmd := core + Blanks(k);
            && (Excess(cmd) <= k ==> Delivered(cmd) == Some(core + Blanks(k - Excess(cmd))))
            && (Excess(cmd) > k && Delivered(cmd).Some? ==>
                  Delivered(cmd).value <= core && Delivered(cmd).value != core)
  {
    var cmd := core + Blanks(k);
    var e := Excess(cmd);
    WholeIffAscii(cmd);
    BytesAndUnits(cmd);
    Utf8Concat(core, Blanks(k));
    BlanksAreOneByte(k);
    if e <= k {
      var t := core + Blanks(k - e);
      Utf8Concat(core, Blanks(k - e));
      BlanksAreOneByte(k - e);
      assert cmd == t + Blanks(e);
      Utf8Concat(t, Blanks(e));
      Dropped(Utf8(t), Utf8(Blanks(e)));
      DecodeIff(Utf8(t), t);
    } else if Delivered(cmd).Some? {
      var t := Delivered(cmd).value;
      PrefixCode(t, cmd);
      if core <= t { PrefixIsNotLonger(core, t); }
      assert t == cmd[..|t|];
    }
  }

  /** What the server reads in a statement. */
  function ServerTokens(read: Reader, text: Bytes): Option<seq<Token>> {
    match Decode(text)
    case None => None
    case Some(t) => Some(Lex(read, t))
  }

  lemma {:induction false} BlanksAreSkipped(read: Reader, core: string, k: nat)
    requires Scans(read)
    ensures Lex(read, core + Blanks(k)) == Lex(read, core)
  {
    if k == 0 {
      assert core + Blanks(0) == core;
    } else {
      BlanksAreSkipped(read, core, k - 1);
      TrailingSpace(read, core + Blanks(k - 1));
      assert core + Blanks(k) == core + Blanks(k - 1) + " ";
    }
  }

  /** A statement has all its tokens for the server exactly when no more bytes of it are in excess than it has
      spaces at its end. */
  lemma TokensArriveIff(read: Reader, cmd: string)
    requires Scans(read) && Clean(Lex(read, cmd))
    ensures ServerTokens(read, Prepared(cmd)) == Some(Lex(read, cmd)) <==> Excess(cmd) <= TrailingSpaces(cmd)
  {
    var k := TrailingSpaces(cmd);
    var core := cmd[..|cmd| - k];
    TokensBeforeBlanks(read, core, k);
  }

  lemma TokensBeforeBlanks(read: Reader, core: string, k: nat)
    requires Scans(read) && Clean(Lex(read, core + Blanks(k))) && (core != "" ==> core[|core| - 1] != ' ')
    ensures ServerTokens(read, Prepared(core + Blanks(k))) == Some(Lex(read, core + Blanks(k))) <==>
            Excess(core + Blanks(k)) <= k
  {
    if Excess(core + Blanks(k)) <= k { BlanksAreLost(read, core, k); } else { MoreIsLost(read, core, k); }
  }

  lemma DecodedTokens(read: Reader, text: Bytes, t: string)
    requires Decode(text) == Some(t)
    ensures ServerTokens(read, text) == Some(Lex(read, t))
  {
  }

  lemma BlanksAreLost(read: Reader, core: string, k: nat)
    requires Scans(read) && Excess(core + Blanks(k)) <= k
    ensures ServerTokens(read, Prepared(core + Blanks(k))) == Some(Lex(read, core + Blanks(k)))
  {
    var e := Excess(core + Blanks(k));
    DeliveredIs(core, k);
    DecodedTokens(read, Prepared(core + Blanks(k)), core + Blanks(k - e));
    SameAmongBlanks(read, core, k, k - e);
  }

  lemma SameAmongBlanks(read: Reader, core: string, k: nat, j: nat)
    requires Scans(read)
    ensures Lex(read, core + Blanks(k)) == Lex(read, core + Blanks(j))
  {
    BlanksAreSkipped(read, core, k);
    BlanksAreSkipped(read, core, j);
  }

  lemma MoreIsLost(read: Reader, core: string, k: nat)
    requires Scans(read) && Clean(Lex(read, core + Blanks(k))) && Excess(core + Blanks(k)) > k
    requires core != "" ==> core[|core| - 1] != ' '
    ensures ServerTokens(read, Prepared(core + Blanks(k))) != Some(Lex(read, core + Blanks(k)))
  {
    DeliveredIs(core, k);
    BlanksAreSkipped(read, core, k);
    if Delivered(core + Blanks(k)).Some? {
      LostDiffers(read, core, Delivered(core + Blanks(k)).value);
    }
  }

  lemma LostDiffers(read: Reader, core: string, t: string)
    requires Scans(read) && Clean(Lex(read, core)) && t <= core && t != core && core[|core| - 1] != ' '
    ensures Lex(read, t) != Lex(read, core)
  {
    LastIsCut(core, t);
    CutDiffers(read, t, core[|t|..]);
  }

  lemma LastIsCut(core: string, t: string)
    requires t <= core && t != core && core[|core| - 1] != ' '
    ensures t + core[|t|..] == core && exists i :: 0 <= i < |core[|t|..]| && core[|t|..][i] != ' '
  {
    var u := core[|t|..];
    assert u[|u| - 1] == core[|core| - 1];
  }

  lemma OneSpace(core: string)
    requires core != "" && core[|core| - 1] != ' '
    ensures TrailingSpaces(core + " ") == 1
  {
    assert (core + " ")[..|core|] == core;
    assert TrailingSpaces(core) == 0;
  }

  /** Bytes in excess, as many as there are ASCII characters at the end: these are gone. */
  lemma EndIsLost(core: string, end: string)
    requires Ascii(end) && Excess(core + end) == |end|
    ensures Delivered(core + end) == Some(core)
  {
    Utf8Concat(core, end);
    BytesAndUnits(core + end);
    AsciiBytes(end);
    Dropped(Utf8(core), Utf8(end));
    DecodeIff(Utf8(core), core);
  }

  lemma {:induction false} AsciiBytes(s: string)
    requires Ascii(s)
    ensures |Utf8(s)| == |s|
  {
    if s != "" { AsciiBytes(s[1..]); }
  }

  /** A query, such as a command to fetch, without a space at its end. */
  function Query(column: string, id: string): string {
    "SELECT " + column + (" FROM t WHERE id=" + id)
  }

  lemma QueryIsCut(read: Reader, column: string, id: string, d: char)
    requires Excess(column) == 1 && Ascii(id) && d as int < 0x80
    ensures Excess(Query(column, id + [d])) == 1
    ensures ServerTokens(read, Prepared(Query(column, id + [d]))) == Some(Lex(read, Query(column, id)))
  {
    AsciiConcat(id, [d]);
    AsciiConcat(" FROM t WHERE id=", id + [d]);
    ExcessInside("SELECT ", column, " FROM t WHERE id=" + (id + [d]));
    Associative(" FROM t WHERE id=", id, [d]);
    Associative("SELECT " + column, " FROM t WHERE id=" + id, [d]);
    EndIsLost(Query(column, id), [d]);
  }

  /** One letter of two bytes, and the query is for another row. */
  lemma SelectIsCut(read: Reader)
    ensures ServerTokens(read, Prepared(Query("\U{E9}", "12"))) == Some(Lex(read, Query("\U{E9}", "1")))
  {
    TwoByteLetters();
    QueryIsCut(read, "\U{E9}", "1", '2');
    assert "1" + ['2'] == "12";
  }
}
