/**
 Sessions in a registry export.

 The partner of the parser is a printer of such exports: sections with string, number and
 binary values, names and texts escaped, long binary values continued over several lines.
 */
module RegFile {
  import opened Wrappers
  import Bytes
  import opened Text
  import opened Search

  datatype Source = Putty | Kitty

  datatype Session = Session(name: string, values: map<string, string>, source: Source)

  /** What the parser has found, the section it is in, and whether a value goes on in the next line. */
  datatype Parser = Parser(sessions: seq<Session>, current: Option<nat>, continued: bool)

  // ------------------------------------------------------------------ one line

  predicate EndsInBackslash(line: string) {
    line != [] && line[|line| - 1] == '\\'
  }

  function LowerChar(c: char): char {
    if 'A' <= c <= 'Z' then (c as int + 32) as char else c
  }

  function Lower(s: string): (lower: string)
    ensures |lower| == |s| && forall i :: 0 <= i < |s| ==> lower[i] == LowerChar(s[i])
  {
    seq(|s|, i requires 0 <= i < |s| => LowerChar(s[i]))
  }

  lemma LowerIs(c: char)
    ensures forall i :: 0 <= i < 26 && c == "ABCDEFGHIJKLMNOPQRSTUVWXYZ"[i] ==>
              LowerChar(c) == "abcdefghijklmnopqrstuvwxyz"[i]
    ensures c !in "ABCDEFGHIJKLMNOPQRSTUVWXYZ" ==> LowerChar(c) == c
  {
  }

  const SESSIONS := "\\sessions\\"
  const KITTY := "\\kitty\\"

  /** The session a registry key names, if it is one directly under a Sessions key. */
  function SessionOf(key: string): Option<(string, Source)> {
    var lower := Lower(key);
    match FindLast(lower, SESSIONS, |lower|)
    case None => None
    case Some(at) =>
      var name := key[at + |SESSIONS|..];
      if name == [] || '\\' in name then None
      else Some((name, if Contains(lower, KITTY) then Kitty else Putty))
  }

  /** Unescaped text up to the closing quote, and what follows it. */
  function ReadQuoted(s: string): Option<(string, string)> {
    if s == [] then None
    else if s[0] == '"' then Some(([], s[1..]))
    else if s[0] == '\\' then
      if |s| == 1 then None
      else
        match ReadQuoted(s[2..])
        case None => None
        case Some((text, rest)) => Some(([s[1]] + text, rest))
    else
      match ReadQuoted(s[1..])
      case None => None
      case Some((text, rest)) => Some(([s[0]] + text, rest))
  }

  /** `"Name"=value`, taken apart. */
  function ValueOf(line: string): Option<(string, string)> {
    if line == [] || line[0] != '"' then None
    else
      match ReadQuoted(line[1..])
      case None => None
      case Some((name, rest)) => if rest != [] && rest[0] == '=' then Some((name, Trim(rest[1..]))) else None
  }

  function HexDigit(c: char): Option<nat> {
    if '0' <= c <= '9' then Some(c as int - '0' as int)
    else if 'a' <= c <= 'f' then Some(c as int - 'a' as int + 10)
    else if 'A' <= c <= 'F' then Some(c as int - 'A' as int + 10)
    else None
  }

  function HexNumber(s: string): Option<nat> {
    if s == [] then Some(0)
    else
      match HexNumber(s[..|s| - 1])
      case None => None
      case Some(n) => if HexDigit(s[|s| - 1]).Some? then Some(16 * n + HexDigit(s[|s| - 1]).value) else None
  }

  /** `u32::from_str_radix(_, 16)`. */
  function ParseHex32(s: string): Option<nat> {
    var digits := if s != [] && s[0] == '+' then s[1..] else s;
    if digits == [] || HexNumber(digits).None?
      || HexNumber(digits).value >= 0x1_0000_0000 then None else HexNumber(digits)
  }

  function StartsWith(s: string, prefix: string): bool {
    MatchesAt(s, prefix, 0)
  }

  const DWORD := "dword:"

  /** The value to keep, if it is a string or a number. */
  function Kept(value: string): Option<string> {
    if value != [] && value[0] == '"' then
      match ReadQuoted(value[1..])
      case None => None
      case Some((text, _)) => Some(text)
    else if StartsWith(value, DWORD) then
      match ParseHex32(Trim(value[|DWORD|..]))
      case None => None
      case Some(n) => Some(Decimal(n))
    else None
  }

  predicate IsBinary(value: string) {
    !(value != [] && value[0] == '"') && !StartsWith(value, DWORD)
  }

  function Insert(sessions: seq<Session>, index: nat, name: string, text: string): seq<Session>
    requires index < |sessions|
  {
    sessions[index := sessions[index].(values := sessions[index].values[name := text])]
  }

  /** What one line does to the parser. */
  function Step(p: Parser, raw: string): Parser {
    var line := Trim(raw);
    if p.continued then p.(continued := EndsInBackslash(line))
    else if |line| >= 2 && line[0] == '[' && line[|line| - 1] == ']' then
      match SessionOf(line[1..|line| - 1])
      case None => p.(current := None)
      case Some((name, source)) => Parser(p.sessions + [Session(name, map[], source)], Some(|p.sessions|), false)
    else if p.current.None? || p.current.value >= |p.sessions| then p
    else
      match ValueOf(line)
      case None => p.(continued := EndsInBackslash(line))
      case Some((name, value)) =>
        if IsBinary(value) then p.(continued := EndsInBackslash(value))
        else if Kept(value).Some? then p.(sessions := Insert(p.sessions, p.current.value, name, Kept(value).value))
        else p
  }

  function Run(p: Parser, lines: seq<string>): Parser {
    if lines == [] then p else Step(Run(p, lines[..|lines| - 1]), lines[|lines| - 1])
  }

  const START := Parser([], None, false)

  /** `str::lines`: split at line feeds, without a carriage return before one; no line after the last feed. */
  function Lines(text: string): seq<string> {
    if text == [] then []
    else
      match Find(text, "\n", 0)
      case None => [text]
      case Some(at) => [WithoutReturn(text[..at])] + Lines(text[at + 1..])
  }

  function WithoutReturn(line: string): string {
    if line != [] && line[|line| - 1] == '\r' then line[..|line| - 1] else line
  }

  // ------------------------------------------------------------------ the parser

  method SplitValue(line: string) returns (r: Option<(string, string)>)
    ensures r == ValueOf(line)
  {
    if line == [] || line[0] != '"' {
      return None;
    }
    var rest := line[1..];
    var name := [];
    var i := 0;
    NothingReadYet(rest);
    while i < |rest|
      invariant i <= |rest| && ReadQuoted(rest) == Prepend(name, ReadQuoted(rest[i..]))
    {
      var c := rest[i];
      UnreadStep(rest, i, name);
      if c == '\\' {
        i := i + 1;
        if i < |rest| {
          name := name + [rest[i]];
          i := i + 1;
        }
      } else if c == '"' {
        if i + 1 < |rest| && rest[i + 1] == '=' {
          assert rest[i + 1..][1..] == rest[i + 2..];
          return Some((name, Trim(rest[i + 2..])));
        }
        return None;
      } else {
        name := name + [c];
        i := i + 1;
      }
    }
    return None;
  }

  method Unquote(text: string) returns (r: Option<string>)
    ensures r == match ReadQuoted(text) case None => None case Some((unquoted, _)) => Some(unquoted)
  {
    var out := [];
    var i := 0;
    NothingReadYet(text);
    while i < |text|
      invariant i <= |text| && ReadQuoted(text) == Prepend(out, ReadQuoted(text[i..]))
    {
      var c := text[i];
      UnreadStep(text, i, out);
      if c == '\\' {
        if i + 1 == |text| {
          return None;
        }
        out := out + [text[i + 1]];
        i := i + 2;
      } else if c == '"' {
        return Some(out);
      } else {
        out := out + [c];
        i := i + 1;
      }
    }
    return None;
  }

  function Prepend(read: string, rest: Option<(string, string)>): Option<(string, string)> {
    match rest
    case None => None
    case Some((text, after)) => Some((read + text, after))
  }

  lemma NothingReadYet(s: string)
    ensures ReadQuoted(s) == Prepend([], ReadQuoted(s[0..]))
  {
    assert s[0..] == s;
    if ReadQuoted(s).Some? {
      assert [] + ReadQuoted(s).value.0 == ReadQuoted(s).value.0;
    }
  }

  lemma UnreadStep(s: string, i: nat, read: string)
    requires i < |s|
    ensures s[i] == '"' ==> Prepend(read, ReadQuoted(s[i..])) == Some((read, s[i + 1..]))
    ensures s[i] == '\\' && i + 1 == |s| ==> Prepend(read, ReadQuoted(s[i..])) == None
    ensures s[i] == '\\' && i + 1 < |s| ==>
              Prepend(read, ReadQuoted(s[i..])) == Prepend(read + [s[i + 1]], ReadQuoted(s[i + 2..]))
    ensures s[i] != '"' && s[i] != '\\' ==>
              Prepend(read, ReadQuoted(s[i..])) == Prepend(read + [s[i]], ReadQuoted(s[i + 1..]))
  {
    assert s[i..][1..] == s[i + 1..];
    assert read + [] == read;
    if s[i] == '\\' && i + 1 < |s| {
      assert s[i..][2..] == s[i + 2..];
      if ReadQuoted(s[i + 2..]).Some? {
        var text := ReadQuoted(s[i + 2..]).value.0;
        assert read + ([s[i + 1]] + text) == (read + [s[i + 1]]) + text;
      }
    } else if s[i] != '"' && s[i] != '\\' && ReadQuoted(s[i + 1..]).Some? {
      var text := ReadQuoted(s[i + 1..]).value.0;
      assert read + ([s[i]] + text) == (read + [s[i]]) + text;
    }
  }

  /** A string or a number; anything else is passed over, and may go on in the next line. */
  method ReadValue(value: string) returns (parsed: Option<string>, more: bool)
    ensures parsed == (if IsBinary(value) then None else Kept(value))
    ensures more == (IsBinary(value) && EndsInBackslash(value))
  {
    more := false;
    if value != [] && value[0] == '"' {
      parsed := Unquote(value[1..]);
    } else if StartsWith(value, DWORD) {
      var number := ParseHex32(Trim(value[|DWORD|..]));
      parsed := if number.Some? then Some(Decimal(number.value)) else None;
    } else {
      parsed := None;
      more := EndsInBackslash(value);
    }
  }

  /** One line, in the three variables the parser keeps. */
  method ParseLine(before: seq<Session>, section: Option<nat>, continuing: bool, line: string)
    returns (sessions: seq<Session>, current: Option<nat>, continued: bool)
    requires section.Some? ==> section.value < |before|
    ensures Parser(sessions, current, continued) == Step(Parser(before, section, continuing), line)
    ensures current.Some? ==> current.value < |sessions|
  {
    sessions, current, continued := before, section, continuing;
    var trimmed := Trim(line);
    if continued {
      continued := EndsInBackslash(trimmed);
      return;
    }
    if |trimmed| >= 2 && trimmed[0] == '[' && trimmed[|trimmed| - 1] == ']' {
      var named := SessionOf(trimmed[1..|trimmed| - 1]);
      if named.Some? {
        sessions := sessions + [Session(named.value.0, map[], named.value.1)];
        current := Some(|sessions| - 1);
      } else {
        current := None;
      }
      return;
    }
    if current.None? {
      return;
    }
    var index := current.value;
    var split := SplitValue(trimmed);
    if split.None? {
      continued := EndsInBackslash(trimmed);
      return;
    }
    var name, value := split.value.0, split.value.1;
    var parsed, more := ReadValue(value);
    continued := more;
    if parsed.Some? {
      sessions := Insert(sessions, index, name, parsed.value);
    }
  }

  method ParseReg(text: string) returns (sessions: seq<Session>)
    ensures sessions == Run(START, Lines(text)).sessions
  {
    sessions := [];
    var current: Option<nat> := None;
    var continued := false;
    var lines := Lines(text);
    for n := 0 to |lines|
      invariant Parser(sessions, current, continued) == Run(START, lines[..n])
      invariant current.Some? ==> current.value < |sessions|
    {
      assert lines[..n + 1][..n] == lines[..n];
      sessions, current, continued := ParseLine(sessions, current, continued, lines[n]);
    }
    assert lines[..|lines|] == lines;
  }

  // ------------------------------------------------------------------ printing

  datatype Item =
    | Text(name: string, text: string)
    | Number(name: string, plus: bool, digits: string)
    | Binary(name: string, first: string, more: seq<string>)

  /** A section: of a session, or of any other key. */
  datatype Printed =
    | Printed(path: string, name: string, items: seq<Item>)
    | Other(key: string, items: seq<Item>)

  function Escape(s: string): string {
    if s == [] then []
    else (if s[0] == '\\' || s[0] == '"' then ['\\', s[0]] else [s[0]]) + Escape(s[1..])
  }

  /** What a hexadecimal digit of either case is worth. */
  function Nibble(c: char): nat {
    if '0' <= c <= '9' then c as int - '0' as int
    else if 'a' <= c <= 'f' then 10 + (c as int - 'a' as int)
    else if 'A' <= c <= 'F' then 10 + (c as int - 'A' as int)
    else 16
  }

  predicate IsHex(digits: string) {
    forall i :: 0 <= i < |digits| ==> Nibble(digits[i]) < 16
  }

  /** What hexadecimal digits mean, read from the left. */
  function ReadHex(digits: string, sofar: nat): nat {
    if digits == [] then sofar else ReadHex(digits[1..], 16 * sofar + Nibble(digits[0]))
  }

  /** Digits with or without a plus sign. */
  function Signed(plus: bool, digits: string): string {
    if plus then "+" + digits else digits
  }

  function Field(name: string): string {
    "\"" + Escape(name) + "\"="
  }

  /** A line of a binary value, with the backslash that continues it unless it is the last. */
  function BinaryLine(start: string, bytes: string, last: bool): string {
    start + bytes + if last then "" else "\\"
  }

  function MoreLines(more: seq<string>, n: nat): (lines: seq<string>)
    requires n <= |more|
    ensures |lines| == n
  {
    if n == 0 then [] else MoreLines(more, n - 1) + [BinaryLine("  ", more[n - 1], n == |more|)]
  }

  function ItemLines(item: Item): seq<string> {
    match item
    case Text(name, text) => [Field(name) + "\"" + Escape(text) + "\""]
    case Number(name, plus, digits) => [Field(name) + DWORD + Signed(plus, digits)]
    case Binary(name, first, more) => [BinaryLine(Field(name) + "hex:", first, more == [])] + MoreLines(more, |more|)
  }

  function AllItemLines(items: seq<Item>): seq<string> {
    if items == [] then [] else AllItemLines(items[..|items| - 1]) + ItemLines(items[|items| - 1])
  }

  function Header(x: Printed): string {
    "[" + (if x.Printed? then x.path + "\\Sessions\\" + x.name else x.key) + "]"
  }

  function PrintedLines(x: Printed): seq<string> {
    [Header(x)] + AllItemLines(x.items) + [""]
  }

  function Export(xs: seq<Printed>): seq<string> {
    if xs == [] then ["Windows Registry Editor Version 5.00", ""]
      else Export(xs[..|xs| - 1]) + PrintedLines(xs[|xs| - 1])
  }

  function JoinLines(lines: seq<string>): string {
    if lines == [] then [] else lines[0] + "\r\n" + JoinLines(lines[1..])
  }

  /** Hexadecimal bytes between commas. */
  predicate IsHexBytes(s: string) {
    forall i :: 0 <= i < |s| ==> s[i] == ',' || HexDigit(s[i]).Some?
  }

  ghost predicate ItemPrints(item: Item) {
    && '\n' !in item.name
    && match item
       case Text(_, text) => '\n' !in text
       case Number(_, _, digits) => IsHex(digits)
       case Binary(_, first, more) => IsHexBytes(first) && forall s :: s in more ==> IsHexBytes(s)
  }

  /** The key is not one directly under a Sessions key: nothing follows there, or a key below it. */
  ghost predicate NamesNoSession(key: string) {
    forall at :: 0 <= at && MatchesAt(Lower(key), SESSIONS, at) ==>
                   var name := key[at + |SESSIONS|..]; name == [] || '\\' in name
  }

  ghost predicate Prints(x: Printed) {
    && (match x
        case Printed(path, name, _) => name != [] && '\\' !in name && '\n' !in name && '\n' !in path
        case Other(key, _) => NamesNoSession(key) && '\n' !in key)
    && forall item :: item in x.items ==> ItemPrints(item)
  }

  /** Texts show, and numbers that there are and that fit in 32 bits. */
  predicate Shows(item: Item) {
    match item
    case Text(_, _) => true
    case Number(_, _, digits) => digits != [] && ReadHex(digits, 0) < 0x1_0000_0000
    case Binary(_, _, _) => false
  }

  /** What should come back: texts as they are, numbers in decimal, binary values not at all. */
  function WithItem(values: map<string, string>, item: Item): map<string, string> {
    if !Shows(item) then values
    else
      match item
      case Text(name, text) => values[name := text]
      case Number(name, _, digits) => values[name := Decimal(ReadHex(digits, 0))]
      case Binary(_, _, _) => values
  }

  function ValuesOf(items: seq<Item>): map<string, string> {
    if items == [] then map[] else WithItem(ValuesOf(items[..|items| - 1]), items[|items| - 1])
  }

  /** What an item shows as: a text as it is, a number spelled in decimal. */
  predicate ShowsAs(item: Item, value: string) {
    match item
    case Text(_, text) => value == text
    case Number(_, _, digits) => Shows(item) && Spells(value, ReadHex(digits, 0))
    case Binary(_, _, _) => false
  }

  /** The last item of that name that shows at all, and what it shows as. */
  predicate LastShown(items: seq<Item>, i: nat, name: string, value: string) {
    && i < |items| && items[i].name == name && ShowsAs(items[i], value)
    && forall j :: i < j < |items| && items[j].name == name ==> !Shows(items[j])
  }

  ghost predicate Shown(items: seq<Item>, name: string, value: string) {
    exists i: nat :: LastShown(items, i, name, value)
  }

  /** There is a value for each name that shows, and it is what the last item of that name shows as. */
  ghost predicate ShowItems(items: seq<Item>, values: map<string, string>) {
    && (forall i :: 0 <= i < |items| && Shows(items[i]) ==> items[i].name in values)
    && (forall name :: name in values ==> Shown(items, name, values[name]))
  }

  lemma ShownOfLonger(items: seq<Item>, last: Item, name: string, value: string)
    requires Shown(items, name, value) && (last.name == name ==> !Shows(last))
    ensures Shown(items + [last], name, value)
  {
    var i: nat :| LastShown(items, i, name, value);
    assert LastShown(items + [last], i, name, value);
  }

  lemma LastIsShown(items: seq<Item>, last: Item, values: map<string, string>)
    requires Shows(last)
    ensures last.name in WithItem(values, last)
    ensures Shown(items + [last], last.name, WithItem(values, last)[last.name])
  {
    if last.Number? {
      DecimalSpells(ReadHex(last.digits, 0));
    }
    assert LastShown(items + [last], |items|, last.name, WithItem(values, last)[last.name]);
  }

  lemma {:induction false} ValuesShowItems(items: seq<Item>)
    ensures ShowItems(items, ValuesOf(items))
  {
    if items != [] {
      var init, last := items[..|items| - 1], items[|items| - 1];
      ValuesShowItems(init);
      OneMoreShows(init, last, ValuesOf(init));
      assert items == init + [last];
    }
  }

  lemma OneMoreShows(items: seq<Item>, last: Item, values: map<string, string>)
    requires ShowItems(items, values)
    ensures ShowItems(items + [last], WithItem(values, last))
  {
    if Shows(last) {
      LastIsShown(items, last, values);
    }
    forall name | name in WithItem(values, last) && (name == last.name ==> !Shows(last))
      ensures Shown(items + [last], name, WithItem(values, last)[name])
    {
      ShownOfLonger(items, last, name, values[name]);
    }
  }

  function SourceOf(path: string): Source {
    if Contains(Lower(path + "\\"), KITTY) then Kitty else Putty
  }

  function SessionPrinted(x: Printed): Session
    requires x.Printed?
  {
    Session(x.name, ValuesOf(x.items), SourceOf(x.path))
  }

  // ------------------------------------------------------------------ round trip: one line

  lemma ReadPlain(c: char, next: string)
    requires c != '\\' && c != '"' && ReadQuoted(next).Some?
    ensures ReadQuoted([c] + next) == Some(([c] + ReadQuoted(next).value.0, ReadQuoted(next).value.1))
  {
    assert ([c] + next)[1..] == next;
  }

  lemma ReadEscape(c: char, next: string)
    requires ReadQuoted(next).Some?
    ensures ReadQuoted(['\\', c] + next) == Some(([c] + ReadQuoted(next).value.0, ReadQuoted(next).value.1))
  {
    assert (['\\', c] + next)[2..] == next;
  }

  lemma {:induction false} ReadEscaped(s: string, rest: string)
    ensures ReadQuoted(Escape(s) + "\"" + rest) == Some((s, rest))
  {
    var line := Escape(s) + "\"" + rest;
    if s == [] {
      assert line[1..] == rest;
    } else {
      var next := Escape(s[1..]) + "\"" + rest;
      ReadEscaped(s[1..], rest);
      assert s == [s[0]] + s[1..];
      if s[0] == '\\' || s[0] == '"' {
        assert line == ['\\', s[0]] + next;
        ReadEscape(s[0], next);
      } else {
        assert line == [s[0]] + next;
        ReadPlain(s[0], next);
      }
    }
  }

  /** A line that starts and ends in something other than white space is not trimmed. */
  lemma NotTrimmed(line: string)
    requires line != [] && !IsWhitespace(line[0]) && !IsWhitespace(line[|line| - 1])
    ensures Trim(line) == line
  {
  }

  lemma FieldIsRead(name: string, value: string)
    requires value != [] && !IsWhitespace(value[0]) && !IsWhitespace(value[|value| - 1])
    ensures ValueOf(Field(name) + value) == Some((name, value))
    ensures Trim(Field(name) + value) == Field(name) + value
    ensures (Field(name) + value)[0] == '"'
  {
    var line := Field(name) + value;
    assert line == "\"" + (Escape(name) + "\"" + ("=" + value));
    assert line[1..] == Escape(name) + "\"" + ("=" + value);
    ReadEscaped(name, "=" + value);
    assert ("=" + value)[1..] == value;
    NotTrimmed(value);
    assert line[|line| - 1] == value[|value| - 1];
    NotTrimmed(line);
  }

  ghost predicate InSection(p: Parser) {
    p.current == Some(|p.sessions| - 1) && |p.sessions| > 0 && !p.continued
  }

  function Last(p: Parser): Session
    requires p.sessions != []
  {
    p.sessions[|p.sessions| - 1]
  }

  function WithValue(p: Parser, name: string, text: string): Parser
    requires p.sessions != []
  {
    p.(sessions := p.sessions[..|p.sessions| - 1] + [Last(p).(values := Last(p).values[name := text])])
  }

  lemma FieldStep(p: Parser, name: string, value: string)
    requires InSection(p) && value != [] && !IsWhitespace(value[0]) && !IsWhitespace(value[|value| - 1])
    ensures IsBinary(value) ==> Step(p, Field(name) + value) == p.(continued := EndsInBackslash(value))
    ensures !IsBinary(value) && Kept(value).Some? ==>
              Step(p, Field(name) + value) == WithValue(p, name, Kept(value).value)
    ensures !IsBinary(value) && Kept(value).None? ==> Step(p, Field(name) + value) == p
  {
    FieldIsRead(name, value);
  }

  lemma TextIsKept(text: string)
    ensures !IsBinary("\"" + Escape(text) + "\"") && Kept("\"" + Escape(text) + "\"") == Some(text)
  {
    var value := "\"" + Escape(text) + "\"";
    ReadEscaped(text, "");
    assert value[1..] == Escape(text) + "\"" + "";
  }

  lemma {:induction false} ReadHexConcat(a: string, c: char, sofar: nat)
    ensures ReadHex(a + [c], sofar) == 16 * ReadHex(a, sofar) + Nibble(c)
    decreases a
  {
    if a == [] {
      assert ([] + [c])[1..] == [];
      assert a + [c] == [c];
    } else {
      ReadHexConcat(a[1..], c, 16 * sofar + Nibble(a[0]));
      assert (a + [c])[1..] == a[1..] + [c];
    }
  }

  lemma {:induction false} HexIsRead(digits: string)
    requires IsHex(digits)
    ensures HexNumber(digits) == Some(ReadHex(digits, 0))
    ensures forall i :: 0 <= i < |digits| ==> HexDigit(digits[i]).Some?
  {
    if digits != [] {
      var init, last := digits[..|digits| - 1], digits[|digits| - 1];
      HexIsRead(init);
      ReadHexConcat(init, last, 0);
      assert digits == init + [last];
      assert HexDigit(last) == Some(Nibble(last));
    }
  }

  lemma SignedIsNoSpace(plus: bool, digits: string)
    requires IsHex(digits) && Signed(plus, digits) != []
    ensures var text := Signed(plus, digits); !IsWhitespace(text[0]) && !IsWhitespace(text[|text| - 1])
  {
    HexIsRead(digits);
    var text := Signed(plus, digits);
    if digits != [] {
      HexIsNoSpace(digits[0]);
      HexIsNoSpace(digits[|digits| - 1]);
      assert text[|text| - 1] == digits[|digits| - 1];
    }
  }

  lemma DigitsAreParsed(plus: bool, digits: string)
    requires IsHex(digits)
    ensures Trim(Signed(plus, digits)) == Signed(plus, digits)
    ensures ParseHex32(Signed(plus, digits))
         == if digits != [] && ReadHex(digits, 0) < 0x1_0000_0000 then Some(ReadHex(digits, 0)) else None
  {
    HexIsRead(digits);
    if digits != [] {
      HexIsNoSpace(digits[0]);
    }
    if Signed(plus, digits) != [] {
      SignedIsNoSpace(plus, digits);
      NotTrimmed(Signed(plus, digits));
    }
    assert ("+" + digits)[1..] == digits;
  }

  lemma NumberIsKept(name: string, plus: bool, digits: string)
    requires IsHex(digits)
    ensures var value := DWORD + Signed(plus, digits);
            && !IsBinary(value)
            && Kept(value) == (if Shows(Number(name, plus, digits)) then Some(Decimal(ReadHex(digits, 0))) else None)
            && value != [] && !IsWhitespace(value[0]) && !IsWhitespace(value[|value| - 1])
  {
    var text := Signed(plus, digits);
    var value := DWORD + text;
    DigitsAreParsed(plus, digits);
    assert value[0..0 + |DWORD|] == DWORD && value[|DWORD|..] == text && value[0] == 'd';
    if text != [] {
      SignedIsNoSpace(plus, digits);
      assert value[|value| - 1] == text[|text| - 1];
    }
  }

  lemma HexIsNoSpace(c: char)
    requires c == ',' || HexDigit(c).Some?
    ensures !IsWhitespace(c) && c != '\\' && c != '+'
  {
  }

  /** The end of a line survives trimming, unless it is white space. */
  lemma {:induction false} TrimKeepsTheEnd(line: string)
    requires line != [] && !IsWhitespace(line[|line| - 1])
    ensures EndsInBackslash(Trim(line)) == EndsInBackslash(line)
  {
    TrimStartKeepsTheEnd(line);
  }

  lemma {:induction false} TrimStartKeepsTheEnd(line: string)
    requires line != [] && !IsWhitespace(line[|line| - 1])
    ensures TrimStart(line) != [] && TrimStart(line)[|TrimStart(line)| - 1] == line[|line| - 1]
  {
    if IsWhitespace(line[0]) {
      TrimStartKeepsTheEnd(line[1..]);
    }
  }

  // ------------------------------------------------------------------ round trip: items

  lemma {:induction false} RunConcat(p: Parser, a: seq<string>, b: seq<string>)
    ensures Run(p, a + b) == Run(Run(p, a), b)
  {
    if b == [] {
      assert a + b == a;
    } else {
      assert (a + b)[..|a + b| - 1] == a + b[..|b| - 1];
      RunConcat(p, a, b[..|b| - 1]);
    }
  }

  lemma RunOne(p: Parser, line: string)
    ensures Run(p, [line]) == Step(p, line)
  {
    assert [line][..0] == [];
    assert Run(p, []) == p;
  }

  /** A line in the middle of a binary value, or its last. */
  lemma ContinuedStep(p: Parser, bytes: string, last: bool)
    requires p.continued && IsHexBytes(bytes)
    ensures Step(p, BinaryLine("  ", bytes, last)) == p.(continued := !last)
  {
    var line := BinaryLine("  ", bytes, last);
    if !last {
      assert line[|line| - 1] == '\\';
      TrimKeepsTheEnd(line);
    } else if bytes == [] {
      assert line == "  " && TrimStart("  ") == TrimStart(" ") by {
        assert "  "[1..] == " ";
      }
      assert " "[1..] == "";
      assert Trim(line) == [];
    } else {
      assert line[|line| - 1] == bytes[|bytes| - 1];
      HexIsNoSpace(bytes[|bytes| - 1]);
      TrimKeepsTheEnd(line);
    }
  }

  lemma {:induction false} MoreLinesAreIgnored(p: Parser, more: seq<string>, n: nat)
    requires p.continued == (more != []) && n <= |more| && forall s :: s in more ==> IsHexBytes(s)
    ensures Run(p, MoreLines(more, n)) == p.(continued := n < |more|)
  {
    if n > 0 {
      MoreLinesAreIgnored(p, more, n - 1);
      var lines := MoreLines(more, n);
      assert lines[..n - 1] == MoreLines(more, n - 1);
      ContinuedStep(p.(continued := true), more[n - 1], n == |more|);
    }
  }

  lemma StartsElsewhere(s: string, prefix: string)
    requires s != [] && prefix != [] && s[0] != prefix[0]
    ensures !StartsWith(s, prefix)
  {
    if |prefix| <= |s| {
      assert s[0..0 + |prefix|][0] == s[0];
    }
  }

  lemma BinaryIsIgnored(p: Parser, name: string, first: string, more: seq<string>)
    requires InSection(p) && ItemPrints(Binary(name, first, more))
    ensures Run(p, ItemLines(Binary(name, first, more))) == p
  {
    var line := BinaryLine(Field(name) + "hex:", first, more == []);
    var value := BinaryLine("hex:", first, more == []);
    assert line == Field(name) + value;
    assert value[..4] == "hex:" && value[0] == 'h';
    StartsElsewhere(value, DWORD);
    if more == [] {
      assert value[|value| - 1] == if first == [] then ':' else first[|first| - 1];
      if first != [] {
        HexIsNoSpace(first[|first| - 1]);
      }
    } else {
      assert value[|value| - 1] == '\\';
    }
    FieldStep(p, name, value);
    RunOne(p, line);
    RunConcat(p, [line], MoreLines(more, |more|));
    MoreLinesAreIgnored(p.(continued := more != []), more, |more|);
  }

  function WithItemRead(p: Parser, item: Item): Parser
    requires p.sessions != []
  {
    p.(sessions := p.sessions[..|p.sessions| - 1] + [Last(p).(values := WithItem(Last(p).values, item))])
  }

  /** The item's value is the one thing that has changed: a text as printed, a number spelled in decimal, or nothing. */
  ghost predicate OnlyItemRead(p: Parser, q: Parser, item: Item)
    requires p.sessions != []
  {
    && q == p.(sessions := q.sessions) && |q.sessions| == |p.sessions|
    && q.sessions[..|p.sessions| - 1] == p.sessions[..|p.sessions| - 1]
    && if !Shows(item) then Last(q) == Last(p)
       else exists value :: ShowsAs(item, value) && Last(q) == Last(p).(values := Last(p).values[item.name := value])
  }

  lemma PutBack(p: Parser)
    requires p.sessions != []
    ensures p.(sessions := p.sessions[..|p.sessions| - 1] + [Last(p).(values := Last(p).values)]) == p
  {
    assert p.sessions == p.sessions[..|p.sessions| - 1] + [Last(p)];
  }

  lemma ReadShows(p: Parser, item: Item)
    requires p.sessions != []
    ensures OnlyItemRead(p, WithItemRead(p, item), item)
  {
    var q := WithItemRead(p, item);
    assert q.sessions[..|p.sessions| - 1] == p.sessions[..|p.sessions| - 1];
    match item {
      case Text(name, text) => assert ShowsAs(item, text);
      case Number(name, _, digits) =>
        DecimalSpells(ReadHex(digits, 0));
        assert Shows(item) ==> ShowsAs(item, Decimal(ReadHex(digits, 0)));
      case Binary(_, _, _) =>
    }
  }

  lemma ItemIsRead(p: Parser, item: Item)
    requires InSection(p) && ItemPrints(item)
    ensures Run(p, ItemLines(item)) == WithItemRead(p, item)
    ensures OnlyItemRead(p, Run(p, ItemLines(item)), item)
  {
    ReadShows(p, item);
    match item {
      case Text(name, text) => TextItemIsRead(p, name, text);
      case Number(name, plus, digits) => NumberItemIsRead(p, name, plus, digits);
      case Binary(name, first, more) =>
        BinaryIsIgnored(p, name, first, more);
        assert p.sessions == p.sessions[..|p.sessions| - 1] + [Last(p)];
    }
  }

  lemma TextItemIsRead(p: Parser, name: string, text: string)
    requires InSection(p)
    ensures Run(p, ItemLines(Text(name, text))) == WithItemRead(p, Text(name, text))
  {
    TextIsKept(text);
    var value := "\"" + Escape(text) + "\"";
    assert Field(name) + "\"" + Escape(text) + "\"" == Field(name) + value;
    FieldStep(p, name, value);
    RunOne(p, Field(name) + value);
  }

  lemma NumberItemIsRead(p: Parser, name: string, plus: bool, digits: string)
    requires InSection(p) && IsHex(digits)
    ensures Run(p, ItemLines(Number(name, plus, digits))) == WithItemRead(p, Number(name, plus, digits))
  {
    NumberIsKept(name, plus, digits);
    var value := DWORD + Signed(plus, digits);
    assert Field(name) + DWORD + Signed(plus, digits) == Field(name) + value;
    FieldStep(p, name, value);
    PutBack(p);
    RunOne(p, Field(name) + value);
  }

  lemma {:induction false} ItemsAreRead(p: Parser, items: seq<Item>)
    requires InSection(p) && Last(p).values == map[] && forall item :: item in items ==> ItemPrints(item)
    ensures Run(p, AllItemLines(items))
            == p.(sessions := p.sessions[..|p.sessions| - 1] + [Last(p).(values := ValuesOf(items))])
  {
    if items == [] {
      assert p.sessions == p.sessions[..|p.sessions| - 1] + [Last(p)];
    } else {
      var init, item := items[..|items| - 1], items[|items| - 1];
      ItemsAreRead(p, init);
      var q := Run(p, AllItemLines(init));
      RunConcat(p, AllItemLines(init), ItemLines(item));
      ItemIsRead(q, item);
      assert q.sessions[..|q.sessions| - 1] == p.sessions[..|p.sessions| - 1];
    }
  }

  // ------------------------------------------------------------------ round trip: sections

  lemma NoBackslashIn(lower: string, from: nat, name: string)
    requires from <= |lower| && lower[from..] == Lower(name) && '\\' !in name
    ensures forall i :: from <= i < |lower| ==> lower[i] != '\\'
  {
    forall i | from <= i < |lower| ensures lower[i] != '\\' {
      assert lower[i] == lower[from..][i - from] == LowerChar(name[i - from]);
      assert name[i - from] in name;
    }
  }

  /** The lower-case key: the path, then the Sessions key, then the name. */
  lemma KeyParts(path: string, name: string)
    requires '\\' !in name
    ensures var lower := Lower(path + "\\Sessions\\" + name);
            && MatchesAt(lower, SESSIONS, |path|)
            && (forall i :: |path| + 10 <= i < |lower| ==> lower[i] != '\\')
            && lower[..|path| + 1] == Lower(path + "\\")
  {
    var key := path + "\\Sessions\\" + name;
    var lower := Lower(key);
    assert forall i :: 0 <= i < |path| ==> key[i] == path[i];
    assert forall i :: 0 <= i < 10 ==> key[|path| + i] == "\\Sessions\\"[i];
    assert key[|path| + 10..] == name;
    assert lower[|path| + 10..] == Lower(name);
    NoBackslashIn(lower, |path| + 10, name);
    assert lower[|path|..|path| + |SESSIONS|] == SESSIONS;
  }

  lemma MatchedCharacters(text: string, marker: string, i: int)
    requires MatchesAt(text, marker, i)
    ensures forall k :: 0 <= k < |marker| ==> text[i + k] == marker[k]
  {
    forall k | 0 <= k < |marker| ensures text[i + k] == marker[k] {
      assert text[i..i + |marker|][k] == text[i + k];
    }
  }

  /** Whether a client is named in the path: the Sessions key and the name do not matter. */
  lemma KittyIsInThePath(lower: string, n: nat)
    requires MatchesAt(lower, SESSIONS, n) && forall i :: n + 10 <= i < |lower| ==> lower[i] != '\\'
    ensures Contains(lower, KITTY) <==> Contains(lower[..n + 1], KITTY)
  {
    MatchedCharacters(lower, SESSIONS, n);
    if Contains(lower, KITTY) {
      var i :| 0 <= i <= |lower| && MatchesAt(lower, KITTY, i);
      KittyEndsInThePath(lower, n, i);
      assert lower[..n + 1][i..i + |KITTY|] == lower[i..i + |KITTY|];
      assert MatchesAt(lower[..n + 1], KITTY, i);
    }
    if Contains(lower[..n + 1], KITTY) {
      var i :| 0 <= i <= n + 1 && MatchesAt(lower[..n + 1], KITTY, i);
      assert lower[..n + 1][i..i + |KITTY|] == lower[i..i + |KITTY|];
      assert MatchesAt(lower, KITTY, i);
    }
  }

  lemma KittyEndsInThePath(lower: string, n: nat, i: nat)
    requires MatchesAt(lower, SESSIONS, n) && MatchesAt(lower, KITTY, i) && forall k :: n + 10 <= k < |lower| ==>
               lower[k] != '\\'
    ensures i + 6 <= n
  {
    MatchedCharacters(lower, SESSIONS, n);
    MatchedCharacters(lower, KITTY, i);
    assert lower[i + 0] == KITTY[0] == '\\' && lower[i + 6] == KITTY[6] == '\\';
    assert lower[n + 1] == SESSIONS[1] && lower[n + 2] == SESSIONS[2] && lower[n + 3] == SESSIONS[3]
           && lower[n + 4] == SESSIONS[4];
    assert lower[n + 5] == SESSIONS[5] && lower[n + 6] == SESSIONS[6] && lower[n + 7] == SESSIONS[7]
           && lower[n + 8] == SESSIONS[8];
  }

  lemma SessionsIsLast(lower: string, n: nat)
    requires MatchesAt(lower, SESSIONS, n) && forall i :: n + 10 <= i < |lower| ==> lower[i] != '\\'
    ensures FindLast(lower, SESSIONS, |lower|) == Some(n)
  {
    MatchedCharacters(lower, SESSIONS, n);
    forall i | n < i ensures !MatchesAt(lower, SESSIONS, i) {
      if i + 10 <= |lower| {
        assert lower[i..i + 10][9] == lower[i + 9];
        assert lower[i + 9] != '\\' && SESSIONS[9] == '\\';
      }
    }
  }

  lemma KeyIsRead(path: string, name: string)
    requires name != [] && '\\' !in name
    ensures SessionOf(path + "\\Sessions\\" + name) == Some((name, SourceOf(path)))
  {
    var key := path + "\\Sessions\\" + name;
    KeyParts(path, name);
    SessionsIsLast(Lower(key), |path|);
    KittyIsInThePath(Lower(key), |path|);
    assert key[|path| + |SESSIONS|..] == name;
  }

  lemma HeaderIsRead(p: Parser, x: Printed)
    requires !p.continued && x.Printed? && Prints(x)
    ensures Step(p, Header(x))
            == Parser(p.sessions + [Session(x.name, map[], SourceOf(x.path))], Some(|p.sessions|), false)
  {
    var line := Header(x);
    NotTrimmed(line);
    assert line[1..|line| - 1] == x.path + "\\Sessions\\" + x.name;
    KeyIsRead(x.path, x.name);
  }

  lemma BlankIsIgnored(p: Parser)
    requires !p.continued
    ensures Step(p, "") == p
  {
  }

  /** A key under which nothing is a session is exactly one that is read as none. */
  lemma SessionOfIs(key: string)
    ensures SessionOf(key).None? <==> NamesNoSession(key)
  {
    var lower := Lower(key);
    var last := FindLast(lower, SESSIONS, |lower|);
    if last.Some? && SessionOf(key).None? {
      forall at | 0 <= at && MatchesAt(lower, SESSIONS, at)
        ensures var name := key[at + |SESSIONS|..]; name == [] || '\\' in name
      {
        if at != last.value {
          MatchedCharacters(lower, SESSIONS, last.value);
          MatchedCharacters(lower, SESSIONS, at);
          AnotherSessionsFollows(key, at, last.value);
        }
      }
    }
  }

  lemma AnotherSessionsFollows(key: string, at: nat, last: nat)
    requires MatchesAt(Lower(key), SESSIONS, at) && MatchesAt(Lower(key), SESSIONS, last) && at < last
    ensures '\\' in key[at + |SESSIONS|..]
  {
    var lower := Lower(key);
    MatchedCharacters(lower, SESSIONS, at);
    MatchedCharacters(lower, SESSIONS, last);
    var end := last + |SESSIONS| - 1;
    assert lower[last + 9] == SESSIONS[9] == '\\' && lower[last + 9] == LowerChar(key[last + 9]);
    assert key[at + |SESSIONS|..][last - at - 1] == key[end];
  }

  /** Lines of items do not look like the header of a section, even trimmed. */
  predicate NoHeader(line: string) {
    Trim(line) == [] || Trim(line)[0] != '['
  }

  lemma TrimmedFirst(line: string)
    ensures Trim(line) != [] ==> Trim(line)[0] in line && (!IsWhitespace(line[0]) ==> Trim(line)[0] == line[0])
  {
    TrimIs(line);
    var i: nat, j: nat :| TrimsAt(line, Trim(line), i, j);
    assert Trim(line) != [] ==> Trim(line)[0] == line[i];
    assert i > 0 ==> line[..i][0] == line[0];
  }

  lemma BinaryIsNoHeader(bytes: string, last: bool)
    requires IsHexBytes(bytes)
    ensures NoHeader(BinaryLine("  ", bytes, last))
  {
    var line := BinaryLine("  ", bytes, last);
    TrimmedFirst(line);
    assert forall c :: c in line ==> c == ' ' || c == '\\' || c in bytes;
  }

  lemma {:induction false} MoreAreNoHeaders(more: seq<string>, n: nat)
    requires n <= |more| && forall s :: s in more ==> IsHexBytes(s)
    ensures forall line :: line in MoreLines(more, n) ==> NoHeader(line)
  {
    if n > 0 {
      MoreAreNoHeaders(more, n - 1);
      BinaryIsNoHeader(more[n - 1], n == |more|);
    }
  }

  lemma ItemIsNoHeader(item: Item)
    requires ItemPrints(item)
    ensures forall line :: line in ItemLines(item) ==> NoHeader(line)
  {
    var line := ItemLines(item)[0];
    assert line[0] == '"';
    TrimmedFirst(line);
    if item.Binary? {
      MoreAreNoHeaders(item.more, |item.more|);
    }
  }

  lemma {:induction false} ItemsAreNoHeaders(items: seq<Item>)
    requires forall item :: item in items ==> ItemPrints(item)
    ensures forall line :: line in AllItemLines(items) ==> NoHeader(line)
  {
    if items != [] {
      ItemsAreNoHeaders(items[..|items| - 1]);
      ItemIsNoHeader(items[|items| - 1]);
    }
  }

  lemma {:induction false} NothingIsReadThere(p: Parser, lines: seq<string>)
    requires p.current.None? && !p.continued && forall line :: line in lines ==> NoHeader(line)
    ensures Run(p, lines) == p
  {
    if lines != [] {
      NothingIsReadThere(p, lines[..|lines| - 1]);
      assert NoHeader(lines[|lines| - 1]);
    }
  }

  /** What stands under a key that is no session's changes no session, the one before it included. */
  lemma OtherIsIgnored(p: Parser, x: Printed)
    requires !p.continued && x.Other? && Prints(x)
    ensures Run(p, PrintedLines(x)) == p.(current := None)
  {
    var q, items, line := p.(current := None), AllItemLines(x.items), Header(x);
    SessionOfIs(x.key);
    NotTrimmed(line);
    assert line[1..|line| - 1] == x.key;
    RunOne(p, line);
    ItemsAreNoHeaders(x.items);
    NothingIsReadThere(q, items);
    RunConcat(p, [line], items);
    RunConcat(p, [line] + items, [""]);
    BlankIsIgnored(q);
    RunOne(q, "");
  }

  lemma SectionIsRead(p: Parser, x: Printed)
    requires !p.continued && x.Printed? && Prints(x)
    ensures Run(p, PrintedLines(x)) == Parser(p.sessions + [SessionPrinted(x)], Some(|p.sessions|), false)
  {
    var items := AllItemLines(x.items);
    HeaderIsRead(p, x);
    RunOne(p, Header(x));
    var q := Step(p, Header(x));
    assert Last(q) == Session(x.name, map[], SourceOf(x.path)) && q.sessions[..|q.sessions| - 1] == p.sessions;
    ItemsAreRead(q, x.items);
    RunConcat(p, [Header(x)], items);
    RunConcat(p, [Header(x)] + items, [""]);
    var after := Run(q, items);
    BlankIsIgnored(after);
    RunOne(after, "");
  }

  function AllPrinted(xs: seq<Printed>): seq<Session> {
    if xs == [] then []
    else AllPrinted(xs[..|xs| - 1]) + if xs[|xs| - 1].Printed? then [SessionPrinted(xs[|xs| - 1])] else []
  }

  /** The sections that are of sessions. */
  function OfSessions(xs: seq<Printed>): (sessions: seq<Printed>)
    ensures forall x :: x in sessions ==> x.Printed?
  {
    if xs == [] then [] else OfSessions(xs[..|xs| - 1]) + if xs[|xs| - 1].Printed? then [xs[|xs| - 1]] else []
  }

  lemma {:induction false} ExportIsRead(xs: seq<Printed>)
    requires forall x :: x in xs ==> Prints(x)
    ensures Run(START, Export(xs)).sessions == AllPrinted(xs) && !Run(START, Export(xs)).continued
  {
    if xs == [] {
      var title := "Windows Registry Editor Version 5.00";
      NotTrimmed(title);
      RunOne(START, title);
      RunConcat(START, [title], [""]);
      RunOne(START, "");
      assert [title] + [""] == [title, ""];
    } else {
      var init := xs[..|xs| - 1];
      ExportIsRead(init);
      RunConcat(START, Export(init), PrintedLines(xs[|xs| - 1]));
      if xs[|xs| - 1].Printed? {
        SectionIsRead(Run(START, Export(init)), xs[|xs| - 1]);
      } else {
        OtherIsIgnored(Run(START, Export(init)), xs[|xs| - 1]);
      }
    }
  }

  // ------------------------------------------------------------------ round trip: the text

  predicate OneLine(line: string) { '\n' !in line }

  lemma {:induction false} EscapedOneLine(s: string)
    requires OneLine(s)
    ensures OneLine(Escape(s))
  {
    if s != [] {
      EscapedOneLine(s[1..]);
    }
  }

  lemma {:induction false} MoreOneLine(more: seq<string>, n: nat)
    requires n <= |more| && forall s :: s in more ==> IsHexBytes(s)
    ensures forall line :: line in MoreLines(more, n) ==> OneLine(line)
  {
    if n > 0 {
      MoreOneLine(more, n - 1);
      HexBytesOneLine(more[n - 1]);
    }
  }

  lemma HexBytesOneLine(s: string)
    requires IsHexBytes(s)
    ensures OneLine(s)
  {
  }

  lemma ItemOneLine(item: Item)
    requires ItemPrints(item)
    ensures forall line :: line in ItemLines(item) ==> OneLine(line)
  {
    EscapedOneLine(item.name);
    match item {
      case Text(_, text) => EscapedOneLine(text);
      case Number(_, _, digits) => HexIsRead(digits);
      case Binary(_, first, more) =>
        HexBytesOneLine(first);
        MoreOneLine(more, |more|);
    }
  }

  lemma {:induction false} ItemsOneLine(items: seq<Item>)
    requires forall item :: item in items ==> ItemPrints(item)
    ensures forall line :: line in AllItemLines(items) ==> OneLine(line)
  {
    if items != [] {
      ItemsOneLine(items[..|items| - 1]);
      ItemOneLine(items[|items| - 1]);
    }
  }

  lemma {:induction false} ExportOneLine(xs: seq<Printed>)
    requires forall x :: x in xs ==> Prints(x)
    ensures forall line :: line in Export(xs) ==> OneLine(line)
  {
    if xs != [] {
      var x := xs[|xs| - 1];
      assert x in xs && Prints(x);
      ExportOneLine(xs[..|xs| - 1]);
      ItemsOneLine(x.items);
      assert OneLine(Header(x));
      assert forall line :: line in Export(xs) ==>
               line in Export(xs[..|xs| - 1]) || line == Header(x) || line in AllItemLines(x.items) || line == "";
    }
  }

  lemma FirstFeed(line: string, rest: string)
    requires OneLine(line)
    ensures Find(line + "\r\n" + rest, "\n", 0) == Some(|line| + 1)
  {
    var text := line + "\r\n" + rest;
    assert text[|line| + 1..|line| + 2] == "\n";
    forall i | 0 <= i <= |line| ensures !MatchesAt(text, "\n", i) {
      assert text[i..i + 1][0] == text[i];
      if i < |line| {
        assert text[i] == line[i] && line[i] in line;
      } else {
        assert text[i] == '\r';
      }
    }
    assert MatchesAt(text, "\n", |line| + 1);
  }

  /** Splitting into lines undoes joining them. */
  lemma {:induction false} LinesOfJoined(lines: seq<string>)
    requires forall line :: line in lines ==> OneLine(line)
    ensures Lines(JoinLines(lines)) == lines
  {
    if lines != [] {
      var line, rest := lines[0], JoinLines(lines[1..]);
      var text := JoinLines(lines);
      assert text == line + "\r\n" + rest;
      assert text[..|line| + 1] == line + "\r" && text[|line| + 2..] == rest;
      FirstFeed(line, rest);
      LinesOfJoined(lines[1..]);
      assert lines == [line] + lines[1..];
    }
  }

  /** A session as printed: its name, its client, and a value for each item that shows. */
  ghost predicate ReadAs(x: Printed, found: Session)
    requires x.Printed?
  {
    found.name == x.name && found.source == SourceOf(x.path) && ShowItems(x.items, found.values)
  }

  lemma {:induction false} AllReadAs(xs: seq<Printed>)
    ensures |AllPrinted(xs)| == |OfSessions(xs)|
    ensures forall i :: 0 <= i < |OfSessions(xs)| ==> ReadAs(OfSessions(xs)[i], AllPrinted(xs)[i])
  {
    if xs != [] {
      AllReadAs(xs[..|xs| - 1]);
      ValuesShowItems(xs[|xs| - 1].items);
      assert forall i :: 0 <= i < |OfSessions(xs[..|xs| - 1])| ==> OfSessions(xs)[i] == OfSessions(xs[..|xs| - 1])[i];
    }
  }

  // ------------------------------------------------------------------ any text

  /** The text goes on with this line and this end of it. */
  predicate FirstLine(text: string, line: string, end: string) {
    && line + end <= text && '\n' !in line
    && match end
       case "\n" => line == [] || line[|line| - 1] != '\r'
       case "\r\n" => true
       case _ => end == "" && line == text != ""
  }

  /** A text is its lines, each with its end: a line feed, maybe after a carriage return; the last may lack it. */
  predicate SplitsInto(text: string, lines: seq<string>)
    decreases lines
  {
    if lines == [] then text == []
    else
      || (FirstLine(text, lines[0], "\n") && SplitsInto(text[|lines[0]| + 1..], lines[1..]))
      || (FirstLine(text, lines[0], "\r\n") && SplitsInto(text[|lines[0]| + 2..], lines[1..]))
      || (FirstLine(text, lines[0], "") && lines[1..] == [])
  }

  lemma FirstOfLines(text: string, at: nat)
    requires at < |text| && MatchesAt(text, "\n", at) && '\n' !in text[..at]
    ensures var line := WithoutReturn(text[..at]);
            || (FirstLine(text, line, "\n") && |line| == at)
            || (FirstLine(text, line, "\r\n") && |line| + 1 == at)
  {
    var line := WithoutReturn(text[..at]);
    assert text[at] == text[at..at + 1][0] == '\n';
    if at > 0 && text[at - 1] == '\r' {
      assert line + "\r\n" == text[..at + 1];
    } else {
      assert line + "\n" == text[..at + 1];
    }
  }

  lemma {:induction false} LinesSplit(text: string)
    ensures SplitsInto(text, Lines(text))
  {
    if text != [] {
      var found := Find(text, "\n", 0);
      if found.Some? {
        var at := found.value;
        NoFeedBefore(text, at);
        FirstOfLines(text, at);
        LinesSplit(text[at + 1..]);
        assert Lines(text)[1..] == Lines(text[at + 1..]);
      } else {
        NoFeedBefore(text, |text|);
        assert text + "" == text;
      }
    }
  }

  lemma NoFeedBefore(text: string, n: nat)
    requires n <= |text| && forall i :: 0 <= i < n ==> !MatchesAt(text, "\n", i)
    ensures '\n' !in text[..n]
  {
    forall i | 0 <= i < n
      ensures text[..n][i] != '\n'
    {
      assert text[i..i + 1] == [text[i]];
      assert !MatchesAt(text, "\n", i);
    }
  }

  /** Parsing a printed export gives back the sessions, their values and where they came from. */
  lemma ExportReadsBack(xs: seq<Printed>)
    requires forall x :: x in xs ==> Prints(x)
    ensures Run(START, Lines(JoinLines(Export(xs)))).sessions == AllPrinted(xs)
    ensures var found := Run(START, Lines(JoinLines(Export(xs)))).sessions;
            |found| == |OfSessions(xs)| && forall i :: 0 <= i < |found| ==> ReadAs(OfSessions(xs)[i], found[i])
  {
    AllReadAs(xs);
    ExportOneLine(xs);
    LinesOfJoined(Export(xs));
    ExportIsRead(xs);
  }
}
