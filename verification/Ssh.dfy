/**
 What a `.ppk` key file is made of: the `string` and `mpint` of section 5 of RFC 4251, the
 authenticated input, and base64 in lines.
 */
module Ssh {
  import opened Wrappers
  import opened Bytes
  import opened Text

  const LINE_WIDTH: nat := 64

  const LENGTHS: nat := 0x1_0000_0000

  // ------------------------------------------------------------------ strings

  /** A length as `u32`, so it wraps, then the bytes. */
  function StringBytes(s: seq<byte>): seq<byte> {
    BigEndian(|s| % LENGTHS, 4) + s
  }

  /** The string at the front, and what follows it. */
  function ReadString(bytes: seq<byte>): Option<(seq<byte>, seq<byte>)> {
    if |bytes| < 4 || |bytes| - 4 < Number(bytes[..4]) then None
    else Some((bytes[4..4 + Number(bytes[..4])], bytes[4 + Number(bytes[..4])..]))
  }

  lemma LengthBack(n: nat)
    ensures Number(BigEndian(n % LENGTHS, 4)) == n % LENGTHS
  {
    assert Pow256(2) == 0x1_0000 && Pow256(4) == 0x1_0000 * 0x1_0000;
    NumberOfBigEndian(n % LENGTHS, 4);
  }

  /** A string is read back, whatever follows it, exactly if its length fits. */
  lemma StringIsReadBack(s: seq<byte>, rest: seq<byte>)
    ensures ReadString(StringBytes(s) + rest) == Some((s, rest)) <==> |s| < LENGTHS
  {
    var bytes := StringBytes(s) + rest;
    var n := |s| % LENGTHS;
    LengthBack(|s|);
    assert bytes[..4] == BigEndian(n, 4);
    if |s| < LENGTHS {
      assert bytes[4..4 + n] == s && bytes[4 + n..] == rest;
    } else {
      assert n < LENGTHS <= |s|;
    }
  }

  /** The fields one after another, each as a string. */
  function MacInput(fields: seq<seq<byte>>): seq<byte> {
    if fields == [] then [] else StringBytes(fields[0]) + MacInput(fields[1..])
  }

  ghost predicate LengthsFit(fields: seq<seq<byte>>) {
    forall f :: f in fields ==> |f| < LENGTHS
  }

  /** Different fields are never authenticated as the same bytes. */
  lemma {:induction false} MacInputIsInjective(a: seq<seq<byte>>, b: seq<seq<byte>>)
    requires |a| == |b| && LengthsFit(a) && LengthsFit(b) && MacInput(a) == MacInput(b)
    ensures a == b
  {
    if a != [] {
      StringIsReadBack(a[0], MacInput(a[1..]));
      StringIsReadBack(b[0], MacInput(b[1..]));
      MacInputIsInjective(a[1..], b[1..]);
      assert a == [a[0]] + a[1..] && b == [b[0]] + b[1..];
    }
  }

  // ------------------------------------------------------------------ numbers

  function Stripped(s: seq<byte>): (digits: seq<byte>)
    ensures |digits| <= |s| && (digits != [] ==> digits[0] != 0)
  {
    if s != [] && s[0] == 0 then Stripped(s[1..]) else s
  }

  /** No leading zeros, and one zero byte in front if the top bit is set. */
  function MpintBody(s: seq<byte>): seq<byte> {
    var digits := Stripped(s);
    if digits != [] && digits[0] >= 0x80 then [0] + digits else digits
  }

  function MpintBytes(s: seq<byte>): seq<byte> {
    StringBytes(MpintBody(s))
  }

  /** What an `mpint` stands for: two's complement, most significant byte first. */
  function TwosComplement(body: seq<byte>): int {
    if body != [] && body[0] >= 0x80 then Number(body) - Pow256(|body|) else Number(body)
  }

  lemma {:induction false} NumberSplit(a: byte, s: seq<byte>)
    ensures Number([a] + s) == a as int * Pow256(|s|) + Number(s)
  {
    if s == [] {
      assert [a] + s == [a];
      assert [a][..0] == [];
    } else {
      var init := s[..|s| - 1];
      assert ([a] + s)[..|s|] == [a] + init;
      NumberSplit(a, init);
      assert 256 * (a as int * Pow256(|init|)) == a as int * Pow256(|s|);
    }
  }

  lemma {:induction false} StrippedSameNumber(s: seq<byte>)
    ensures Number(Stripped(s)) == Number(s)
  {
    if s != [] && s[0] == 0 {
      StrippedSameNumber(s[1..]);
      NumberSplit(0, s[1..]);
      assert s == [0] + s[1..];
    }
  }

  /** An `mpint` stands for the number it was made from. */
  lemma MpintValue(s: seq<byte>)
    ensures TwosComplement(MpintBody(s)) == Number(s)
  {
    var digits := Stripped(s);
    StrippedSameNumber(s);
    if digits != [] && digits[0] >= 0x80 {
      NumberSplit(0, digits);
      assert Number(MpintBody(s)) == Number(digits);
    }
  }

  /** How large a number is, from its first byte. */
  lemma FirstByteBounds(s: seq<byte>)
    requires s != []
    ensures s[0] as int * Pow256(|s| - 1) <= Number(s) < (s[0] as int + 1) * Pow256(|s| - 1)
  {
    assert s == [s[0]] + s[1..];
    NumberSplit(s[0], s[1..]);
    NumberBelow(s[1..]);
    assert (s[0] as int + 1) * Pow256(|s| - 1) == s[0] as int * Pow256(|s| - 1) + Pow256(|s| - 1);
  }

  lemma {:induction false} PowersGrow(a: nat, b: nat)
    requires a <= b
    ensures Pow256(a) <= Pow256(b)
  {
    if a < b {
      PowersGrow(a, b - 1);
    }
  }

  /** No shorter body stands for the same number. */
  lemma MpintIsShortest(s: seq<byte>, other: seq<byte>)
    requires TwosComplement(other) == Number(s)
    ensures |MpintBody(s)| <= |other|
  {
    var digits := Stripped(s);
    StrippedSameNumber(s);
    if digits != [] {
      FirstByteBounds(digits);
      TopByte(digits[0], Pow256(|digits| - 1));
      NumberBelow(other);
      if other != [] {
        FirstByteBounds(other);
        HalfOf(other[0], Pow256(|other| - 1));
      }
      PowersGrow(|other|, if |other| < |digits| then |digits| - 1 else |other|);
    }
  }

  lemma TopByte(a: byte, p: nat)
    requires p > 0
    ensures a != 0 ==> a as int * p >= p
    ensures a >= 0x80 ==> a as int * p >= 128 * p
  {
  }

  lemma HalfOf(a: byte, p: nat)
    requires p > 0
    ensures a < 0x80 ==> (a as int + 1) * p <= 128 * p
  {
  }

  lemma {:induction false} SameNumberSameDigits(a: seq<byte>, b: seq<byte>)
    requires Number(a) == Number(b) && (a != [] ==> a[0] != 0) && (b != [] ==> b[0] != 0)
    ensures a == b
    decreases |a|
  {
    if a == [] || b == [] {
      if a != [] {
        FirstByteBounds(a);
        TopByte(a[0], Pow256(|a| - 1));
      }
      if b != [] {
        FirstByteBounds(b);
        TopByte(b[0], Pow256(|b| - 1));
      }
    } else {
      var c, d := a[..|a| - 1], b[..|b| - 1];
      assert a == c + [a[|a| - 1]] && b == d + [b[|b| - 1]];
      assert Number(a) / 256 == Number(c) && Number(b) / 256 == Number(d);
      SameNumberSameDigits(c, d);
    }
  }

  /** Two numbers are encoded the same exactly if they are the same, leading zeros or not. */
  lemma MpintIsCanonical(a: seq<byte>, b: seq<byte>)
    requires |MpintBody(a)| < LENGTHS && |MpintBody(b)| < LENGTHS
    ensures MpintBytes(a) == MpintBytes(b) <==> Number(a) == Number(b)
  {
    StringIsReadBack(MpintBody(a), []);
    StringIsReadBack(MpintBody(b), []);
    assert MpintBytes(a) + [] == MpintBytes(a) && MpintBytes(b) + [] == MpintBytes(b);
    if MpintBytes(a) == MpintBytes(b) {
      MpintValue(a);
      MpintValue(b);
    }
    if Number(a) == Number(b) {
      StrippedSameNumber(a);
      StrippedSameNumber(b);
      SameNumberSameDigits(Stripped(a), Stripped(b));
    }
  }

  lemma BodyOfStripped(s: seq<byte>, digits: seq<byte>)
    requires Stripped(s) == Stripped(digits) && (digits != [] ==> digits[0] != 0)
    ensures MpintBytes(s)
         == if digits != [] && digits[0] >= 0x80 then StringBytes([0] + digits) else StringBytes(digits)
  {
  }

  lemma PutTogether(start: seq<byte>, length: seq<byte>, digits: seq<byte>)
    ensures start + length + digits == start + (length + digits)
    ensures start + length + [0] + digits == start + (length + ([0] + digits))
  {
  }

  // ------------------------------------------------------------------ the buffer

  class Buffer {
    var bytes: seq<byte>

    constructor ()
      ensures bytes == []
    {
      bytes := [];
    }

    method Extend(more: seq<byte>)
      modifies this
      ensures bytes == old(bytes) + more
    {
      bytes := bytes + more;
    }

    method PutString(s: seq<byte>)
      modifies this
      ensures bytes == old(bytes) + StringBytes(s)
    {
      Extend(BigEndian(|s| % LENGTHS, 4));
      Extend(s);
    }

    method PutMpint(bigEndian: seq<byte>)
      modifies this
      ensures bytes == old(bytes) + MpintBytes(bigEndian)
    {
      var start := 0;
      while start < |bigEndian| && bigEndian[start] == 0
        invariant start <= |bigEndian| && Stripped(bigEndian) == Stripped(bigEndian[start..])
      {
        assert bigEndian[start..][1..] == bigEndian[start + 1..];
        start := start + 1;
      }
      var digits := bigEndian[start..];
      var signByte := digits != [] && digits[0] >= 0x80;
      BodyOfStripped(bigEndian, digits);
      PutBody(digits, signByte);
    }

    method PutBody(digits: seq<byte>, signByte: bool)
      modifies this
      ensures bytes == old(bytes) + if signByte then StringBytes([0] + digits) else StringBytes(digits)
    {
      var length := BigEndian((|digits| + if signByte then 1 else 0) % LENGTHS, 4);
      PutTogether(bytes, length, digits);
      Extend(length);
      if signByte {
        Extend([0]);
      }
      Extend(digits);
    }

    /** The input of the message authentication code. */
    method PutMacInput(fields: seq<seq<byte>>)
      modifies this
      ensures bytes == old(bytes) + MacInput(fields)
    {
      for i := 0 to |fields|
        invariant old(bytes) + MacInput(fields) == bytes + MacInput(fields[i..])
      {
        assert fields[i..][1..] == fields[i + 1..];
        PutString(fields[i]);
      }
    }
  }

  // ------------------------------------------------------------------ lines

  /** A text cut into lines. */
  function Lines(text: string): seq<string> {
    if text == [] then []
    else
      var width := if |text| <= LINE_WIDTH then |text| else LINE_WIDTH;
      [text[..width]] + Lines(text[width..])
  }

  function Unlines(lines: seq<string>): string {
    if lines == [] then [] else Unlines(lines[..|lines| - 1]) + lines[|lines| - 1] + "\n"
  }

  function Concat(lines: seq<string>): string {
    if lines == [] then [] else lines[0] + Concat(lines[1..])
  }

  /** The lines spell the text; all are full but the last, and that is not empty. */
  lemma {:induction false} LinesSpellTheText(text: string)
    ensures Concat(Lines(text)) == text
    ensures |Lines(text)| == (|text| + LINE_WIDTH - 1) / LINE_WIDTH
    ensures forall i :: 0 <= i < |Lines(text)| ==>
              1 <= |Lines(text)[i]| <= LINE_WIDTH && (i < |Lines(text)| - 1 ==> |Lines(text)[i]| == LINE_WIDTH)
  {
    if text != [] {
      var width := if |text| <= LINE_WIDTH then |text| else LINE_WIDTH;
      var rest := text[width..];
      LinesSpellTheText(rest);
      assert Lines(text)[1..] == Lines(rest);
      assert text == text[..width] + rest;
    }
  }

  method PushBase64Lines(out: string, title: string, encoded: string) returns (longer: string)
    ensures exists count :: Spells(count, |Lines(encoded)|)
                            && longer == out + title + ": " + count + "\n" + Unlines(Lines(encoded))
  {
    DecimalSpells(|Lines(encoded)|);
    var rest := encoded;
    LinesSpellTheText(encoded);
    longer := out + title + ": " + Decimal((|rest| + LINE_WIDTH - 1) / LINE_WIDTH) + "\n";
    ghost var start := longer;
    ghost var done: seq<string> := [];
    while rest != []
      invariant longer == start + Unlines(done) && Lines(encoded) == done + Lines(rest)
      decreases |rest|
    {
      var width := if |rest| <= LINE_WIDTH then |rest| else LINE_WIDTH;
      var line, tail := rest[..width], rest[width..];
      MoreLines(start, done, line, Lines(tail));
      longer := longer + line;
      longer := longer + "\n";
      done := done + [line];
      rest := tail;
    }
    assert done + [] == done;
    assert longer == out + title + ": " + Decimal(|Lines(encoded)|) + "\n" + Unlines(Lines(encoded));
  }

  lemma MoreLines(start: string, done: seq<string>, line: string, rest: seq<string>)
    ensures done + ([line] + rest) == (done + [line]) + rest
    ensures start + Unlines(done) + line + "\n" == start + Unlines(done + [line])
  {
    assert (done + [line])[..|done|] == done;
    assert start + Unlines(done) + line + "\n" == start + (Unlines(done) + line + "\n");
  }
}
