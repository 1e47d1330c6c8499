/**
 The hand-written base64 of section 4 of RFC 4648, and its decoder: an accumulator of 32 bits
 whose high bits are never cleared.

 The reference for decoding is the bit string itself: the values written one after another,
 six bits each, read as whole bytes, with what is left over at the end dropped.
 */
module Base64 {
  import opened Wrappers
  import opened Bytes

  type sextet = x: int | 0 <= x < 64

  function Letter(v: sextet): char {
    if v < 26 then ('A' as int + v) as char
    else if v < 52 then ('a' as int + (v - 26)) as char
    else if v < 62 then ('0' as int + (v - 52)) as char
    else if v == 62 then '+'
    else '/'
  }

  /** The alphabet of section 4 of RFC 4648. */
  const ALPHABET := "ABCDEFGHIJKLMNOPQRSTUVWXYZ" + "abcdefghijklmnopqrstuvwxyz" + "0123456789" + "+/"

  lemma UpperCase(i: nat)
    requires i < 26
    ensures "ABCDEFGHIJKLMNOPQRSTUVWXYZ"[i] == ('A' as int + i) as char
  {
  }

  lemma LowerCase(i: nat)
    requires i < 26
    ensures "abcdefghijklmnopqrstuvwxyz"[i] == ('a' as int + i) as char
  {
  }

  lemma LettersAreTheAlphabet(v: sextet)
    ensures |ALPHABET| == 64 && Letter(v) == ALPHABET[v]
  {
    if v < 26 {
      UpperCase(v);
    } else if v < 52 {
      LowerCase(v - 26);
    } else if v < 62 {
      assert "0123456789"[v - 52] == ('0' as int + (v - 52)) as char;
    }
  }

  /** The position of a character in the alphabet. */
  function Position(c: char): (v: Option<sextet>)
    ensures v.Some? ==> Letter(v.value) == c
    ensures v.None? ==> forall w: sextet :: Letter(w) != c
  {
    if 'A' <= c <= 'Z' then Some(c as int - 'A' as int)
    else if 'a' <= c <= 'z' then Some(c as int - 'a' as int + 26)
    else if '0' <= c <= '9' then Some(c as int - '0' as int + 52)
    else if c == '+' then Some(62)
    else if c == '/' then Some(63)
    else None
  }

  lemma PositionOfLetter(v: sextet)
    ensures Position(Letter(v)) == Some(v) && Letter(v) != '='
  {
  }

  // ------------------------------------------------------------------ the bit string

  function Number64(values: seq<sextet>): nat {
    if values == [] then 0 else 64 * Number64(values[..|values| - 1]) + values[|values| - 1]
  }

  /** How many bits are left over after the last whole byte, and the number they span. */
  function LeftOver(n: nat): nat { 6 * n % 8 }

  function Span(bits: nat): (p: nat)
    ensures p > 0
  {
    if bits == 0 then 1 else 2 * Span(bits - 1)
  }

  /** The whole bytes of the bit string. */
  function Decoded(values: seq<sextet>): seq<byte> {
    BigEndian(Number64(values) / Span(LeftOver(|values|)), 6 * |values| / 8)
  }

  /** The values before the first `=`; whatever is not in the alphabet is passed over. */
  function Values(text: string): seq<sextet> {
    if text == [] || text[0] == '=' then []
    else (if Position(text[0]).Some? then [Position(text[0]).value] else []) + Values(text[1..])
  }

  /** One more value: two more bits of the byte under way, or a whole byte. */
  lemma DecodedStep(values: seq<sextet>, v: sextet, acc: u32, bits: nat)
    requires acc == Number64(values) % 0x1_0000_0000 && bits == LeftOver(|values|)
    ensures var next := acc * 64 % 0x1_0000_0000 + v;
            && next == Number64(values + [v]) % 0x1_0000_0000
            && (bits == 0 || bits == 2 || bits == 4 || bits == 6)
            && LeftOver(|values| + 1) == (if bits + 6 >= 8 then bits - 2 else bits + 6)
            && Decoded(values + [v]) == Decoded(values) + if bits + 6 >= 8 then [next / Span(bits - 2) % 256] else []
  {
    var n := Number64(values);
    Number64Append(values, v);
    ShiftIn(n, v);
    Spans();
    BitsCycle(|values|);
    if bits == 0 {
      assert (64 * n + v) / 64 == n;
    } else {
      LowBits(64 * n + v, Span(bits - 2));
      DropBits(n, v, Span(bits - 2));
      assert Span(bits) == 4 * Span(bits - 2);
    }
  }

  lemma BitsCycle(n: nat)
    ensures var bits := LeftOver(n);
            && (bits == 0 || bits == 2 || bits == 4 || bits == 6)
            && LeftOver(n + 1) == (if bits + 6 >= 8 then bits - 2 else bits + 6)
            && 6 * (n + 1) / 8 == 6 * n / 8 + if bits + 6 >= 8 then 1 else 0
  {
    var q, r := n / 4, n % 4;
    assert 6 * n == 8 * (3 * q) + 6 * r;
    BitsOf(3 * q, 6 * r);
    BitsOf(3 * q, 6 * r + 6);
  }

  lemma BitsOf(bytes: nat, bits: nat)
    ensures (8 * bytes + bits) / 8 == bytes + bits / 8 && (8 * bytes + bits) % 8 == bits % 8
  {
  }

  /** The byte that is pushed is not affected by the bits that fell off the accumulator. */
  lemma LowBits(m: nat, p: nat)
    requires p == 1 || p == 4 || p == 16
    ensures m % 0x1_0000_0000 / p % 256 == m / p % 256
  {
    var q, r := m / 0x1_0000_0000, m % 0x1_0000_0000;
    if p == 1 {
      SameByte(m, r, 0x100_0000 * q);
    } else if p == 4 {
      DivideSum(0x4000_0000 * q, r, 4);
      SameByte(m / 4, r / 4, 0x40_0000 * q);
    } else {
      DivideSum(0x1000_0000 * q, r, 16);
      SameByte(m / 16, r / 16, 0x10_0000 * q);
    }
  }

  lemma SameByte(a: nat, b: nat, k: nat)
    requires a == 256 * k + b
    ensures a % 256 == b % 256
  {
  }

  lemma DivideSum(a: nat, b: nat, p: nat)
    requires p == 4 || p == 16
    ensures (p * a + b) / p == a + b / p
  {
  }

  lemma DropBits(n: nat, v: sextet, p: nat)
    requires p == 1 || p == 4 || p == 16
    ensures (64 * n + v) / p / 256 == n / (4 * p)
  {
    if p == 1 {
      assert (64 * n + v) / 256 == n / 4;
    } else if p == 4 {
      assert (64 * n + v) / 4 / 256 == n / 16;
    } else {
      assert (64 * n + v) / 16 / 256 == n / 64;
    }
  }

  lemma Spans()
    ensures Span(0) == 1 && Span(2) == 4 && Span(4) == 16 && Span(6) == 64
  {
    assert Span(1) == 2 && Span(3) == 8 && Span(5) == 32;
  }

  lemma ShiftIn(n: nat, v: sextet)
    ensures n % 0x1_0000_0000 * 64 % 0x1_0000_0000 + v == (64 * n + v) % 0x1_0000_0000
  {
    var m := n / 0x400_0000;
    var r := n % 0x400_0000;
    assert n == 0x400_0000 * m + r;
    assert (64 * n + v) == 0x1_0000_0000 * m + (64 * r + v);
    var q := n / 0x1_0000_0000;
    assert n % 0x1_0000_0000 == n - 0x1_0000_0000 * q;
    assert n % 0x1_0000_0000 * 64 == 0x1_0000_0000 * (m - 64 * q) + 64 * r;
  }

  method Deserialize(text: string) returns (out: seq<byte>)
    ensures out == Decoded(Values(text))
  {
    out := [];
    var acc: u32 := 0;
    var bits: nat := 0;
    ghost var values: seq<sextet> := [];
    var i := 0;
    while i < |text|
      invariant i <= |text| && Values(text) == values + Values(text[i..])
      invariant out == Decoded(values) && bits == LeftOver(|values|) && acc == Number64(values) % 0x1_0000_0000
    {
      var c := text[i];
      assert text[i..][0] == c && text[i..][1..] == text[i + 1..];
      if c == '=' {
        break;
      }
      i := i + 1;
      if Position(c).None? {
        continue;
      }
      var v := Position(c).value;
      DecodedStep(values, v, acc, bits);
      assert values + ([v] + Values(text[i..])) == (values + [v]) + Values(text[i..]);
      values := values + [v];
      acc := acc * 64 % 0x1_0000_0000 + v;
      bits := bits + 6;
      if bits >= 8 {
        bits := bits - 8;
        out := out + [acc / Span(bits) % 256];
      }
    }
    assert Values(text) == values;
  }

  // ------------------------------------------------------------------ encoding

  function Groups(bytes: seq<byte>): nat { (|bytes| + 2) / 3 }

  /** Up to three bytes. */
  function Chunk(bytes: seq<byte>, g: nat): (chunk: seq<byte>)
    requires g < Groups(bytes)
    ensures 1 <= |chunk| <= 3 && (|chunk| < 3 ==> g + 1 == Groups(bytes))
  {
    bytes[3 * g..if 3 * g + 3 <= |bytes| then 3 * g + 3 else |bytes|]
  }

  /** The last `width` base-64 digits of a number. */
  function Digits64(n: nat, width: nat): (s: seq<sextet>)
    ensures |s| == width
  {
    if width == 0 then [] else Digits64(n / 64, width - 1) + [n % 64]
  }

  /** A chunk as 24 bits, filled up with zeros. */
  function Bits24(chunk: seq<byte>): nat
    requires 1 <= |chunk| <= 3
  {
    Number(chunk + Zeros(3 - |chunk|))
  }

  function Zeros(n: nat): (zeros: seq<byte>)
    ensures |zeros| == n
  {
    seq(n, _ => 0)
  }

  /** The values of a chunk: one more than it has bytes. */
  function ChunkValues(chunk: seq<byte>): (values: seq<sextet>)
    requires 1 <= |chunk| <= 3
    ensures |values| == |chunk| + 1
  {
    Digits64(Bits24(chunk), 4)[..|chunk| + 1]
  }

  function ChunkText(chunk: seq<byte>): string
    requires 1 <= |chunk| <= 3
  {
    var v := ChunkValues(chunk);
    [Letter(v[0]), Letter(v[1]), if |chunk| > 1 then Letter(v[2]) else '=', if |chunk| > 2 then Letter(v[3]) else '=']
  }

  function Encoded(bytes: seq<byte>, g: nat): string
    requires g <= Groups(bytes)
  {
    if g == 0 then [] else Encoded(bytes, g - 1) + ChunkText(Chunk(bytes, g - 1))
  }

  function EncodedValues(bytes: seq<byte>, g: nat): seq<sextet>
    requires g <= Groups(bytes)
  {
    if g == 0 then [] else EncodedValues(bytes, g - 1) + ChunkValues(Chunk(bytes, g - 1))
  }

  method Serialize(bytes: seq<byte>) returns (out: string)
    ensures out == Encoded(bytes, Groups(bytes))
  {
    out := [];
    for g := 0 to Groups(bytes)
      invariant out == Encoded(bytes, g)
    {
      out := PushChunk(out, Chunk(bytes, g));
    }
  }

  method PushChunk(out: string, chunk: seq<byte>) returns (longer: string)
    requires 1 <= |chunk| <= 3
    ensures longer == out + ChunkText(chunk)
  {
    var b1 := if |chunk| > 1 then chunk[1] else 0;
    var b2 := if |chunk| > 2 then chunk[2] else 0;
    var n: nat := Word24(chunk[0], b1, b2);
    assert chunk + Zeros(3 - |chunk|) == [chunk[0], b1, b2];
    NumberOfThree(chunk[0], b1, b2);
    FourDigits(n);
    var first := Letter(n / 0x4_0000 % 64);
    var second := Letter(n / 0x1000 % 64);
    var third := if |chunk| > 1 then Letter(n / 64 % 64) else '=';
    var fourth := if |chunk| > 2 then Letter(n % 64) else '=';
    assert ChunkText(chunk) == [first, second, third, fourth];
    longer := out + [first];
    longer := longer + [second];
    longer := longer + [third];
    longer := longer + [fourth];
  }

  /** Three bytes shifted into one word. */
  function Word24(a: int, b: int, c: int): int {
    a * 0x1_0000 + b * 0x100 + c
  }

  lemma NumberOfThree(a: byte, b: byte, c: byte)
    ensures Number([a, b, c]) == Word24(a, b, c)
  {
    NumberAppend([], a);
    NumberAppend([a], b);
    NumberAppend([a, b], c);
    assert [] + [a] == [a] && [a] + [b] == [a, b] && [a, b] + [c] == [a, b, c];
  }

  lemma FourDigits(n: nat)
    ensures Digits64(n, 4) == [n / 0x4_0000 % 64, n / 0x1000 % 64, n / 64 % 64, n % 64]
  {
    assert n / 64 / 64 == n / 0x1000 && n / 0x1000 / 64 == n / 0x4_0000;
    assert Digits64(n / 0x4_0000, 1) == [n / 0x4_0000 % 64];
    assert Digits64(n / 0x1000, 2) == Digits64(n / 0x4_0000, 1) + [n / 0x1000 % 64];
    assert Digits64(n / 64, 3) == Digits64(n / 0x1000, 2) + [n / 64 % 64];
  }

  // ------------------------------------------------------------------ round trip

  lemma {:induction false} ValuesConcat(a: string, b: string)
    requires '=' !in a
    ensures Values(a + b) == Values(a) + Values(b)
  {
    if a == [] {
      assert a + b == b;
    } else {
      assert (a + b)[1..] == a[1..] + b;
      ValuesConcat(a[1..], b);
    }
  }

  /** Characters outside the alphabet change nothing. */
  lemma StrayCharactersAreIgnored(a: string, c: char, b: string)
    requires '=' !in a && c != '=' && Position(c).None?
    ensures Values(a + [c] + b) == Values(a + b)
  {
    ValuesConcat(a, b);
    assert a + [c] + b == a + ([c] + b);
    ValuesConcat(a, [c] + b);
    assert ([c] + b)[1..] == b;
  }

  lemma {:induction false} NothingAfterPadding(a: string, b: string)
    ensures Values(a + "=" + b) == Values(a)
  {
    if a != [] && a[0] != '=' {
      assert (a + "=" + b)[1..] == a[1..] + "=" + b;
      NothingAfterPadding(a[1..], b);
    }
  }

  lemma ValuesOfChunk(chunk: seq<byte>)
    requires 1 <= |chunk| <= 3
    ensures Values(ChunkText(chunk)) == ChunkValues(chunk) && (|chunk| == 3 ==> '=' !in ChunkText(chunk))
  {
    var v, text := ChunkValues(chunk), ChunkText(chunk);
    PositionOfLetter(v[0]);
    PositionOfLetter(v[1]);
    if |chunk| > 1 {
      PositionOfLetter(v[2]);
    }
    if |chunk| > 2 {
      PositionOfLetter(v[3]);
    }
    assert text == [text[0]] + text[1..] && text[1..] == [text[1]] + text[2..] && text[2..] == [text[2]] + text[3..]
           && text[3..] == [text[3]];
    assert text[1..][1..] == text[2..] && text[2..][1..] == text[3..] && text[3..][1..] == [];
    assert Values(text[3..]) == if |chunk| > 2 then [v[3]] else [];
    assert Values(text[2..]) == if |chunk| > 1 then [v[2]] + Values(text[3..]) else [];
    assert Values(text[1..]) == [v[1]] + Values(text[2..]);
  }

  lemma {:induction false} ValuesOfEncoded(bytes: seq<byte>, g: nat)
    requires g <= Groups(bytes)
    ensures Values(Encoded(bytes, g)) == EncodedValues(bytes, g)
    ensures g < Groups(bytes) || |bytes| % 3 == 0 ==> '=' !in Encoded(bytes, g)
  {
    if g > 0 {
      ValuesOfEncoded(bytes, g - 1);
      ValuesOfChunk(Chunk(bytes, g - 1));
      ValuesConcat(Encoded(bytes, g - 1), ChunkText(Chunk(bytes, g - 1)));
    }
  }

  lemma Number64Append(a: seq<sextet>, v: sextet)
    ensures Number64(a + [v]) == 64 * Number64(a) + v
  {
    assert (a + [v])[..|a|] == a;
  }

  lemma NumberAppend(a: seq<byte>, b: byte)
    ensures Number(a + [b]) == 256 * Number(a) + b
  {
    assert (a + [b])[..|a|] == a;
  }

  function Pow64(width: nat): (p: nat)
    ensures p > 0
  {
    if width == 0 then 1 else 64 * Pow64(width - 1)
  }

  lemma Regroup(x: nat, p: nat)
    ensures x * (64 * p) == 64 * (x * p)
  {
  }

  lemma {:induction false} Number64Concat(a: seq<sextet>, b: seq<sextet>)
    ensures Number64(a + b) == Number64(a) * Pow64(|b|) + Number64(b) && Number64(b) < Pow64(|b|)
  {
    if b == [] {
      assert a + b == a;
    } else {
      var init := b[..|b| - 1];
      assert a + b == (a + init) + [b[|b| - 1]];
      Number64Append(a + init, b[|b| - 1]);
      Number64Concat(a, init);
      Regroup(Number64(a), Pow64(|init|));
    }
  }

  lemma {:induction false} NumberConcat(a: seq<byte>, b: seq<byte>)
    ensures Number(a + b) == Number(a) * Pow256(|b|) + Number(b)
  {
    if b == [] {
      assert a + b == a;
    } else {
      var init := b[..|b| - 1];
      assert (a + b)[..|a + b| - 1] == a + init;
      NumberConcat(a, init);
      assert Number(a) * (256 * Pow256(|init|)) == 256 * (Number(a) * Pow256(|init|));
    }
  }

  lemma {:induction false} Number64OfDigits(n: nat, width: nat)
    requires n < Pow64(width)
    ensures Number64(Digits64(n, width)) == n
  {
    if width > 0 {
      var s := Digits64(n, width);
      assert s[..|s| - 1] == Digits64(n / 64, width - 1);
      Number64OfDigits(n / 64, width - 1);
    }
  }

  lemma SmallPowers()
    ensures Pow64(0) == 1 && Pow64(1) == 64 && Pow64(2) == 0x1000 && Pow64(4) == 0x100_0000
    ensures Pow256(0) == 1 && Pow256(1) == 0x100 && Pow256(2) == 0x1_0000 && Pow256(3) == 0x100_0000
  {
    assert Pow64(3) == 0x4_0000;
  }

  lemma {:induction false} ZerosAreNothing(n: nat)
    ensures Number(Zeros(n)) == 0
  {
    if n > 0 {
      assert Zeros(n)[..n - 1] == Zeros(n - 1);
      ZerosAreNothing(n - 1);
    }
  }

  /** A number with the zero bits that fill up the last value, when `r` bytes are left for it. */
  function FilledUp(x: nat, r: nat): nat { if r == 1 then 16 * x else if r == 2 then 4 * x else x }

  /** The values of a chunk after others stand for its bytes after others, filled up. */
  lemma NumberOfChunk(values: seq<sextet>, before: seq<byte>, chunk: seq<byte>)
    requires 1 <= |chunk| <= 3 && Number64(values) == Number(before)
    ensures Number64(values + ChunkValues(chunk)) == FilledUp(Number(before + chunk), |chunk|)
  {
    var zeros := Zeros(3 - |chunk|);
    var n := Bits24(chunk);
    var digits := Digits64(n, 4);
    var rest := digits[|chunk| + 1..];
    SmallPowers();
    NumberBelow(chunk + zeros);
    Number64OfDigits(n, 4);
    Number64Concat(values, digits);
    assert digits == ChunkValues(chunk) + rest;
    assert values + digits == (values + ChunkValues(chunk)) + rest;
    Number64Concat(values + ChunkValues(chunk), rest);
    NumberConcat(before, chunk + zeros);
    assert before + (chunk + zeros) == (before + chunk) + zeros;
    NumberConcat(before + chunk, zeros);
    ZerosAreNothing(3 - |chunk|);
    Divides(Number64(values + ChunkValues(chunk)), Number64(rest), Number(before + chunk), |chunk|);
  }

  /** Only zeros were dropped. */
  lemma Divides(x: nat, r: nat, y: nat, k: nat)
    requires 1 <= k <= 3
    requires r < Pow64(3 - k) && x * Pow64(3 - k) + r == y * Pow256(3 - k)
    ensures x == FilledUp(y, k)
  {
    SmallPowers();
    if k == 1 {
      assert x * 0x1000 + r == y * 0x1_0000;
    } else if k == 2 {
      assert x * 64 + r == y * 256;
    }
  }

  lemma {:induction false} NumberOfFull(bytes: seq<byte>, g: nat)
    requires 3 * g <= |bytes|
    ensures Number64(EncodedValues(bytes, g)) == Number(bytes[..3 * g]) && |EncodedValues(bytes, g)| == 4 * g
  {
    if g > 0 {
      NumberOfFull(bytes, g - 1);
      var chunk := Chunk(bytes, g - 1);
      assert bytes[..3 * g] == bytes[..3 * (g - 1)] + chunk;
      NumberOfChunk(EncodedValues(bytes, g - 1), bytes[..3 * (g - 1)], chunk);
    }
  }

  /** All values of an encoding, the last chunk included. */
  lemma NumberOfEncoded(bytes: seq<byte>)
    ensures var values := EncodedValues(bytes, Groups(bytes));
            && Number64(values) == FilledUp(Number(bytes), |bytes| % 3)
            && |values| == |bytes| + Groups(bytes)
  {
    WholeGroups(|bytes|);
    NumberOfAll(bytes, |bytes| / 3);
  }

  lemma NumberOfAll(bytes: seq<byte>, full: nat)
    requires 3 * full <= |bytes| < 3 * full + 3 && Groups(bytes) == if |bytes| == 3 * full then full else full + 1
    ensures var values := EncodedValues(bytes, Groups(bytes));
            && Number64(values) == FilledUp(Number(bytes), |bytes| - 3 * full)
            && |values| == |bytes| + Groups(bytes)
  {
    NumberOfFull(bytes, full);
    if |bytes| > 3 * full {
      NumberOfLast(bytes, full);
    } else {
      assert bytes[..3 * full] == bytes;
    }
  }

  lemma WholeGroups(n: nat)
    ensures var full := n / 3;
            && n == 3 * full + n % 3
            && (n + 2) / 3 == if n == 3 * full then full else full + 1
  {
  }

  lemma NumberOfLast(bytes: seq<byte>, full: nat)
    requires 3 * full < |bytes| < 3 * full + 3 && Groups(bytes) == full + 1
    requires Number64(EncodedValues(bytes, full)) == Number(bytes[..3 * full])
    requires |EncodedValues(bytes, full)| == 4 * full
    ensures var values := EncodedValues(bytes, full + 1);
            && Number64(values) == FilledUp(Number(bytes), |bytes| - 3 * full)
            && |values| == |bytes| + full + 1
  {
    var chunk := Chunk(bytes, full);
    assert bytes == bytes[..3 * full] + chunk;
    NumberOfChunk(EncodedValues(bytes, full), bytes[..3 * full], chunk);
  }

  lemma Lengths(n: nat)
    ensures 6 * (n + (n + 2) / 3) / 8 == n
    ensures LeftOver(n + (n + 2) / 3) == if n % 3 == 1 then 4 else if n % 3 == 2 then 2 else 0
  {
    var q, r := n / 3, n % 3;
    var g := if r == 0 then q else q + 1;
    assert (n + 2) / 3 == g;
    BitsOf(n, 6 * (n + g) - 8 * n);
  }

  lemma FillingIsDropped(x: nat, r: nat)
    ensures r == 1 ==> FilledUp(x, r) / 16 == x
    ensures r == 2 ==> FilledUp(x, r) / 4 == x
  {
  }

  /** Decoding undoes encoding, for every byte string. */
  lemma DecodingUndoesEncoding(bytes: seq<byte>)
    ensures Decoded(Values(Encoded(bytes, Groups(bytes)))) == bytes
  {
    ValuesOfEncoded(bytes, Groups(bytes));
    NumberOfEncoded(bytes);
    Lengths(|bytes|);
    Spans();
    FillingIsDropped(Number(bytes), |bytes| % 3);
    BigEndianOfNumber(bytes);
  }
}
