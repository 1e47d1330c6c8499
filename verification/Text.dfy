/** The parts of string handling several modules share: character classes and trimming. */
module Text {

  /** `char::is_whitespace`: Unicode White_Space. */
  predicate IsWhitespace(c: char) {
    var n := c as int;
    || 0x09 <= n <= 0x0d || n == 0x20 || n == 0x85 || n == 0xa0 || n == 0x1680
    || 0x2000 <= n <= 0x200a || n == 0x2028 || n == 0x2029 || n == 0x202f || n == 0x205f || n == 0x3000
  }

  /** `char::is_control`: Unicode category Cc. */
  predicate IsControl(c: char) {
    var n := c as int;
    n <= 0x1f || 0x7f <= n <= 0x9f
  }

  /** The 25 characters with the Unicode property White_Space. */
  const WHITE_SPACE := "\t\n\U{0b}\U{0c}\r \U{85}\U{a0}\U{1680}"
                       + "\U{2000}\U{2001}\U{2002}\U{2003}\U{2004}\U{2005}\U{2006}\U{2007}\U{2008}\U{2009}\U{200a}"
                       + "\U{2028}\U{2029}\U{202f}\U{205f}\U{3000}"

  lemma WhitespaceIs(c: char)
    ensures IsWhitespace(c) <==> c in WHITE_SPACE
  {
  }

  /** Controls are the first 32 characters of each half of Latin-1, and Delete. */
  lemma ControlIs(c: char)
    ensures IsControl(c) <==> c as int < 0x100 && (c as int % 0x80 < 0x20 || c as int == 0x7f)
  {
  }

  /** Nothing but white space. */
  predicate Blank(text: string) {
    forall i :: 0 <= i < |text| ==> IsWhitespace(text[i])
  }

  function TrimStart(s: string): string {
    if s != [] && IsWhitespace(s[0]) then TrimStart(s[1..]) else s
  }

  function TrimEnd(s: string): string {
    if s != [] && IsWhitespace(s[|s| - 1]) then TrimEnd(s[..|s| - 1]) else s
  }

  function Trim(s: string): string {
    TrimEnd(TrimStart(s))
  }

  ghost predicate TrimsAt(s: string, t: string, i: nat, j: nat) {
    && i <= j <= |s| && t == s[i..j] && Blank(s[..i]) && Blank(s[j..])
    && (t != [] ==> !IsWhitespace(t[0]) && !IsWhitespace(t[|t| - 1]))
  }

  /** `t` is the part of `s` from its first to its last character that is not white space. */
  ghost predicate Trims(s: string, t: string) {
    exists i, j :: TrimsAt(s, t, i, j)
  }

  /** The character at `k` lies in that part. */
  ghost predicate Inside(s: string, k: int) {
    exists i, j :: 0 <= i <= k <= j < |s| && !IsWhitespace(s[i]) && !IsWhitespace(s[j])
  }

  lemma {:induction false} TrimStartIs(s: string)
    ensures |TrimStart(s)| <= |s| && TrimStart(s) == s[|s| - |TrimStart(s)|..]
    ensures Blank(s[..|s| - |TrimStart(s)|]) && (TrimStart(s) != [] ==> !IsWhitespace(TrimStart(s)[0]))
  {
    if s != [] && IsWhitespace(s[0]) {
      TrimStartIs(s[1..]);
      var n := |s| - |TrimStart(s)|;
      assert forall i :: 0 < i < n ==> s[i] == s[1..][..n - 1][i - 1];
    }
  }

  lemma {:induction false} TrimEndIs(s: string)
    ensures |TrimEnd(s)| <= |s| && TrimEnd(s) == s[..|TrimEnd(s)|]
    ensures Blank(s[|TrimEnd(s)|..]) && (TrimEnd(s) != [] ==> !IsWhitespace(TrimEnd(s)[|TrimEnd(s)| - 1]))
  {
    if s != [] && IsWhitespace(s[|s| - 1]) {
      var init := s[..|s| - 1];
      TrimEndIs(init);
      assert forall i :: |TrimEnd(s)| <= i < |init| ==> s[i] == init[|TrimEnd(s)|..][i - |TrimEnd(s)|];
    }
  }

  /** Trimming a text gives that part, and there is only one. */
  lemma TrimIs(s: string)
    ensures Trims(s, Trim(s))
    ensures forall t :: Trims(s, t) ==> t == Trim(s)
  {
    TrimStartIs(s);
    TrimEndIs(TrimStart(s));
    var i := |s| - |TrimStart(s)|;
    var j := i + |Trim(s)|;
    assert Trim(s) == s[i..j];
    assert forall k :: j <= k < |s| ==> s[k] == TrimStart(s)[|Trim(s)|..][k - j];
    assert TrimsAt(s, Trim(s), i, j);
    forall t | Trims(s, t)
      ensures t == Trim(s)
    {
      var a, b :| TrimsAt(s, t, a, b);
      TrimsOnce(s, t, a, b, Trim(s), i, j);
    }
  }

  lemma TrimmedAway(s: string)
    ensures Trim(s) == [] <==> Blank(s)
  {
    TrimIs(s);
    var i: nat, j: nat :| TrimsAt(s, Trim(s), i, j);
    InsideIs(s, Trim(s), i, j);
  }

  lemma TrimsOnce(s: string, t: string, i: nat, j: nat, u: string, a: nat, b: nat)
    requires TrimsAt(s, t, i, j) && TrimsAt(s, u, a, b)
    ensures t == u
  {
    InsideIs(s, t, i, j);
    InsideIs(s, u, a, b);
    if t != [] {
      assert Inside(s, i) && Inside(s, j - 1);
    }
    if u != [] {
      assert Inside(s, a) && Inside(s, b - 1);
    }
  }

  /** The characters inside are exactly those that trimming leaves. */
  lemma InsideIs(s: string, t: string, i: nat, j: nat)
    requires TrimsAt(s, t, i, j)
    ensures forall k :: Inside(s, k) <==> i <= k < j
    ensures t == [] <==> Blank(s)
  {
    assert forall x :: 0 <= x < i ==> s[x] == s[..i][x];
    assert forall x :: j <= x < |s| ==> s[x] == s[j..][x - j];
    if t != [] {
      assert s[i] == t[0] && s[j - 1] == t[|t| - 1];
    }
  }

  // ------------------------------------------------------------------ numbers in decimal

  function Decimal(n: nat): string {
    (if n < 10 then [] else Decimal(n / 10)) + [('0' as int + n % 10) as char]
  }

  predicate IsDigit(c: char) {
    '0' <= c <= '9'
  }

  /** What digits mean, read from the left. */
  function ReadDigits(text: string, sofar: nat): nat {
    if text == [] || !IsDigit(text[0]) then sofar
    else ReadDigits(text[1..], 10 * sofar + (text[0] as int - '0' as int))
  }

  /** The text is the number in decimal: digits only, none leading that is zero, and they mean the number. */
  predicate Spells(text: string, n: nat) {
    && text != [] && (forall i :: 0 <= i < |text| ==> IsDigit(text[i]))
    && (text[0] == '0' ==> |text| == 1)
    && ReadDigits(text, 0) == n
  }

  lemma {:induction false} ReadDigitsConcat(a: string, c: char, sofar: nat)
    requires IsDigit(c) && forall i :: 0 <= i < |a| ==> IsDigit(a[i])
    ensures ReadDigits(a + [c], sofar) == 10 * ReadDigits(a, sofar) + (c as int - '0' as int)
    decreases a
  {
    if a == [] {
      assert ([] + [c])[1..] == [];
      assert a + [c] == [c];
    } else {
      ReadDigitsConcat(a[1..], c, 10 * sofar + (a[0] as int - '0' as int));
      assert (a + [c])[1..] == a[1..] + [c];
    }
  }

  /** `Decimal` spells its number. */
  lemma {:induction false} DecimalSpells(n: nat)
    ensures Spells(Decimal(n), n)
    ensures Decimal(n)[0] == '0' <==> n == 0
  {
    var last := ('0' as int + n % 10) as char;
    if n < 10 {
      assert Decimal(n) == [last];
      assert [last][1..] == [];
      assert ReadDigits([last][1..], n) == n;
    } else {
      DecimalSpells(n / 10);
      ReadDigitsConcat(Decimal(n / 10), last, 0);
    }
  }

  lemma {:induction false} ReadDigitsGrows(text: string, sofar: nat)
    ensures ReadDigits(text, sofar) >= sofar
    decreases text
  {
    if text != [] && IsDigit(text[0]) {
      ReadDigitsGrows(text[1..], 10 * sofar + (text[0] as int - '0' as int));
    }
  }

  /** And nothing else does. */
  lemma {:induction false} SpellingIsUnique(text: string, n: nat)
    requires Spells(text, n)
    ensures text == Decimal(n)
    decreases text
  {
    var init, last := text[..|text| - 1], text[|text| - 1];
    assert text == init + [last];
    ReadDigitsConcat(init, last, 0);
    if init == [] {
      assert ReadDigits(init, 0) == 0;
    } else {
      assert init[0] == text[0];
      ReadDigitsGrows(init[1..], init[0] as int - '0' as int);
      SpellingIsUnique(init, ReadDigits(init, 0));
    }
  }
}
