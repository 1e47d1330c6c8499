/**
 The one-typo matcher of the answer cache.

 The reference is an edit script: inserting, deleting or substituting one letter at a time.
 `Cost` is the textbook recurrence on prefixes; it is proved to be the length of a shortest
 script, and the matcher's two rolling rows with their early exits to decide whether that
 length is at most one.
 */
module Close {
  // ------------------------------------------------------------------ edit scripts

  function Insert(w: string, k: nat, c: char): string
    requires k <= |w|
  {
    w[..k] + [c] + w[k..]
  }

  function Delete(w: string, k: nat): string
    requires k < |w|
  {
    w[..k] + w[k + 1..]
  }

  function Substitute(w: string, k: nat, c: char): string
    requires k < |w|
  {
    w[k := c]
  }

  ghost predicate OneEdit(w: string, v: string) {
    || (exists k: nat, c: char :: k <= |w| && v == Insert(w, k, c))
    || (exists k: nat :: k < |w| && v == Delete(w, k))
    || (exists k: nat, c: char :: k < |w| && v == Substitute(w, k, c))
  }

  /** From `u` to `v` one edit at a time; the script has one edit fewer than words. */
  ghost predicate Script(words: seq<string>, u: string, v: string) {
    && words != [] && words[0] == u && words[|words| - 1] == v
    && forall i :: 0 < i < |words| ==> OneEdit(words[i - 1], words[i])
  }

  // ------------------------------------------------------------------ the recurrence

  function Differ(x: char, y: char): nat {
    if x == y then 0 else 1
  }

  /** The edit distance of the first `i` letters of `a` and the first `j` of `b`. */
  function Cost(a: string, b: string, i: nat, j: nat): nat
    requires i <= |a| && j <= |b|
  {
    if i == 0 then j
    else if j == 0 then i
    else
      var diagonal, above, left := Cost(a, b, i - 1, j - 1) + Differ(a[i - 1], b[j - 1]), Cost(a, b, i - 1, j) + 1,
          Cost(a, b, i, j - 1) + 1;
      if diagonal <= above && diagonal <= left then diagonal else if above <= left then above else left
  }

  function Distance(a: string, b: string): nat {
    Cost(a, b, |a|, |b|)
  }

  // ------------------------------------------------------------------ no script is shorter

  lemma {:induction false} CostOfPrefix(u: string, w: string, v: string, i: nat, j: nat)
    requires i <= |u| && j <= |w| && j <= |v| && w[..j] == v[..j]
    ensures Cost(u, w, i, j) == Cost(u, v, i, j)
  {
    if i > 0 && j > 0 {
      assert w[j - 1] == w[..j][j - 1] && v[j - 1] == v[..j][j - 1];
      assert w[..j - 1] == w[..j][..j - 1] && v[..j - 1] == v[..j][..j - 1];
      CostOfPrefix(u, w, v, i - 1, j - 1);
      CostOfPrefix(u, w, v, i - 1, j);
      CostOfPrefix(u, w, v, i, j - 1);
    }
  }

  /** One letter fewer saves at most one edit. */
  lemma {:induction false} ShorterCostsAtMostOneMore(u: string, w: string, i: nat, j: nat)
    requires i <= |u| && j < |w|
    ensures Cost(u, w, i, j) <= Cost(u, w, i, j + 1) + 1
  {
    if i > 0 {
      ShorterCostsAtMostOneMore(u, w, i - 1, j);
    }
  }

  lemma {:induction false} SubstitutionCostsOne(u: string, w: string, k: nat, c: char, i: nat, j: nat, before: nat,
          after: nat)
    requires k < |w| && i <= |u| && j <= |w|
    requires before == Cost(u, w, i, j) && after == Cost(u, Substitute(w, k, c), i, j)
    ensures after <= before + 1
    decreases i, j
  {
    var v := Substitute(w, k, c);
    if i > 0 && j > 0 {
      SubstitutionCostsOne(u, w, k, c, i - 1, j - 1, Cost(u, w, i - 1, j - 1), Cost(u, v, i - 1, j - 1));
      SubstitutionCostsOne(u, w, k, c, i - 1, j, Cost(u, w, i - 1, j), Cost(u, v, i - 1, j));
      SubstitutionCostsOne(u, w, k, c, i, j - 1, Cost(u, w, i, j - 1), Cost(u, v, i, j - 1));
      if j - 1 == k {
        CostOfPrefix(u, v, w, i - 1, k);
      }
    }
  }

  lemma {:induction false} InsertionCostsOne(u: string, w: string, k: nat, c: char, i: nat, j: nat, before: nat,
          after: nat)
    requires k <= j <= |w| && i <= |u|
    requires before == Cost(u, w, i, j) && after == Cost(u, Insert(w, k, c), i, j + 1)
    ensures after <= before + 1
    decreases i, j
  {
    var v := Insert(w, k, c);
    if j == k {
      CostOfPrefix(u, v, w, i, k);
    } else if i > 0 {
      InsertionCostsOne(u, w, k, c, i - 1, j - 1, Cost(u, w, i - 1, j - 1), Cost(u, v, i - 1, j));
      InsertionCostsOne(u, w, k, c, i - 1, j, Cost(u, w, i - 1, j), Cost(u, v, i - 1, j + 1));
      InsertionCostsOne(u, w, k, c, i, j - 1, Cost(u, w, i, j - 1), Cost(u, v, i, j));
    }
  }

  lemma {:induction false} DeletionCostsOne(u: string, w: string, k: nat, i: nat, j: nat, before: nat, after: nat)
    requires k < j <= |w| && i <= |u|
    requires before == Cost(u, w, i, j) && after == Cost(u, Delete(w, k), i, j - 1)
    ensures after <= before + 1
    decreases i, j
  {
    var v := Delete(w, k);
    if j == k + 1 {
      CostOfPrefix(u, v, w, i, k);
      ShorterCostsAtMostOneMore(u, w, i, k);
    } else if i > 0 {
      DeletionCostsOne(u, w, k, i - 1, j - 1, Cost(u, w, i - 1, j - 1), Cost(u, v, i - 1, j - 2));
      DeletionCostsOne(u, w, k, i - 1, j, Cost(u, w, i - 1, j), Cost(u, v, i - 1, j - 1));
      DeletionCostsOne(u, w, k, i, j - 1, Cost(u, w, i, j - 1), Cost(u, v, i, j - 2));
    }
  }

  lemma OneEditCostsOne(u: string, w: string, v: string)
    requires OneEdit(w, v)
    ensures Distance(u, v) <= Distance(u, w) + 1
  {
    if k: nat, c: char :| k <= |w| && v == Insert(w, k, c) {
      InsertionCostsOne(u, w, k, c, |u|, |w|, Distance(u, w), Distance(u, v));
    } else if k: nat :| k < |w| && v == Delete(w, k) {
      DeletionCostsOne(u, w, k, |u|, |w|, Distance(u, w), Distance(u, v));
    } else {
      var k: nat, c: char :| k < |w| && v == Substitute(w, k, c);
      SubstitutionCostsOne(u, w, k, c, |u|, |w|, Distance(u, w), Distance(u, v));
    }
  }

  lemma {:induction false} EqualCostsNothing(a: string, i: nat)
    requires i <= |a|
    ensures Cost(a, a, i, i) == 0
  {
    if i > 0 {
      EqualCostsNothing(a, i - 1);
    }
  }

  lemma {:induction false} NoScriptIsShorter(words: seq<string>, u: string, v: string)
    requires Script(words, u, v)
    ensures Distance(u, v) <= |words| - 1
  {
    if |words| == 1 {
      EqualCostsNothing(u, |u|);
    } else {
      var w := words[|words| - 2];
      NoScriptIsShorter(words[..|words| - 1], u, w);
      OneEditCostsOne(u, w, v);
    }
  }

  // ------------------------------------------------------------------ a script that short

  lemma OneEditBefore(w: string, v: string, c: char)
    requires OneEdit(w, v)
    ensures OneEdit(w + [c], v + [c])
  {
    if k: nat, d: char :| k <= |w| && v == Insert(w, k, d) {
      assert v + [c] == Insert(w + [c], k, d);
    } else if k: nat :| k < |w| && v == Delete(w, k) {
      assert v + [c] == Delete(w + [c], k);
    } else {
      var k: nat, d: char :| k < |w| && v == w[k := d];
      assert v + [c] == Substitute(w + [c], k, d);
    }
  }

  /** The same script with one more letter at the end of every word. */
  lemma ScriptBefore(words: seq<string>, u: string, v: string, c: char) returns (longer: seq<string>)
    requires Script(words, u, v)
    ensures Script(longer, u + [c], v + [c]) && |longer| == |words|
  {
    longer := seq(|words|, i requires 0 <= i < |words| => words[i] + [c]);
    forall i | 0 < i < |longer| ensures OneEdit(longer[i - 1], longer[i]) {
      OneEditBefore(words[i - 1], words[i], c);
    }
  }

  lemma EditsAtTheEnd(w: string, c: char, d: char)
    ensures OneEdit(w, w + [c]) && OneEdit(w + [c], w) && OneEdit(w + [c], w + [d])
  {
    assert w + [c] == Insert(w, |w|, c);
    assert w == Delete(w + [c], |w|);
    assert w + [d] == Substitute(w + [c], |w|, d);
  }

  /** Both words one letter longer: one more edit when the letters differ. */
  lemma ScriptSubstitutes(words: seq<string>, u: string, v: string, c: char, d: char) returns (longer: seq<string>)
    requires Script(words, u, v)
    ensures Script(longer, u + [c], v + [d]) && |longer| == |words| + Differ(c, d)
  {
    longer := ScriptBefore(words, u, v, c);
    if c != d {
      EditsAtTheEnd(v, c, d);
      longer := longer + [v + [d]];
    }
  }

  lemma ScriptDeletes(words: seq<string>, u: string, v: string, c: char) returns (longer: seq<string>)
    requires Script(words, u, v)
    ensures Script(longer, u + [c], v) && |longer| == |words| + 1
  {
    longer := ScriptBefore(words, u, v, c);
    EditsAtTheEnd(v, c, c);
    longer := longer + [v];
  }

  lemma ScriptInserts(words: seq<string>, u: string, v: string, c: char) returns (longer: seq<string>)
    requires Script(words, u, v)
    ensures Script(longer, u, v + [c]) && |longer| == |words| + 1
  {
    EditsAtTheEnd(v, c, c);
    longer := words + [v + [c]];
  }

  /** The recurrence is the length of a script from one prefix to the other. */
  lemma {:induction false} ScriptOfCost(a: string, b: string, i: nat, j: nat, n: nat) returns (words: seq<string>)
    requires i <= |a| && j <= |b| && n == Cost(a, b, i, j)
    ensures Script(words, a[..i], b[..j]) && |words| == n + 1
    decreases i, j
  {
    assert i > 0 ==> a[..i] == a[..i - 1] + [a[i - 1]];
    assert j > 0 ==> b[..j] == b[..j - 1] + [b[j - 1]];
    if i == 0 && j == 0 {
      words := [[]];
    } else if i > 0 && j > 0 && n == Cost(a, b, i - 1, j - 1) + Differ(a[i - 1], b[j - 1]) {
      words := ScriptOfCost(a, b, i - 1, j - 1, n - Differ(a[i - 1], b[j - 1]));
      words := ScriptSubstitutes(words, a[..i - 1], b[..j - 1], a[i - 1], b[j - 1]);
    } else if i > 0 && n > 0 && n - 1 == Cost(a, b, i - 1, j) {
      words := ScriptOfCost(a, b, i - 1, j, n - 1);
      words := ScriptDeletes(words, a[..i - 1], b[..j], a[i - 1]);
    } else {
      words := ScriptOfCost(a, b, i, j - 1, n - 1);
      words := ScriptInserts(words, a[..i], b[..j - 1], b[j - 1]);
    }
  }

  /** The distance is the length of a shortest edit script. */
  lemma DistanceIsShortestScript(u: string, v: string)
    ensures exists words :: Script(words, u, v) && |words| == Distance(u, v) + 1
    ensures forall words :: Script(words, u, v) ==> Distance(u, v) <= |words| - 1
  {
    var words := ScriptOfCost(u, v, |u|, |v|, Distance(u, v));
    assert u[..|u|] == u && v[..|v|] == v;
    forall words | Script(words, u, v) ensures Distance(u, v) <= |words| - 1 {
      NoScriptIsShorter(words, u, v);
    }
  }

  /** A distance of at most one is one edit, or none. */
  lemma WithinOneIsOneEdit(u: string, v: string)
    ensures Distance(u, v) <= 1 <==> u == v || OneEdit(u, v)
  {
    DistanceIsShortestScript(u, v);
    if u == v {
      assert Script([u], u, v);
    } else if OneEdit(u, v) {
      assert Script([u, v], u, v);
    }
  }

  lemma {:induction false} CostIsSymmetric(a: string, b: string, i: nat, j: nat)
    requires i <= |a| && j <= |b|
    ensures Cost(a, b, i, j) == Cost(b, a, j, i)
  {
    if i > 0 && j > 0 {
      CostIsSymmetric(a, b, i - 1, j - 1);
      CostIsSymmetric(a, b, i - 1, j);
      CostIsSymmetric(a, b, i, j - 1);
    }
  }

  // ------------------------------------------------------------------ the early exits

  /** The length check: words whose lengths differ by two are two edits apart. */
  lemma {:induction false} CostCoversLengths(a: string, b: string, i: nat, j: nat)
    requires i <= |a| && j <= |b|
    ensures Cost(a, b, i, j) >= i - j && Cost(a, b, i, j) >= j - i
  {
    if i > 0 && j > 0 {
      CostCoversLengths(a, b, i - 1, j - 1);
      CostCoversLengths(a, b, i - 1, j);
      CostCoversLengths(a, b, i, j - 1);
    }
  }

  /** The row check: a row whose every entry is over one is followed only by such rows. */
  lemma {:induction false} RowStaysOver(a: string, b: string, i: nat, n: nat, j: nat)
    requires i <= n <= |a| && j <= |b|
    requires forall x :: 0 <= x <= |b| ==> Cost(a, b, i, x) > 1
    ensures Cost(a, b, n, j) > 1
    decreases n, j
  {
    if n > i {
      RowStaysOver(a, b, i, n - 1, j);
      if j > 0 {
        RowStaysOver(a, b, i, n - 1, j - 1);
        RowStaysOver(a, b, i, n, j - 1);
      }
    }
  }

  // ------------------------------------------------------------------ the matcher

  function Min(x: nat, y: nat): nat {
    if x <= y then x else y
  }

  predicate IsLiteral(token: string) {
    exists i :: 0 <= i < |token| && ('0' <= token[i] <= '9' || token[i] in "/.~-_*:@=\\")
  }

  /** A digit, or one of the signs of paths, options, addresses and patterns. */
  predicate IsSign(c: char) {
    || '0' <= c <= '9'
    || c == '/' || c == '.' || c == '~' || c == '-' || c == '_' || c == '*' || c == ':' || c == '@' || c == '='
    || c == '\\'
  }

  lemma LiteralIs(token: string)
    ensures IsLiteral(token) <==> exists i :: 0 <= i < |token| && IsSign(token[i])
  {
    forall i | 0 <= i < |token|
      ensures IsSign(token[i]) <==> '0' <= token[i] <= '9' || token[i] in "/.~-_*:@=\\"
    {
    }
  }

  /** Words in which one letter more or less does not make another word. */
  predicate Comparable(a: string, b: string) {
    !IsLiteral(a) && !IsLiteral(b) && |a| >= 5 && |b| >= 5
  }

  predicate Within(row: seq<nat>, a: string, b: string, i: nat)
    requires i <= |a|
  {
    |row| == |b| + 1 && forall j :: 0 <= j <= |b| ==> row[j] == Cost(a, b, i, j)
  }

  /** The next row of the table, computed in place from the previous one. */
  method NextRow(a: string, b: string, i: nat, previous: array<nat>) returns (current: array<nat>)
    requires i < |a| && Within(previous[..], a, b, i)
    ensures fresh(current) && Within(current[..], a, b, i + 1)
  {
    current := new nat[|b| + 1](_ => i + 1);
    for j := 0 to |b|
      invariant Within(previous[..], a, b, i)
      invariant current.Length == |b| + 1 && fresh(current)
      invariant forall x: nat :: x <= j ==> current[x] == Cost(a, b, i + 1, x)
    {
      assert previous[j] == previous[..][j] && previous[j + 1] == previous[..][j + 1];
      var substitution := previous[j] + Differ(a[i], b[j]);
      current[j + 1] := Min(Min(substitution, previous[j + 1] + 1), current[j] + 1);
    }
  }

  method Minimum(row: array<nat>) returns (least: nat)
    requires row.Length > 0
    ensures (exists j :: 0 <= j < row.Length && row[j] == least) && forall j :: 0 <= j < row.Length ==> least <= row[j]
  {
    least := row[0];
    for j := 1 to row.Length
      invariant exists x :: 0 <= x < j && row[x] == least
      invariant forall x :: 0 <= x < j ==> least <= row[x]
    {
      least := Min(least, row[j]);
    }
  }

  /** Two words are the same allowing one typo: words of at least five characters, none of them a digit or a sign. */
  method IsClose(a: string, b: string) returns (close: bool)
    ensures close <==> a == b || (Comparable(a, b) && OneEdit(a, b))
    ensures (exists i :: 0 <= i < |a| && IsSign(a[i])) || (exists i :: 0 <= i < |b| && IsSign(b[i])) ==>
              (close <==> a == b)
    ensures |a| >= 5 && |b| >= 5 && (forall i :: 0 <= i < |a| ==> !IsSign(a[i]))
            && (forall i :: 0 <= i < |b| ==> !IsSign(b[i])) ==>
              (close <==> a == b || OneEdit(a, b))
    ensures |a| < 5 || |b| < 5 ==> (close <==> a == b)
  {
    LiteralIs(a);
    LiteralIs(b);
    if a == b {
      return true;
    }
    WithinOneIsOneEdit(a, b);
    if IsLiteral(a) || IsLiteral(b) || |a| < 5 || |b| < 5 {
      return false;
    }
    CostCoversLengths(a, b, |a|, |b|);
    if |a| > |b| + 1 || |b| > |a| + 1 {
      return false;
    }
    var previous := new nat[|b| + 1](j => j);
    for i := 0 to |a|
      invariant Within(previous[..], a, b, i)
    {
      var current := NextRow(a, b, i, previous);
      var least := Minimum(current);
      if least > 1 {
        assert forall x :: 0 <= x <= |b| ==> current[..][x] == current[x] > 1;
        RowStaysOver(a, b, i + 1, |a|, |b|);
        return false;
      }
      previous := current;
    }
    assert previous[|b|] == previous[..][|b|];
    close := previous[|b|] <= 1;
  }

  /** Being close does not depend on which word is the stored one. */
  lemma ClosenessIsSymmetric(a: string, b: string)
    ensures OneEdit(a, b) == OneEdit(b, a)
  {
    WithinOneIsOneEdit(a, b);
    WithinOneIsOneEdit(b, a);
    CostIsSymmetric(a, b, |a|, |b|);
  }
}
