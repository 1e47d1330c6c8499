/** Finding markers in text: containment, leftmost matches and how many there are. */
module Search {
  import opened Wrappers

  predicate MatchesAt(text: string, marker: string, i: int) {
    0 <= i && i + |marker| <= |text| && text[i..i + |marker|] == marker
  }

  predicate Contains(text: string, marker: string) {
    exists i :: 0 <= i <= |text| && MatchesAt(text, marker, i)
  }

  predicate EndsWith(text: string, marker: string) {
    MatchesAt(text, marker, |text| - |marker|)
  }

  /** The leftmost match from `from` on. */
  function Find(text: string, marker: string, from: nat): (at: Option<nat>)
    ensures at.Some? ==> from <= at.value && MatchesAt(text, marker, at.value)
    ensures at.Some? ==> forall i :: from <= i < at.value ==> !MatchesAt(text, marker, i)
    ensures at.None? ==> forall i :: from <= i ==> !MatchesAt(text, marker, i)
    decreases |text| + 1 - from
  {
    if from > |text| then None
    else if MatchesAt(text, marker, from) then Some(from)
    else Find(text, marker, from + 1)
  }

  /** The rightmost match that starts before `n`. */
  function FindLast(text: string, marker: string, n: nat): (at: Option<nat>)
    ensures at.Some? ==> at.value < n && MatchesAt(text, marker, at.value)
    ensures at.Some? ==> forall i :: at.value < i < n ==> !MatchesAt(text, marker, i)
    ensures at.None? ==> forall i :: 0 <= i < n ==> !MatchesAt(text, marker, i)
  {
    if n == 0 then None
    else if MatchesAt(text, marker, n - 1) then Some(n - 1)
    else FindLast(text, marker, n - 1)
  }

  /** How often the marker occurs, counted from the left without overlap. */
  function Count(text: string, marker: string, from: nat): nat
    requires marker != []
    decreases |text| + 1 - from
  {
    match Find(text, marker, from)
    case None => 0
    case Some(i) => 1 + Count(text, marker, i + |marker|)
  }

  /** A marker whose last character it has only once never overlaps itself. */
  predicate EndsUniquely(marker: string) {
    marker != [] && forall i :: 0 <= i < |marker| - 1 ==> marker[i] != marker[|marker| - 1]
  }

  lemma MatchesAreApart(text: string, marker: string, i: int, j: int)
    requires EndsUniquely(marker) && MatchesAt(text, marker, i) && i < j < i + |marker|
    ensures !MatchesAt(text, marker, j)
  {
    var last := |marker| - 1;
    assert text[i + last] == text[i..i + |marker|][last];
    if j + |marker| <= |text| {
      assert text[j..j + |marker|][i + last - j] == text[i + last];
    }
  }

  /** Counting one from the left is there being exactly one place where it is. */
  lemma CountsOne(text: string, marker: string)
    requires EndsUniquely(marker)
    ensures Count(text, marker, 0) == 1 <==>
              exists i :: MatchesAt(text, marker, i) && forall j :: MatchesAt(text, marker, j) ==> j == i
  {
    var first := Find(text, marker, 0);
    if first.Some? {
      var second := Find(text, marker, first.value + |marker|);
      if second.Some? {
        assert MatchesAt(text, marker, first.value) && MatchesAt(text, marker, second.value);
      } else {
        forall j | first.value < j < first.value + |marker| ensures !MatchesAt(text, marker, j) {
          MatchesAreApart(text, marker, first.value, j);
        }
      }
    } else {
      assert Count(text, marker, 0) == 0;
    }
  }

  /** When one more character completes the first match, the text ends with it. */
  lemma FirstMatchEnds(text: string, marker: string)
    requires text != [] && Contains(text, marker) && !Contains(text[..|text| - 1], marker)
    ensures EndsWith(text, marker) && Find(text, marker, 0) == Some(|text| - |marker|)
  {
    var shorter := text[..|text| - 1];
    forall i | 0 <= i && i + |marker| < |text| ensures !MatchesAt(text, marker, i) {
      assert shorter[i..i + |marker|] == text[i..i + |marker|];
      assert !MatchesAt(shorter, marker, i);
    }
  }
}
