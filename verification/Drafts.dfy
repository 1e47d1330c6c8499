/**
 What the host form and the group fields submit, and the rules it must meet.

 The checks trim first and look at what is left. What they amount to is said of the text as it
 was typed: of its part from the first to the last character that is not white space.
 */
module Drafts {
  import opened Wrappers
  import opened StoreRows
  import opened Text

  function BlankToNone(text: Option<string>): Option<string> {
    if text.Some? && Trim(text.value) != [] then Some(Trim(text.value)) else None
  }

  function GroupName(text: Option<string>): Result<Option<string>, StoreError> {
    match BlankToNone(text)
    case None => Ok(None)
    case Some(name) =>
      if exists i :: 0 <= i < |name| && IsControl(name[i]) then Err(Invalid("groupPath", "control"))
      else if |name| > 80 then Err(Invalid("groupPath", "too-long"))
      else Ok(Some(name))
  }

  predicate HasWhitespace(text: string) {
    exists i :: 0 <= i < |text| && IsWhitespace(text[i])
  }

  /** A draft as it will be stored, or the field that is wrong. */
  function Validated(d: HostDraft): (r: Result<HostDraft, StoreError>)
    ensures r.Ok? ==> r.value.id == d.id && (r.value.auth.ByPassword? ==> r.value.keyPath.None? && r.value.key.None?)
    ensures r.Ok? && r.value.auth.ByKey? ==> r.value.key.None? != r.value.keyPath.None?
  {
    var address := Trim(d.address);
    var username := Trim(d.username);
    var keyPath := BlankToNone(d.keyPath);
    var group := GroupName(d.group);
    if address == [] then Err(Invalid("address", "required"))
    else if HasWhitespace(address) then Err(Invalid("address", "whitespace"))
    else if d.port == 0 then Err(Invalid("port", "out-of-range"))
    else if username == [] then Err(Invalid("username", "required"))
    else if HasWhitespace(username) then Err(Invalid("username", "whitespace"))
    else if d.auth.ByKey? && d.key.None? && keyPath.None? then Err(Invalid("keyPath", "required"))
    else if d.password.Set? && d.password.value == [] then Err(Invalid("password", "required"))
    else if group.Err? then Err(group.error)
    else Ok(d.(
      name := if Trim(d.name) == [] then address else Trim(d.name),
      address := address,
      username := username,
      keyPath := if d.auth.ByKey? && d.key.None? then keyPath else None,
      key := if d.auth.ByKey? then d.key else None,
      group := group.value))
  }

  // ------------------------------------------------------------------ what the rules amount to

  predicate NoText(text: Option<string>) {
    text.None? || Blank(text.value)
  }

  ghost predicate SpaceInside(text: string) {
    exists k :: Inside(text, k) && IsWhitespace(text[k])
  }

  ghost predicate ControlInside(text: string) {
    exists k :: Inside(text, k) && IsControl(text[k])
  }

  /** The part without white space around it is longer than so many characters. */
  ghost predicate LongInside(text: string, most: nat) {
    exists i, j :: Inside(text, i) && Inside(text, j) && j - i >= most
  }

  /** What is wrong with a group name, if anything is. */
  ghost function GroupProblem(text: Option<string>): Option<StoreError> {
    if text.Some? && ControlInside(text.value) then Some(Invalid("groupPath", "control"))
    else if text.Some? && LongInside(text.value, 80) then Some(Invalid("groupPath", "too-long"))
    else None
  }

  /** What is wrong with a draft, the first of it. */
  ghost function DraftProblem(d: HostDraft): Option<StoreError> {
    if Blank(d.address) then Some(Invalid("address", "required"))
    else if SpaceInside(d.address) then Some(Invalid("address", "whitespace"))
    else if d.port == 0 then Some(Invalid("port", "out-of-range"))
    else if Blank(d.username) then Some(Invalid("username", "required"))
    else if SpaceInside(d.username) then Some(Invalid("username", "whitespace"))
    else if d.auth.ByKey? && d.key.None? && NoText(d.keyPath) then Some(Invalid("keyPath", "required"))
    else if d.password == Set("") then Some(Invalid("password", "required"))
    else GroupProblem(d.group)
  }

  /** What becomes of a draft without problems. */
  ghost predicate Cleaned(d: HostDraft, v: HostDraft) {
    && Trims(d.address, v.address) && Trims(d.username, v.username)
    && (if Blank(d.name) then v.name == v.address else Trims(d.name, v.name))
    && v.id == d.id && v.port == d.port && v.auth == d.auth && v.workspace == d.workspace && v.password == d.password
    && v.key == (if d.auth.ByKey? then d.key else None)
    && (if d.auth.ByKey? && d.key.None?
        then d.keyPath.Some? && v.keyPath.Some? && Trims(d.keyPath.value, v.keyPath.value)
        else v.keyPath.None?)
    && (if NoText(d.group) then v.group.None? else v.group.Some? && Trims(d.group.value, v.group.value))
  }

  lemma TrimmedPart(text: string, t: string, i: nat, j: nat)
    requires TrimsAt(text, t, i, j)
    ensures forall k :: 0 <= k < |t| ==> t[k] == text[i + k] && Inside(text, i + k)
    ensures forall k :: Inside(text, k) ==> i <= k < j && text[k] == t[k - i]
  {
    InsideIs(text, t, i, j);
  }

  lemma TrimmedCharacters(text: string, t: string, i: nat, j: nat)
    requires TrimsAt(text, t, i, j)
    ensures HasWhitespace(t) <==> SpaceInside(text)
    ensures (exists k :: 0 <= k < |t| && IsControl(t[k])) <==> ControlInside(text)
  {
    TrimmedPart(text, t, i, j);
    if k :| 0 <= k < |t| && IsWhitespace(t[k]) {
      assert Inside(text, i + k) && IsWhitespace(text[i + k]);
    }
    if k :| 0 <= k < |t| && IsControl(t[k]) {
      assert Inside(text, i + k) && IsControl(text[i + k]);
    }
  }

  lemma TrimmedLength(text: string, t: string, i: nat, j: nat, most: nat)
    requires TrimsAt(text, t, i, j)
    ensures |t| > most <==> LongInside(text, most)
  {
    TrimmedPart(text, t, i, j);
    if |t| > most {
      assert Inside(text, i + 0) && Inside(text, i + (|t| - 1));
    }
  }

  /** What is left after trimming has white space, control characters and length just as the part inside has. */
  lemma TrimmedText(text: string, most: nat)
    ensures Trims(text, Trim(text)) && (Trim(text) == [] <==> Blank(text))
    ensures HasWhitespace(Trim(text)) <==> SpaceInside(text)
    ensures (exists k :: 0 <= k < |Trim(text)| && IsControl(Trim(text)[k])) <==> ControlInside(text)
    ensures |Trim(text)| > most <==> LongInside(text, most)
  {
    TrimIs(text);
    var i: nat, j: nat :| TrimsAt(text, Trim(text), i, j);
    InsideIs(text, Trim(text), i, j);
    TrimmedCharacters(text, Trim(text), i, j);
    TrimmedLength(text, Trim(text), i, j, most);
  }

  /** A group name is the text without white space around it; blank is none, and each error has its own cause. */
  lemma GroupNameIs(text: Option<string>)
    ensures GroupName(text).Ok? <==> GroupProblem(text).None?
    ensures GroupName(text).Err? ==> GroupProblem(text) == Some(GroupName(text).error)
    ensures GroupName(text).Ok? ==>
              if NoText(text) then GroupName(text).value.None?
              else GroupName(text).value.Some? && Trims(text.value, GroupName(text).value.value)
  {
    if text.Some? {
      TrimmedText(text.value, 80);
      assert NoText(text) ==> forall k :: !Inside(text.value, k);
    }
  }

  lemma BlankIs(text: string)
    ensures (Trim(text) == []) == Blank(text)
  {
    TrimmedAway(text);
  }

  lemma SpaceIs(text: string)
    ensures HasWhitespace(Trim(text)) == SpaceInside(text)
  {
    TrimmedText(text, 0);
  }

  lemma NoTextIs(text: Option<string>)
    ensures BlankToNone(text).None? == NoText(text)
    ensures BlankToNone(text).Some? ==> text.Some? && Trims(text.value, BlankToNone(text).value)
  {
    if text.Some? {
      TrimmedText(text.value, 0);
    }
  }

  lemma PartIs(text: string)
    ensures Trims(text, Trim(text))
  {
    TrimIs(text);
  }

  /** The checks of a draft, given what its trimmed texts are. */
  lemma DraftChecks(d: HostDraft, noAddress: bool, spaceInAddress: bool, noName: bool, spaceInName: bool, noPath: bool)
    requires (Trim(d.address) == []) == noAddress && HasWhitespace(Trim(d.address)) == spaceInAddress
    requires (Trim(d.username) == []) == noName && HasWhitespace(Trim(d.username)) == spaceInName
    requires BlankToNone(d.keyPath).None? == noPath
    ensures Validated(d) ==
            if noAddress then Err(Invalid("address", "required"))
            else if spaceInAddress then Err(Invalid("address", "whitespace"))
            else if d.port == 0 then Err(Invalid("port", "out-of-range"))
            else if noName then Err(Invalid("username", "required"))
            else if spaceInName then Err(Invalid("username", "whitespace"))
            else if d.auth.ByKey? && d.key.None? && noPath then Err(Invalid("keyPath", "required"))
            else if d.password == Set("") then Err(Invalid("password", "required"))
            else if GroupName(d.group).Err? then Err(GroupName(d.group).error)
            else Ok(d.(name := if Trim(d.name) == [] then Trim(d.address) else Trim(d.name),
                       address := Trim(d.address), username := Trim(d.username),
                       keyPath := if d.auth.ByKey? && d.key.None? then BlankToNone(d.keyPath) else None,
                       key := if d.auth.ByKey? then d.key else None, group := GroupName(d.group).value))
  {
  }

  lemma ChecksOf(d: HostDraft)
    ensures Validated(d).Ok? ==>
              Validated(d).value == d.(
                name := if Trim(d.name) == [] then Trim(d.address) else Trim(d.name),
                address := Trim(d.address), username := Trim(d.username),
                keyPath := if d.auth.ByKey? && d.key.None? then BlankToNone(d.keyPath) else None,
                key := if d.auth.ByKey? then d.key else None, group := GroupName(d.group).value)
    ensures Validated(d).Ok? ==>
              GroupName(d.group).Ok? && (d.auth.ByKey? && d.key.None? ==> BlankToNone(d.keyPath).Some?)
  {
    DraftChecks(d, Trim(d.address) == [], HasWhitespace(Trim(d.address)), Trim(d.username) == [],
        HasWhitespace(Trim(d.username)), BlankToNone(d.keyPath).None?);
  }

  /** Each error of a draft has its own cause, in this order. */
  lemma DraftErrorIs(d: HostDraft)
    ensures Validated(d).Ok? <==> DraftProblem(d).None?
    ensures Validated(d).Err? ==> DraftProblem(d) == Some(Validated(d).error)
  {
    BlankIs(d.address);
    SpaceIs(d.address);
    BlankIs(d.username);
    SpaceIs(d.username);
    NoTextIs(d.keyPath);
    GroupNameIs(d.group);
    DraftChecks(d, Blank(d.address), SpaceInside(d.address), Blank(d.username), SpaceInside(d.username),
        NoText(d.keyPath));
  }

  /** A draft without problems is stored as typed, but for white space around its texts. */
  lemma ValidatedIs(d: HostDraft)
    ensures Validated(d).Ok? ==> Cleaned(d, Validated(d).value)
  {
    if Validated(d).Ok? {
      ChecksOf(d);
      PartIs(d.address);
      PartIs(d.username);
      PartIs(d.name);
      BlankIs(d.name);
      NoTextIs(d.keyPath);
      GroupNameIs(d.group);
    }
  }

  /** The draft as it is stored, or its first problem. */
  method Validate(d: HostDraft) returns (r: Result<HostDraft, StoreError>)
    ensures r.Ok? <==> DraftProblem(d).None?
    ensures r.Err? ==> DraftProblem(d) == Some(r.error)
    ensures r.Ok? ==> Cleaned(d, r.value) && GroupName(d.group) == Ok(r.value.group)
  {
    DraftErrorIs(d);
    ValidatedIs(d);
    r := Validated(d);
    if r.Ok? {
      ChecksOf(d);
    }
  }
}
