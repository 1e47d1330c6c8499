/**
 The byte-at-a-time conversation with sudo on a terminal, and opening a root SFTP stream.

 Every read may give any byte, the end or a failure, whatever was read and written before, so
 the server may print anything and never has to stop.
 */
module Sudo {
  import opened Wrappers
  import opened Search

  datatype ReadResult = Byte(value: char) | Eof | Broken

  /** A line, and everything that had been read when it was written. */
  datatype Written = Written(after: string, line: string)

  datatype Markers = Markers(done: string, failed: string)

  datatype ElevationStep = Wait | Password | Rejected | Ready | Missing

  datatype Outcome = Done(seen: string) | Failed(seen: string)

  datatype SudoError = SudoRefused | SudoPasswordRequired | SudoPasswordRejected | NoSftpServer | Refused | Io

  const SUDO_PROMPT := "UWUSSH-SUDO-PROMPT:"
  const READY := "UWUSSH-SFTP-READY"
  const MISSING := "UWUSSH-SFTP-MISSING"

  const ELEVATE := Markers(READY, MISSING)

  const ELEVATION_OUTPUT_LIMIT: nat := 16 * 1024

  function TrimEnd(text: string): string {
    if text != [] && text[|text| - 1] in " \r\n" then TrimEnd(text[..|text| - 1]) else text
  }

  function Step(seen: string, answered: bool, m: Markers): ElevationStep {
    if Contains(seen, m.done) then Ready
    else if Contains(seen, m.failed) then Missing
    else if !EndsWith(TrimEnd(seen), SUDO_PROMPT) then Wait
    else
      var prompts := Count(seen, SUDO_PROMPT, 0);
      if prompts == 1 && !answered then Password
      else if prompts == 1 then Wait
      else Rejected
  }

  function AfterMarker(seen: string, marker: string): (after: string)
    ensures (forall i :: !FirstAt(seen, marker, i)) ==> after == []
    ensures forall i :: FirstAt(seen, marker, i) ==> after == seen[i + |marker|..]
  {
    match Find(seen, marker, 0)
    case None => []
    case Some(at) =>
      assert FirstAt(seen, marker, at);
      seen[at + |marker|..]
  }

  /** The leftmost place where the marker stands. */
  predicate FirstAt(seen: string, marker: string, i: int) {
    MatchesAt(seen, marker, i) && forall j :: 0 <= j < i ==> !MatchesAt(seen, marker, j)
  }

  // ------------------------------------------------------------------ what a run is

  /** The marker stands somewhere in what was read. */
  ghost predicate Shows(seen: string, marker: string) {
    exists i :: MatchesAt(seen, marker, i)
  }

  /** Sudo is waiting for an answer: there is no marker, and only blanks follow a prompt. */
  ghost predicate Prompts(seen: string, m: Markers) {
    && !Shows(seen, m.done) && !Shows(seen, m.failed)
    && exists i :: PromptsAt(seen, i)
  }

  /** A prompt with nothing but blanks after it. */
  predicate PromptsAt(seen: string, i: int) {
    MatchesAt(seen, SUDO_PROMPT, i) && forall k :: i + |SUDO_PROMPT| <= k < |seen| ==> seen[k] in " \r\n"
  }

  ghost predicate PromptedTwice(seen: string) {
    exists i, j :: i != j && MatchesAt(seen, SUDO_PROMPT, i) && MatchesAt(seen, SUDO_PROMPT, j)
  }

  /** The password is due: the only prompt there is, with nothing but blanks after it. */
  ghost predicate Asks(seen: string, m: Markers) {
    Prompts(seen, m) && !PromptedTwice(seen)
  }

  /** The password was wrong: sudo asks again. */
  ghost predicate AsksAgain(seen: string, m: Markers) {
    Prompts(seen, m) && PromptedTwice(seen)
  }

  /** Whether it was due at some point so far. */
  ghost predicate Asked(seen: string, m: Markers) {
    exists k :: 0 < k <= |seen| && Asks(seen[..k], m)
  }

  /** It has just become due, for the first time. */
  ghost predicate FirstAsks(seen: string, m: Markers) {
    seen != [] && Asks(seen, m) && !Asked(seen[..|seen| - 1], m)
  }

  ghost function StepAt(seen: string, m: Markers): ElevationStep
    requires seen != []
  {
    Step(seen, Asked(seen[..|seen| - 1], m), m)
  }

  /** The conversation does not end with the last byte. */
  ghost predicate GoesOn(seen: string, password: Option<string>, m: Markers) {
    seen != [] ==>
      match StepAt(seen, m)
      case Wait => |seen| <= ELEVATION_OUTPUT_LIMIT
      case Password => password.Some?
      case _ => false
  }

  ghost predicate GoesOnUntil(seen: string, password: Option<string>, m: Markers) {
    forall k :: 0 <= k < |seen| ==> GoesOn(seen[..k], password, m)
  }

  /** What a step that ends the conversation makes of it. */
  function Verdict(step: ElevationStep, seen: string): Result<Outcome, SudoError> {
    match step
    case Ready => Ok(Done(seen))
    case Missing => Ok(Failed(seen))
    case Rejected => Err(SudoPasswordRejected)
    case Password => Err(SudoPasswordRequired)
    case Wait => Err(SudoRefused)
  }

  /** It ends with these bytes, and how; `last` is what the last read gave. */
  ghost predicate Ends(seen: string, last: ReadResult, password: Option<string>, m: Markers, r: Result<Outcome,
          SudoError>) {
    && GoesOnUntil(seen, password, m)
    && if GoesOn(seen, password, m) then !last.Byte? && r == Err(if last.Eof? then SudoRefused else Io)
       else r == Verdict(StepAt(seen, m), seen)
  }

  /** The password was written at most once, and then the moment it first became due. */
  ghost predicate AnsweredAtMostOnce(start: string, seen: string, password: Option<string>, m: Markers,
          before: seq<Written>, after: seq<Written>) {
    || after == before
    || exists k :: 0 < k <= |seen| && AnsweredAt(start, seen[..k], password, m, before, after)
  }

  ghost predicate AnsweredAt(start: string, seen: string, password: Option<string>, m: Markers, before: seq<Written>,
          after: seq<Written>) {
    password.Some? && FirstAsks(seen, m) && after == before + [Written(start + seen, password.value + "\n")]
  }

  lemma ShowsIs(seen: string, marker: string)
    ensures Contains(seen, marker) <==> Shows(seen, marker)
  {
  }

  lemma {:induction false} TrimEndIs(text: string)
    ensures |TrimEnd(text)| <= |text| && TrimEnd(text) == text[..|TrimEnd(text)|]
    ensures forall k :: |TrimEnd(text)| <= k < |text| ==> text[k] in " \r\n"
    ensures TrimEnd(text) != [] ==> TrimEnd(text)[|TrimEnd(text)| - 1] !in " \r\n"
  {
    if text != [] && text[|text| - 1] in " \r\n" {
      TrimEndIs(text[..|text| - 1]);
    }
  }

  lemma EndsAfterTrimming(seen: string, prompt: string)
    requires EndsWith(TrimEnd(seen), prompt)
    ensures MatchesAt(seen, prompt, |TrimEnd(seen)| - |prompt|)
    ensures forall k :: |TrimEnd(seen)| <= k < |seen| ==> seen[k] in " \r\n"
  {
    TrimEndIs(seen);
    var i := |TrimEnd(seen)| - |prompt|;
    assert seen[i..i + |prompt|] == TrimEnd(seen)[i..i + |prompt|];
  }

  lemma TrimmedTo(seen: string, prompt: string, i: int)
    requires prompt != [] && prompt[|prompt| - 1] !in " \r\n" && MatchesAt(seen, prompt, i)
    requires forall k :: i + |prompt| <= k < |seen| ==> seen[k] in " \r\n"
    ensures EndsWith(TrimEnd(seen), prompt)
  {
    var last := i + |prompt| - 1;
    assert seen[last] == seen[i..i + |prompt|][|prompt| - 1];
    TrimEndStopsAt(seen, last);
    assert seen[..last + 1][i..i + |prompt|] == seen[i..i + |prompt|];
  }

  lemma {:induction false} TrimEndStopsAt(text: string, last: nat)
    requires last < |text| && text[last] !in " \r\n"
    requires forall k :: last < k < |text| ==> text[k] in " \r\n"
    ensures TrimEnd(text) == text[..last + 1]
  {
    if last + 1 < |text| {
      TrimEndStopsAt(text[..|text| - 1], last);
      assert text[..|text| - 1][..last + 1] == text[..last + 1];
    } else {
      assert text[..last + 1] == text;
    }
  }

  /** A text ends in the prompt but for blanks exactly when only blanks follow one. */
  lemma EndsInPrompt(seen: string)
    ensures EndsWith(TrimEnd(seen), SUDO_PROMPT) <==> exists i :: PromptsAt(seen, i)
  {
    if EndsWith(TrimEnd(seen), SUDO_PROMPT) {
      EndsAfterTrimming(seen, SUDO_PROMPT);
      assert PromptsAt(seen, |TrimEnd(seen)| - |SUDO_PROMPT|);
    } else if i :| PromptsAt(seen, i) {
      TrimmedTo(seen, SUDO_PROMPT, i);
    }
  }

  lemma PromptsOnce(seen: string)
    requires Shows(seen, SUDO_PROMPT)
    ensures Count(seen, SUDO_PROMPT, 0) == 1 <==> !PromptedTwice(seen)
  {
    CountsOne(seen, SUDO_PROMPT);
  }

  /** Each step has exactly its cause, said of where markers and prompts stand in what was read. */
  lemma StepIs(seen: string, answered: bool, m: Markers)
    ensures Step(seen, answered, m) == Ready <==> Shows(seen, m.done)
    ensures Step(seen, answered, m) == Missing <==> Shows(seen, m.failed) && !Shows(seen, m.done)
    ensures Step(seen, answered, m) == Password <==> Asks(seen, m) && !answered
    ensures Step(seen, answered, m) == Rejected <==> AsksAgain(seen, m)
  {
    ShowsIs(seen, m.done);
    ShowsIs(seen, m.failed);
    EndsInPrompt(seen);
    if EndsWith(TrimEnd(seen), SUDO_PROMPT) {
      PromptsOnce(seen);
    }
  }

  lemma PasswordIsDue(seen: string, m: Markers)
    ensures Step(seen, false, m) == Password <==> Asks(seen, m)
    ensures Step(seen, true, m) != Password
    ensures Step(seen, true, m) == if Asks(seen, m) then Wait else Step(seen, false, m)
  {
    StepIs(seen, false, m);
    StepIs(seen, true, m);
  }

  lemma AskedSoFar(seen: string, m: Markers)
    requires seen != []
    ensures Asked(seen, m) <==> Asked(seen[..|seen| - 1], m) || Asks(seen, m)
  {
    var before := seen[..|seen| - 1];
    assert forall k :: 0 <= k <= |before| ==> before[..k] == seen[..k];
    assert seen[..|seen|] == seen;
  }

  /** A conversation that was asked for the password and went on has one. */
  lemma {:induction false} OnlyWithPassword(seen: string, password: Option<string>, m: Markers)
    requires GoesOnUntil(seen, password, m) && GoesOn(seen, password, m) && Asked(seen, m)
    ensures password.Some?
  {
    var before := seen[..|seen| - 1];
    assert forall k :: 0 <= k <= |before| ==> before[..k] == seen[..k];
    AskedSoFar(seen, m);
    if Asked(before, m) {
      OnlyWithPassword(before, password, m);
    } else {
      StepIs(seen, false, m);
    }
  }

  /** How a conversation ended says exactly where markers and prompts stand in it. */
  ghost predicate EndsFor(all: string, last: ReadResult, password: Option<string>, m: Markers,
                          r: Result<Outcome, SudoError>) {
    && (r == Err(SudoPasswordRejected) <==> all != [] && AsksAgain(all, m))
    && (r == Ok(Done(all)) <==> all != [] && Shows(all, m.done))
    && (r == Ok(Failed(all)) <==> all != [] && Shows(all, m.failed) && !Shows(all, m.done))
    && (r == Err(SudoPasswordRequired) <==> all != [] && Asks(all, m) && password.None?)
    && (r.Ok? ==> r.value == Done(all) || r.value == Failed(all))
    && (last.Byte? && all != [] && !Shows(all, m.done) && !Shows(all, m.failed) && !Prompts(all, m) ==>
          r == Err(SudoRefused))
  }

  lemma EndsForItsCause(all: string, last: ReadResult, password: Option<string>, m: Markers,
                        r: Result<Outcome, SudoError>)
    requires Ends(all, last, password, m, r)
    ensures EndsFor(all, last, password, m, r)
  {
    if all != [] {
      var before := all[..|all| - 1];
      assert forall k :: 0 <= k <= |before| ==> before[..k] == all[..k];
      assert before[..|before|] == before;
      StepIs(all, Asked(before, m), m);
      if Asked(before, m) {
        OnlyWithPassword(before, password, m);
      }
    }
  }

  /** Over the limit only the password can still be due, and that only once. */
  lemma OverTheLimit(seen: string, password: Option<string>, m: Markers)
    requires |seen| > ELEVATION_OUTPUT_LIMIT + 1
    ensures !(GoesOn(seen[..|seen| - 1], password, m) && GoesOn(seen, password, m))
  {
    var before := seen[..|seen| - 1];
    PasswordIsDue(before, m);
    PasswordIsDue(seen, m);
    AskedSoFar(before, m);
  }

  /** However much the server prints, the conversation ends at the limit or just after. */
  lemma EndsByTheLimit(seen: string, password: Option<string>, m: Markers)
    requires GoesOnUntil(seen, password, m)
    ensures |seen| <= ELEVATION_OUTPUT_LIMIT + 2
  {
    if |seen| > ELEVATION_OUTPUT_LIMIT + 2 {
      var over := seen[..ELEVATION_OUTPUT_LIMIT + 2];
      assert over[..|over| - 1] == seen[..ELEVATION_OUTPUT_LIMIT + 1];
      OverTheLimit(over, password, m);
    }
  }

  /** When the conversation succeeds nothing after the first marker has been read. */
  lemma DoneEndsAtTheMarker(seen: string, last: ReadResult, password: Option<string>, m: Markers)
    requires Ends(seen, last, password, m, Ok(Done(seen))) && m.done != []
    ensures EndsWith(seen, m.done) && AfterMarker(seen, m.done) == []
    ensures forall k :: 0 <= k < |seen| ==> !Contains(seen[..k], m.done)
  {
    forall k | 0 <= k < |seen| ensures !Contains(seen[..k], m.done) {
      assert GoesOn(seen[..k], password, m);
    }
    FirstMatchEnds(seen, m.done);
  }

  /** What one more byte means for the run. */
  lemma NextByte(before: string, byte: ReadResult, password: Option<string>, m: Markers)
    requires byte.Byte? && GoesOnUntil(before, password, m) && GoesOn(before, password, m)
    ensures var seen := before + [byte.value];
            && GoesOnUntil(seen, password, m) && |seen| <= ELEVATION_OUTPUT_LIMIT + 2
            && StepAt(seen, m) == Step(seen, Asked(before, m), m)
            && (Asked(seen, m) <==> Asked(before, m) || StepAt(seen, m) == Password)
            && (StepAt(seen, m) == Password ==> FirstAsks(seen, m))
            && (!GoesOn(seen, password, m) ==> Ends(seen, byte, password, m, Verdict(StepAt(seen, m), seen)))
  {
    var seen := before + [byte.value];
    assert seen[..|seen| - 1] == before && forall k :: 0 <= k <= |before| ==> before[..k] == seen[..k];
    assert before[..|before|] == before;
    EndsByTheLimit(seen, password, m);
    PasswordIsDue(seen, m);
    AskedSoFar(seen, m);
  }

  lemma AnsweredEarlier(start: string, seen: string, byte: char, password: Option<string>, m: Markers,
          before: seq<Written>, after: seq<Written>)
    requires AnsweredAtMostOnce(start, seen, password, m, before, after)
    ensures AnsweredAtMostOnce(start, seen + [byte], password, m, before, after)
  {
    assert forall k :: 0 <= k <= |seen| ==> seen[..k] == (seen + [byte])[..k];
  }

  lemma JustAnswered(start: string, seen: string, password: Option<string>, m: Markers, before: seq<Written>,
          after: seq<Written>)
    requires seen != [] && AnsweredAt(start, seen, password, m, before, after)
    ensures AnsweredAtMostOnce(start, seen, password, m, before, after)
  {
    assert seen[..|seen|] == seen;
  }

  // ------------------------------------------------------------------ the terminal

  class Terminal {
    var read: string
    var last: ReadResult
    var writes: seq<Written>

    constructor ()
      ensures read == [] && writes == []
    {
      read, last, writes := [], Eof, [];
    }

    method Read() returns (r: ReadResult)
      modifies this`read, this`last
      ensures last == r && read == old(read) + if r.Byte? then [r.value] else []
    {
      r := *;
      last := r;
      if r.Byte? {
        read := read + [r.value];
      }
    }

    method Write(line: string)
      modifies this`writes
      ensures writes == old(writes) + [Written(read, line)]
    {
      writes := writes + [Written(read, line)];
    }

    /** Answer sudo's prompt, once, and read until the command says it is done or that it failed. */
    method Converse(password: Option<string>, m: Markers) returns (r: Result<Outcome, SudoError>, ghost all: string)
      modifies this
      ensures read == old(read) + all && |all| <= ELEVATION_OUTPUT_LIMIT + 2
      ensures Ends(all, last, password, m, r)
      ensures EndsFor(all, last, password, m, r)
      ensures AnsweredAtMostOnce(old(read), all, password, m, old(writes), writes)
      ensures writes != old(writes) <==> password.Some? && Asked(all, m)
    {
      var seen := [];
      var answered := false;
      while true
        invariant read == old(read) + seen
        invariant answered == Asked(seen, m)
        invariant GoesOnUntil(seen, password, m) && GoesOn(seen, password, m)
        invariant AnsweredAtMostOnce(old(read), seen, password, m, old(writes), writes)
        invariant answered <==> writes != old(writes)
        invariant answered ==> password.Some?
        decreases ELEVATION_OUTPUT_LIMIT + 2 - |seen|
      {
        var byte := Read();
        if !byte.Byte? {
          EndsByTheLimit(seen, password, m);
          r := Err(if byte.Eof? then SudoRefused else Io);
          break;
        }
        NextByte(seen, byte, password, m);
        AnsweredEarlier(old(read), seen, byte.value, password, m, old(writes), writes);
        seen := seen + [byte.value];
        var step := Step(seen, answered, m);
        assert step == StepAt(seen, m);
        if step.Password? && password.Some? {
          Write(password.value + "\n");
          assert FirstAsks(seen, m) && read == old(read) + seen;
          JustAnswered(old(read), seen, password, m, old(writes), writes);
          answered := true;
        } else if !step.Wait? || |seen| > ELEVATION_OUTPUT_LIMIT {
          r := Verdict(step, seen);
          break;
        }
      }
      all := seen;
      EndsForItsCause(all, last, password, m, r);
    }

    /** Read what sudo and the wrapper print until the SFTP stream starts. */
    method Elevate(password: Option<string>) returns (r: Result<(), SudoError>, ghost all: string, ghost line: string)
      modifies this
      ensures read == old(read) + all + line
      ensures exists asked: ReadResult, c :: Ends(all, asked, password, ELEVATE, c) && Elevated(c, line, last, r)
      ensures AnsweredFor(all, password, r)
      ensures r.Ok? ==> EndsWith(all, READY) && forall k :: 0 <= k < |all| ==> !Contains(all[..k], READY)
      ensures AnsweredAtMostOnce(old(read), all, password, ELEVATE, old(writes), writes)
      ensures writes != old(writes) <==> password.Some? && Asked(all, ELEVATE)
    {
      var c;
      c, all := Converse(password, ELEVATE);
      ghost var final := last;
      line := [];
      match c {
        case Err(e) => r := Err(e);
        case Ok(Failed(_)) => r := Err(NoSftpServer);
        case Ok(Done(seen)) =>
          DoneEndsAtTheMarker(seen, last, password, ELEVATE);
          r, line := FinishLine(AfterMarker(seen, READY));
      }
      assert Ends(all, final, password, ELEVATE, c) && Elevated(c, line, last, r);
      ElevatedFor(all, final, password, c, line, last, r);
    }

    /** Read the rest of the marker's line; anything but a line end is not the stream it should be. */
    method FinishLine(after: string) returns (r: Result<(), SudoError>, ghost line: string)
      requires after == []
      modifies this`read, this`last
      ensures read == old(read) + line && |line| <= 2
      ensures r.Ok? <==> line == "\n" || line == "\r\n"
      ensures r.Err? ==> r.error == if last.Byte? then Refused else if last.Eof? then NoSftpServer else Io
    {
      var rest := after;
      while |rest| == 0
        invariant read == old(read) + rest && |rest| <= 1
        invariant |rest| > 0 ==> last.Byte?
        decreases 1 - |rest|
      {
        var byte := Read();
        if !byte.Byte? {
          return Err(if byte.Eof? then NoSftpServer else Io), rest;
        }
        rest := rest + [byte.value];
      }
      if rest == "\r" {
        var byte := Read();
        if !byte.Byte? {
          return Err(if byte.Eof? then NoSftpServer else Io), rest;
        }
        rest := rest + [byte.value];
      }
      return if rest == "\n" || rest == "\r\n" then Ok(()) else Err(Refused), rest;
    }
  }

  /**
   How opening the stream goes on after the conversation: it succeeds exactly when a line end
   follows the marker, and then nothing beyond that line end has been read.
   */
  ghost predicate Elevated(c: Result<Outcome, SudoError>, line: string, last: ReadResult, r: Result<(), SudoError>) {
    match c
    case Err(e) => r == Err(e) && line == []
    case Ok(Failed(_)) => r == Err(NoSftpServer) && line == []
    case Ok(Done(_)) =>
      && (r.Ok? <==> line == "\n" || line == "\r\n") && |line| <= 2
      && (r.Err? ==> r.error == if last.Byte? then Refused else if last.Eof? then NoSftpServer else Io)
  }

  /** Opening the stream fails for want of a password, or for a wrong one, exactly when sudo says so. */
  ghost predicate AnsweredFor(all: string, password: Option<string>, r: Result<(), SudoError>) {
    && (r == Err(SudoPasswordRejected) <==> all != [] && AsksAgain(all, ELEVATE))
    && (r == Err(SudoPasswordRequired) <==> all != [] && Asks(all, ELEVATE) && password.None?)
  }

  lemma ElevatedFor(all: string, asked: ReadResult, password: Option<string>, c: Result<Outcome, SudoError>,
                    line: string, last: ReadResult, r: Result<(), SudoError>)
    requires EndsFor(all, asked, password, ELEVATE, c) && Elevated(c, line, last, r)
    ensures AnsweredFor(all, password, r)
  {
  }
}
