/**
 The answer cache: a fixed number of slots that are reused rather than deleted.

 An emptied slot keeps its row, without a command. Its partner is a plain map from question to
 answer that never forgets.
 */
module AssistCache {
  import opened Wrappers
  import Text

  const ASSIST_CACHE_SLOTS: nat := 200
  const MAX_TEXT_CHARS: nat := 4000

  datatype Question = Question(platform: string, normalized: string)

  datatype Answer = Answer(request: string, command: string, explanation: string, dangerous: bool)

  datatype NewEntry = NewEntry(question: Question, answer: Answer)

  datatype Row = Row(question: Question, answer: Answer, created: int, used: int, hits: nat)

  type Rows = map<nat, Row>

  predicate Live(rows: Rows, s: nat) {
    s in rows && rows[s].answer.command != ""
  }

  predicate Holds(rows: Rows, s: nat, q: Question) {
    Live(rows, s) && rows[s].question == q
  }

  function Max(a: int, b: int): int { if a >= b then a else b }

  function LastUse(rows: Rows, s: nat): int {
    if s in rows then Max(rows[s].used, rows[s].created) else 0
  }

  predicate InSlots(rows: Rows) {
    forall s :: s in rows ==> s < ASSIST_CACHE_SLOTS
  }

  /** At most one live answer for each question. */
  ghost predicate OnePerQuestion(rows: Rows) {
    forall s, t :: Live(rows, s) && Live(rows, t) && s != t ==> rows[s].question != rows[t].question
  }

  function Cut(text: string): string {
    if |text| <= MAX_TEXT_CHARS then text else text[..MAX_TEXT_CHARS]
  }

  /** As much of a text as is stored: all of it, or its first 4000 characters. */
  predicate IsCut(text: string, stored: string) {
    stored <= text && |stored| == if |text| <= 4000 then |text| else 4000
  }

  function CutQuestion(q: Question): (cut: Question)
    ensures IsCut(q.platform, cut.platform) && IsCut(q.normalized, cut.normalized)
  {
    Question(Cut(q.platform), Cut(q.normalized))
  }

  function CutAnswer(a: Answer): (cut: Answer)
    ensures IsCut(a.request, cut.request) && IsCut(a.command, cut.command) && IsCut(a.explanation, cut.explanation)
    ensures cut.dangerous == a.dangerous
  {
    Answer(Cut(a.request), Cut(a.command), Cut(a.explanation), a.dangerous)
  }

  predicate IsBlank(e: NewEntry) {
    Text.Trim(e.answer.command) == ""
  }

  /** A slot as a put leaves it: the question and the answer as far as they are stored, made and used now. */
  predicate StoredAs(e: NewEntry, now: int, row: Row) {
    && IsCut(e.question.platform, row.question.platform) && IsCut(e.question.normalized, row.question.normalized)
    && IsCut(e.answer.request, row.answer.request) && IsCut(e.answer.command, row.answer.command)
    && IsCut(e.answer.explanation, row.answer.explanation) && row.answer.dangerous == e.answer.dangerous
    && row.created == now && row.used == now && row.hits == 0
  }

  /** The texts of an answer are stored whole. */
  predicate FitsAnswer(a: Answer) {
    |a.request| <= 4000 && |a.command| <= 4000 && |a.explanation| <= 4000
  }

  /** An emptied slot: only when it was made is kept. */
  predicate EmptiedAs(before: Row, after: Row) {
    after == Row(Question("", ""), Answer("", "", "", false), before.created, 0, 0)
  }

  /**
   The slot a new answer goes into: the first one never used or emptied, else the one whose
   answer was used or made longest ago, the first of them.
   */
  predicate FreeOrOldest(rows: Rows, s: nat) {
    && s < ASSIST_CACHE_SLOTS
    && if exists f: nat :: f < ASSIST_CACHE_SLOTS && !Live(rows, f)
       then !Live(rows, s) && forall f: nat :: f < s ==> Live(rows, f)
       else forall t: nat :: t < ASSIST_CACHE_SLOTS ==>
           LastUse(rows, s) <= LastUse(rows, t) && (t < s ==> LastUse(rows, s) < LastUse(rows, t))
  }

  /** The slot of the same question, the one used last should there be several. */
  predicate LatestOf(rows: Rows, q: Question, s: nat) {
    Holds(rows, s, q) && forall t :: t in rows && Holds(rows, t, q) ==> LastUse(rows, t) <= LastUse(rows, s)
  }

  ghost predicate Chosen(rows: Rows, q: Question, s: nat) {
    if exists t :: Holds(rows, t, q) then LatestOf(rows, q, s) else FreeOrOldest(rows, s)
  }

  function PutRow(rows: Rows, e: NewEntry, s: nat, now: int): Rows {
    rows[s := Row(CutQuestion(e.question), CutAnswer(e.answer), now, now, 0)]
  }

  function Emptied(row: Row): Row {
    row.(question := Question("", ""), answer := Answer("", "", "", false), used := 0, hits := 0)
  }

  function EmptyAll(rows: Rows): Rows {
    map s | s in rows :: if Live(rows, s) then Emptied(rows[s]) else rows[s]
  }

  function EmptyOne(rows: Rows, s: nat): Rows {
    if Live(rows, s) then rows[s := Emptied(rows[s])] else rows
  }

  function Touched(rows: Rows, s: nat, now: int): Rows {
    if s in rows then rows[s := rows[s].(used := now, hits := rows[s].hits + 1)] else rows
  }

  function LiveSlots(rows: Rows): set<nat> {
    set s | s in rows && Live(rows, s)
  }

  // ------------------------------------------------------------------ the cache

  class Cache {
    var rows: Rows

    ghost predicate Valid()
      reads this
    {
      InSlots(rows)
    }

    constructor ()
      ensures Valid() && rows == map[]
    {
      rows := map[];
    }

    /** Keep an answer. */
    method Put(e: NewEntry, now: int) returns (slot: Option<nat>)
      requires Valid()
      modifies this
      ensures Valid()
      ensures slot.None? <==> Text.Blank(e.answer.command)
      ensures slot.None? ==> rows == old(rows)
      ensures slot.Some? ==>
                && slot.value in rows && StoredAs(e, now, rows[slot.value])
                && rows.Keys == old(rows).Keys + {slot.value}
                && (forall t :: t in old(rows) && t != slot.value ==> rows[t] == old(rows)[t])
                && (FitsAnswer(e.answer) ==> rows[slot.value].answer == e.answer)
                && (Fits(e.question) ==> rows[slot.value].question == e.question)
      ensures slot.Some? ==> Chosen(old(rows), e.question, slot.value) && rows == PutRow(old(rows), e, slot.value, now)
    {
      Text.TrimmedAway(e.answer.command);
      if IsBlank(e) {
        return None;
      }
      var same := FindSame(e.question);
      var s;
      if same.Some? {
        s := same.value;
      } else {
        s := FindFreeOrOldest();
      }
      rows := PutRow(rows, e, s, now);
      slot := Some(s);
    }

    method FindSame(q: Question) returns (best: Option<nat>)
      requires Valid()
      ensures best.Some? ==> LatestOf(rows, q, best.value)
      ensures best.None? ==> forall s :: !Holds(rows, s, q)
    {
      best := None;
      for s := 0 to ASSIST_CACHE_SLOTS
        invariant best.None? ==> forall t: nat :: t < s ==> !Holds(rows, t, q)
        invariant best.Some? ==> best.value < s && Holds(rows, best.value, q)
        invariant best.Some? ==> forall t: nat :: t < s && Holds(rows, t, q) ==>
                    LastUse(rows, t) <= LastUse(rows, best.value)
      {
        if Holds(rows, s, q) && (best.None? || LastUse(rows, best.value) < LastUse(rows, s)) {
          best := Some(s);
        }
      }
    }

    method FindFreeOrOldest() returns (slot: nat)
      requires Valid()
      ensures FreeOrOldest(rows, slot)
    {
      var taken: map<nat, int> := map[];
      for s := 0 to ASSIST_CACHE_SLOTS
        invariant forall t: nat :: t in taken <==> t < s && Live(rows, t)
        invariant forall t :: t in taken ==> taken[t] == LastUse(rows, t)
      {
        if Live(rows, s) {
          taken := taken[s := LastUse(rows, s)];
        }
      }
      for s := 0 to ASSIST_CACHE_SLOTS
        invariant forall t: nat :: t < s ==> Live(rows, t)
      {
        if s !in taken {
          return s;
        }
      }
      slot := 0;
      for s := 1 to ASSIST_CACHE_SLOTS
        invariant slot < s
        invariant forall t: nat :: t < s ==> taken[slot] <= taken[t] && (t < slot ==> taken[slot] < taken[t])
      {
        if taken[s] < taken[slot] {
          slot := s;
        }
      }
    }

    /** Note that an answer was used here. */
    method Touch(s: nat, now: int)
      requires Valid()
      modifies this
      ensures Valid() && rows == Touched(old(rows), s, now)
      ensures rows.Keys == old(rows).Keys && LiveSlots(rows) == LiveSlots(old(rows))
      ensures forall t :: t in rows && t != s ==> rows[t] == old(rows)[t]
      ensures s in rows ==>
                && rows[s].used == now && rows[s].hits == old(rows)[s].hits + 1
                && rows[s].created == old(rows)[s].created
      ensures forall t :: t in rows ==>
                rows[t].question == old(rows)[t].question && rows[t].answer == old(rows)[t].answer
    {
      if s in rows {
        rows := rows[s := rows[s].(used := now, hits := rows[s].hits + 1)];
      }
    }

    /** Empty one slot. */
    method ClearOne(s: nat) returns (cleared: bool)
      requires Valid()
      modifies this
      ensures Valid() && rows == EmptyOne(old(rows), s) && cleared == Live(old(rows), s)
      ensures rows.Keys == old(rows).Keys && forall t :: t in rows ==>
                if t == s && Live(old(rows), t) then EmptiedAs(old(rows)[t], rows[t]) else rows[t] == old(rows)[t]
    {
      cleared := Live(rows, s);
      if cleared {
        rows := rows[s := Emptied(rows[s])];
      }
    }

    /** Empty the whole cache. */
    method ClearAll() returns (cleared: nat)
      requires Valid()
      modifies this
      ensures Valid() && rows == EmptyAll(old(rows)) && cleared == |LiveSlots(old(rows))|
      ensures rows.Keys == old(rows).Keys && LiveSlots(rows) == {}
      ensures forall t :: t in rows ==>
                if Live(old(rows), t) then EmptiedAs(old(rows)[t], rows[t]) else rows[t] == old(rows)[t]
    {
      ghost var before := rows;
      cleared := 0;
      for s := 0 to ASSIST_CACHE_SLOTS
        invariant rows.Keys == before.Keys
        invariant forall t :: t in rows ==>
                    rows[t] == if t < s && Live(before, t) then Emptied(before[t]) else before[t]
        invariant cleared == |LiveBelow(before, s)|
      {
        LiveBelowNext(before, s);
        if Live(rows, s) {
          rows := rows[s := Emptied(rows[s])];
          cleared := cleared + 1;
        }
      }
      assert LiveBelow(before, ASSIST_CACHE_SLOTS) == LiveSlots(before);
    }
  }

  function LiveBelow(rows: Rows, n: nat): set<nat> {
    set s | s in rows && Live(rows, s) && s < n
  }

  lemma LiveBelowNext(rows: Rows, n: nat)
    ensures |LiveBelow(rows, n + 1)| == |LiveBelow(rows, n)| + if Live(rows, n) then 1 else 0
  {
    assert LiveBelow(rows, n + 1) == LiveBelow(rows, n) + if Live(rows, n) then {n} else {};
  }

  // ------------------------------------------------------------------ what a put does

  /** Questions the texts of which are stored whole. */
  predicate Fits(q: Question) {
    |q.platform| <= MAX_TEXT_CHARS && |q.normalized| <= MAX_TEXT_CHARS
  }

  lemma {:induction false} BlankIsBlankCut(text: string)
    ensures Text.Trim(text) != "" ==> Cut(text) != ""
  {
    if text == "" {
      assert Text.Trim(text) == "";
    }
  }

  /**
   A put leaves one answer per question exactly when no other live slot already holds the
   question as it will be stored. For a question that fits there is never such a slot.
   */
  lemma PutKeepsOnePerQuestion(rows: Rows, e: NewEntry, s: nat, now: int)
    requires OnePerQuestion(rows) && Chosen(rows, e.question, s) && !IsBlank(e)
    ensures OnePerQuestion(PutRow(rows, e, s, now)) <==> forall t :: t != s ==> !Holds(rows, t, CutQuestion(e.question))
    ensures Fits(e.question) ==> OnePerQuestion(PutRow(rows, e, s, now))
  {
    BlankIsBlankCut(e.answer.command);
    var after := PutRow(rows, e, s, now);
    assert Live(after, s) && after[s].question == CutQuestion(e.question);
    assert forall t :: t != s ==> (Live(after, t) <==> Live(rows, t)) && (t in rows ==> after[t] == rows[t]);
    assert forall t :: t != s ==>
             (Holds(rows, t, CutQuestion(e.question)) <==> Live(after, t) && after[t].question == after[s].question);
    assert Fits(e.question) ==> CutQuestion(e.question) == e.question;
  }

  /** A question too long to be stored whole is not recognised when it comes again. */
  lemma LongQuestionsRepeat(e: NewEntry, now: int) returns (once: Rows, twice: Rows)
    requires !Fits(e.question) && !IsBlank(e)
    ensures Chosen(map[], e.question, 0) && once == PutRow(map[], e, 0, now)
    ensures Chosen(once, e.question, 1) && twice == PutRow(once, e, 1, now)
    ensures !OnePerQuestion(twice)
  {
    BlankIsBlankCut(e.answer.command);
    var none: Rows := map[];
    assert forall t :: !Holds(none, t, e.question);
    assert !Live(none, 0);
    once := PutRow(none, e, 0, now);
    assert CutQuestion(e.question) != e.question;
    assert forall t :: !Holds(once, t, e.question);
    assert Live(once, 0) && !Live(once, 1);
    twice := PutRow(once, e, 1, now);
    assert Live(twice, 0) && Live(twice, 1) && twice[0].question == twice[1].question;
  }

  // ------------------------------------------------------------------ runs

  datatype Op =
    | PutOp(entry: NewEntry, slot: nat, now: int)
    | TouchOp(slot: nat, now: int)
    | ClearOneOp(slot: nat)
    | ClearAllOp

  /** What an operation may do to the rows. */
  ghost predicate Does(before: Rows, op: Op, after: Rows) {
    match op
    case PutOp(e, s, now) =>
      if IsBlank(e) then after == before
      else Chosen(before, e.question, s) && after == PutRow(before, e, s, now)
    case TouchOp(s, now) => after == Touched(before, s, now)
    case ClearOneOp(s) => after == EmptyOne(before, s)
    case ClearAllOp => after == EmptyAll(before)
  }

  /** The plain map from question to last answer. */
  function Remember(known: map<Question, Answer>, rows: Rows, op: Op): map<Question, Answer> {
    match op
    case PutOp(e, s, now) => if IsBlank(e) then known else known[e.question := CutAnswer(e.answer)]
    case TouchOp(s, now) => known
    case ClearOneOp(s) => if Live(rows, s) then known - {rows[s].question} else known
    case ClearAllOp => map[]
  }

  /** The answer a put at this slot throws out, if any: only an answer to another question. */
  function Evicted(rows: Rows, op: Op): set<Question> {
    if op.PutOp? && !IsBlank(op.entry) && Live(rows, op.slot) && rows[op.slot].question != op.entry.question
    then {rows[op.slot].question} else {}
  }

  ghost predicate Asked(op: Op) {
    op.PutOp? ==> Fits(op.entry.question)
  }

  ghost predicate IsRun(trace: seq<Rows>, ops: seq<Op>) {
    && |trace| == |ops| + 1 && trace[0] == map[]
    && forall i :: 0 <= i < |ops| ==> Asked(ops[i]) && Does(trace[i], ops[i], trace[i + 1])
  }

  /** What is remembered after the first `n` operations of a run, less what was evicted and not asked again. */
  ghost function Memory(trace: seq<Rows>, ops: seq<Op>, n: nat): map<Question, Answer>
    requires |trace| == |ops| + 1 && n <= |ops|
  {
    if n == 0 then map[]
    else Remember(Memory(trace, ops, n - 1) - Evicted(trace[n - 1], ops[n - 1]), trace[n - 1], ops[n - 1])
  }

  /** The live slots hold exactly what is remembered. */
  ghost predicate Agrees(rows: Rows, known: map<Question, Answer>) {
    && (forall s :: Live(rows, s) ==> rows[s].question in known && known[rows[s].question] == rows[s].answer)
    && (forall q :: q in known ==> exists s :: Holds(rows, s, q))
  }

  lemma StepKeepsSlots(before: Rows, op: Op, after: Rows)
    requires InSlots(before) && Does(before, op, after)
    ensures InSlots(after)
  {
  }

  lemma StepAgrees(before: Rows, op: Op, after: Rows, known: map<Question, Answer>)
    requires OnePerQuestion(before) && Agrees(before, known) && Asked(op) && Does(before, op, after)
    ensures OnePerQuestion(after) && Agrees(after, Remember(known - Evicted(before, op), before, op))
  {
    match op {
      case PutOp(e, s, now) =>
        if IsBlank(e) {
          assert known - {} == known;
        } else {
          PutKeepsOnePerQuestion(before, e, s, now);
          PutAgrees(before, e, s, now, known);
        }
      case TouchOp(s, now) =>
        assert known - {} == known;
        TouchAgrees(before, s, now, known);
      case ClearOneOp(s) =>
        assert known - {} == known;
        ClearOneAgrees(before, s, known);
      case ClearAllOp =>
    }
  }

  lemma PutAgrees(rows: Rows, e: NewEntry, s: nat, now: int, known: map<Question, Answer>)
    requires OnePerQuestion(rows) && Agrees(rows, known) && Fits(e.question) && Chosen(rows, e.question, s)
    requires !IsBlank(e)
    ensures Agrees(PutRow(rows, e, s, now), Remember(known - Evicted(rows, PutOp(e, s, now)), rows, PutOp(e, s, now)))
  {
    BlankIsBlankCut(e.answer.command);
    var after := PutRow(rows, e, s, now);
    var remembered := Remember(known - Evicted(rows, PutOp(e, s, now)), rows, PutOp(e, s, now));
    assert CutQuestion(e.question) == e.question;
    assert Holds(after, s, e.question);
    forall q | q in remembered && q != e.question ensures exists t :: Holds(after, t, q) {
      var t :| Holds(rows, t, q);
      assert t != s;
      assert Holds(after, t, q);
    }
    forall t | Live(after, t) && t != s ensures after[t].question in remembered
           && remembered[after[t].question] == after[t].answer {
      assert Live(rows, t);
      assert !Holds(rows, t, e.question);
    }
  }

  lemma TouchAgrees(rows: Rows, s: nat, now: int, known: map<Question, Answer>)
    requires OnePerQuestion(rows) && Agrees(rows, known)
    ensures OnePerQuestion(Touched(rows, s, now)) && Agrees(Touched(rows, s, now), known)
  {
    var after := Touched(rows, s, now);
    assert forall t :: Live(after, t) <==> Live(rows, t);
    assert forall t :: Live(rows, t) ==> after[t].question == rows[t].question && after[t].answer == rows[t].answer;
    forall q | q in known ensures exists t :: Holds(after, t, q) {
      var t :| Holds(rows, t, q);
      assert Holds(after, t, q);
    }
  }

  lemma ClearOneAgrees(rows: Rows, s: nat, known: map<Question, Answer>)
    requires OnePerQuestion(rows) && Agrees(rows, known)
    ensures OnePerQuestion(EmptyOne(rows, s)) && Agrees(EmptyOne(rows, s), Remember(known, rows, ClearOneOp(s)))
  {
    var after := EmptyOne(rows, s);
    assert forall t :: (Live(after, t) <==> Live(rows, t) && t != s) && (Live(after, t) ==> after[t] == rows[t]);
    forall q | q in Remember(known, rows, ClearOneOp(s)) ensures exists t :: Holds(after, t, q) {
      var t :| Holds(rows, t, q);
      assert t != s && Holds(after, t, q);
    }
  }

  /**
   Over every run the cache has one answer per question and agrees with a map that remembers
   the last answer to each question, except for what was evicted.
   */
  lemma {:induction false} CacheIsAMapButForEvictions(trace: seq<Rows>, ops: seq<Op>, n: nat)
    requires IsRun(trace, ops) && n <= |ops|
    ensures InSlots(trace[n]) && OnePerQuestion(trace[n]) && Agrees(trace[n], Memory(trace, ops, n))
  {
    if n > 0 {
      CacheIsAMapButForEvictions(trace, ops, n - 1);
      StepKeepsSlots(trace[n - 1], ops[n - 1], trace[n]);
      StepAgrees(trace[n - 1], ops[n - 1], trace[n], Memory(trace, ops, n - 1));
    }
  }

  /** An answer is thrown out only when every slot is taken, and then one used or made longest ago. */
  lemma EvictsOnlyTheOldest(rows: Rows, e: NewEntry, s: nat, now: int)
    requires OnePerQuestion(rows) && Chosen(rows, e.question, s)
    requires Evicted(rows, PutOp(e, s, now)) != {}
    ensures forall t: nat :: t < ASSIST_CACHE_SLOTS ==> Live(rows, t) && LastUse(rows, s) <= LastUse(rows, t)
    ensures forall t :: !Holds(rows, t, e.question)
  {
  }

  /**
   A touch keeps an answer: it is the next to go exactly when every other slot holds an answer
   used or made after it, or at the same time in a later slot.
   */
  lemma TouchedGoesLast(rows: Rows, s: nat, now: int)
    requires s < ASSIST_CACHE_SLOTS && Live(rows, s)
    ensures var touched := Max(now, rows[s].created);
            FreeOrOldest(Touched(rows, s, now), s) <==>
              forall t: nat :: t < ASSIST_CACHE_SLOTS && t != s ==>
                Live(rows, t) && (touched < LastUse(rows, t) || (touched == LastUse(rows, t) && s < t))
  {
    var after := Touched(rows, s, now);
    assert forall t: nat :: (Live(after, t) <==> Live(rows, t)) && (t != s ==> LastUse(after, t) == LastUse(rows, t));
    assert LastUse(after, s) == Max(now, rows[s].created);
    if f: nat :| f < ASSIST_CACHE_SLOTS && !Live(after, f) {
      assert f != s && !Live(rows, f);
    }
  }

  lemma AtMostAllSlotsAreLive(rows: Rows)
    requires InSlots(rows)
    ensures |LiveSlots(rows)| <= ASSIST_CACHE_SLOTS
  {
    SlotsBelow(LiveSlots(rows), ASSIST_CACHE_SLOTS);
  }

  lemma {:induction false} SlotsBelow(slots: set<nat>, n: nat)
    requires forall s :: s in slots ==> s < n
    ensures |slots| <= n
  {
    if n > 0 {
      SlotsBelow(slots - {n - 1}, n - 1);
    } else {
      assert slots == {};
    }
  }
}
