/** The last answer each alias got: a record that changes, and is written out, only when the class of the
    answer changes, so that it run-length compresses the history of answers.
  */
module Answers {
  import opened Common

  datatype Refusal = Refusal(code: string, message: Option<string>)

  datatype LastAnswer = LastAnswer(answered: bool, refusal: Option<string>, message: Option<string>, at: string)

  type Record = map<string, LastAnswer>

  /** The record file: absent, not an answer record, or one whole record. */
  datatype Disk = Missing | Unreadable | Holds(record: Record)

  datatype Book = Book(memory: Record, disk: Disk)

  /** One answer: `None` for a generation; `stored` is whether a write attempted for it would succeed. */
  datatype Answer = Answer(alias: string, refusal: Option<Refusal>, at: string, stored: bool)

  /** What is compared between answers: the refusal's code, or that there was none. */
  function ClassOf(a: Answer): Option<string> {
    if a.refusal.Some? then Some(a.refusal.value.code) else None
  }

  function EntryOf(a: Answer): LastAnswer {
    LastAnswer(a.refusal.None?, ClassOf(a), if a.refusal.Some? then a.refusal.value.message else None, a.at)
  }

  predicate Known(memory: Record, a: Answer) {
    && a.alias in memory
    && memory[a.alias].answered == a.refusal.None? && memory[a.alias].refusal == ClassOf(a)
  }

  /** The gateway's copy when the process starts. */
  function Loaded(disk: Disk): Record {
    match disk
    case Holds(record) => record
    case _ => map[]
  }

  function Recorded(b: Book, a: Answer): Book {
    if Known(b.memory, a) then b
    else
      var memory := b.memory[a.alias := EntryOf(a)];
      Book(memory, if a.stored then Holds(memory) else b.disk)
  }

  function After(b: Book, answers: seq<Answer>): Book {
    if answers == [] then b else Recorded(After(b, answers[..|answers| - 1]), answers[|answers| - 1])
  }

  /** The entry is that of an answer like `a`: both generations, or both refusals with one code. */
  predicate Matches(entry: LastAnswer, a: Answer) {
    match a.refusal
    case None => entry.answered && entry.refusal == None
    case Some(r) => !entry.answered && entry.refusal == Some(r.code)
  }

  /** The entry tells of `a` itself: whether it was a generation, its code, its message and its time. */
  predicate TellsOf(entry: LastAnswer, a: Answer) {
    && entry.at == a.at
    && match a.refusal
       case None => entry.answered && entry.refusal == None && entry.message == None
       case Some(r) => !entry.answered && entry.refusal == Some(r.code) && entry.message == r.message
  }

  class Gateway {
    var last: Record
    var disk: Disk

    ghost function Now(): Book
      reads this
    {
      Book(last, disk)
    }

    constructor (found: Disk)
      ensures Now() == Book(Loaded(found), found)
      ensures found.Holds? ==> last == found.record
      ensures !found.Holds? ==> last == map[]
    {
      disk := found;
      last := match found case Holds(record) => record case _ => map[];
    }

    /** Record what an alias was just answered. */
    method Record(a: Answer) returns (attempted: bool)
      modifies this
      ensures Now() == Recorded(old(Now()), a)
      ensures attempted <==> !(a.alias in old(last) && Matches(old(last)[a.alias], a))
      ensures !attempted ==> last == old(last) && disk == old(disk)
      ensures attempted ==> a.alias in last && TellsOf(last[a.alias], a) && last == old(last)[a.alias := last[a.alias]]
      ensures attempted ==> disk == if a.stored then Holds(last) else old(disk)
    {
      var answered := a.refusal.None?;
      var class' := if a.refusal.Some? then Some(a.refusal.value.code) else None;
      if a.alias in last && last[a.alias].answered == answered && last[a.alias].refusal == class' {
        return false;
      }
      var message := if a.refusal.Some? then a.refusal.value.message else None;
      last := last[a.alias := LastAnswer(answered, class', message, a.at)];
      Write(a.stored);
      return true;
    }

    /** Replace the record in one rename, or leave it. */
    method Write(stored: bool)
      modifies this`disk
      ensures disk == if stored then Holds(last) else old(disk)
    {
      if stored {
        disk := Holds(last);
      }
    }
  }

  // ---- The history, without the record ----

  /** The newest answer of `alias` before position `i`, or -1. */
  function Newest(answers: seq<Answer>, i: nat, alias: string): int
    requires i <= |answers|
  {
    if i == 0 then -1 else if answers[i - 1].alias == alias then i - 1 else Newest(answers, i - 1, alias)
  }

  /** Both answers are generations, or both are refusals with one code. */
  predicate SameClass(x: Answer, y: Answer) {
    match (x.refusal, y.refusal)
    case (None, None) => true
    case (Some(r), Some(q)) => r.code == q.code
    case _ => false
  }

  /** Answer `i` is of another class than the answer of its alias before it, or than the entry the process
      started with when it is the first. */
  predicate Changes(start: Record, answers: seq<Answer>, i: nat)
    requires i < |answers|
  {
    var before := Newest(answers, i, answers[i].alias);
    if 0 <= before < i then !SameClass(answers[before], answers[i])
    else !(answers[i].alias in start && Matches(start[answers[i].alias], answers[i]))
  }

  /** The newest change of `alias` before position `i`, or -1: where its current run of one class starts. */
  function RunStart(start: Record, answers: seq<Answer>, i: nat, alias: string): int
    requires i <= |answers|
  {
    if i == 0 then -1
    else if answers[i - 1].alias == alias && Changes(start, answers, i - 1) then i - 1
    else RunStart(start, answers, i - 1, alias)
  }

  lemma {:induction false} NewestIsNewest(answers: seq<Answer>, i: nat, alias: string)
    requires i <= |answers|
    ensures var n := Newest(answers, i, alias);
            && -1 <= n < i && (0 <= n ==> answers[n].alias == alias)
            && forall k :: n < k < i ==> answers[k].alias != alias
  {
    if i > 0 { NewestIsNewest(answers, i - 1, alias); }
  }

  predicate SameEntry(x: Record, y: Record, alias: string) {
    (alias in x <==> alias in y) && (alias in x ==> x[alias] == y[alias])
  }

  /** After a prefix of the answers, the record knows an alias by its newest answer there. */
  lemma {:induction false} MemoryKnowsNewest(b: Book, answers: seq<Answer>, i: nat, alias: string)
    requires i <= |answers|
    ensures var n := Newest(answers, i, alias);
            var memory := After(b, answers[..i]).memory;
            && -1 <= n < i
            && (0 <= n ==> answers[n].alias == alias && Known(memory, answers[n]))
            && (n < 0 ==> SameEntry(memory, b.memory, alias))
  {
    if i > 0 {
      assert answers[..i][..i - 1] == answers[..i - 1];
      MemoryKnowsNewest(b, answers, i - 1, alias);
    }
  }

  /** A write is attempted exactly when the alias's class changes, over every run of answers. */
  lemma WritesAtChanges(b: Book, answers: seq<Answer>, i: nat)
    requires i < |answers|
    ensures !Known(After(b, answers[..i]).memory, answers[i]) <==> Changes(b.memory, answers, i)
  {
    MemoryKnowsNewest(b, answers, i, answers[i].alias);
  }

  /** Each alias's entry is the first answer of its current unbroken run: its class, message and time. */
  lemma {:induction false} EntryIsRunStart(b: Book, answers: seq<Answer>, i: nat, alias: string)
    requires i <= |answers|
    ensures var s := RunStart(b.memory, answers, i, alias);
            var memory := After(b, answers[..i]).memory;
            && -1 <= s < i
            && (0 <= s ==> alias in memory && TellsOf(memory[alias], answers[s]))
            && (s < 0 ==> SameEntry(memory, b.memory, alias))
  {
    if i > 0 {
      assert answers[..i][..i - 1] == answers[..i - 1];
      EntryIsRunStart(b, answers, i - 1, alias);
      WritesAtChanges(b, answers, i - 1);
    }
  }

  /** The run is unbroken: every answer of the alias since its start has the class it started with. */
  lemma {:induction false} RunIsUnbroken(start: Record, answers: seq<Answer>, i: nat, alias: string, k: nat)
    requires k < i <= |answers| && answers[k].alias == alias
    requires RunStart(start, answers, i, alias) <= k
    ensures var s := RunStart(start, answers, i, alias);
            if 0 <= s < |answers| then answers[s].alias == alias && SameClass(answers[k], answers[s])
            else alias in start && Matches(start[alias], answers[k])
    decreases k
  {
    RunStartBound(start, answers, i, alias);
    if RunStart(start, answers, i, alias) < k {
      NoChangeSince(start, answers, i, alias, k);
      NewestIsNewest(answers, k, alias);
      var n := Newest(answers, k, alias);
      if 0 <= n {
        RunIsUnbroken(start, answers, i, alias, n);
      }
    }
  }

  lemma {:induction false} RunStartBound(start: Record, answers: seq<Answer>, i: nat, alias: string)
    requires i <= |answers|
    ensures var s := RunStart(start, answers, i, alias);
            -1 <= s < i && (0 <= s ==> answers[s].alias == alias && Changes(start, answers, s))
  {
    if i > 0 { RunStartBound(start, answers, i - 1, alias); }
  }

  lemma {:induction false} NoChangeSince(start: Record, answers: seq<Answer>, i: nat, alias: string, k: nat)
    requires k < i <= |answers| && answers[k].alias == alias && RunStart(start, answers, i, alias) < k
    ensures !Changes(start, answers, k)
  {
    if k < i - 1 { NoChangeSince(start, answers, i - 1, alias, k); }
  }

  // ---- The file ----

  lemma Prefixes(b: Book, answers: seq<Answer>, i: nat)
    requires 0 < i <= |answers|
    ensures After(b, answers[..i]) == Recorded(After(b, answers[..i - 1]), answers[i - 1])
  {
    assert answers[..i][..i - 1] == answers[..i - 1];
  }

  /** What one answer does to the file. */
  lemma FileStep(b: Book, answers: seq<Answer>, i: nat)
    requires i < |answers|
    ensures After(b, answers[..i + 1]).disk ==
              if Stores(b.memory, answers, i) then Holds(After(b, answers[..i + 1]).memory)
              else After(b, answers[..i]).disk
  {
    Prefixes(b, answers, i + 1);
    WritesAtChanges(b, answers, i);
  }

  /** Answers that change no class change nothing in memory. */
  lemma {:induction false} QuietAnswers(b: Book, answers: seq<Answer>, k: nat, i: nat)
    requires k <= i <= |answers|
    requires forall j :: k <= j < i ==> !Changes(b.memory, answers, j)
    ensures After(b, answers[..i]).memory == After(b, answers[..k]).memory
    decreases i - k
  {
    if k < i {
      QuietAnswers(b, answers, k, i - 1);
      Prefixes(b, answers, i);
      WritesAtChanges(b, answers, i - 1);
    }
  }

  /** Answer `i` changes its alias's class, and the write attempted for it succeeds. */
  predicate Stores(start: Record, answers: seq<Answer>, i: nat)
    requires i < |answers|
  {
    Changes(start, answers, i) && answers[i].stored
  }

  /** The file holds the whole record as it stood at the last attempted write that succeeded, or what was
      there at the start. */
  lemma {:induction false} FileIsEarlierRecord(b: Book, answers: seq<Answer>, i: nat) returns (k: int)
    requires i <= |answers|
    ensures -1 <= k < i
    ensures 0 <= k ==> Stores(b.memory, answers, k)
    ensures After(b, answers[..i]).disk == if 0 <= k then Holds(After(b, answers[..k + 1]).memory) else b.disk
    ensures forall j :: k < j < i ==> !Stores(b.memory, answers, j)
  {
    if i == 0 {
      k := -1;
    } else {
      FileStep(b, answers, i - 1);
      if Stores(b.memory, answers, i - 1) {
        k := i - 1;
      } else {
        k := FileIsEarlierRecord(b, answers, i - 1);
      }
    }
  }

  /** After a write that succeeded and no attempt since, the file is the current record. */
  lemma FileIsCurrent(b: Book, answers: seq<Answer>, k: nat)
    requires k < |answers| && Stores(b.memory, answers, k)
    requires forall j :: k < j < |answers| ==> !Changes(b.memory, answers, j)
    ensures After(b, answers).disk == Holds(After(b, answers).memory)
  {
    var last := FileIsEarlierRecord(b, answers, |answers|);
    assert last == k;
    QuietAnswers(b, answers, k + 1, |answers|);
    assert answers[..|answers|] == answers;
  }
}
