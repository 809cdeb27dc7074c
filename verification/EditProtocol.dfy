/**
 * Edits and originals arriving in any order: the persisted events, the live copy of one
 * message, and the tasks that save, read back and apply, interleaved step by step.
 */
module EditProtocol {
  import opened Wrappers
  import opened Sorting
  import opened EditHistory

  /** What an edit event says; an event id is a hash of it, so the id names one body. */
  datatype EditBody = EditBody(target: string, content: string, createdAt: nat, ms: nat, mine: bool, npub: Option<string>)

  /** A saved edit row: the first receipt of an event, in the chat that received it. */
  datatype EditRow = EditRow(id: string, chat: string, receivedAt: nat)

  const PRIVATE_DIRECT_MESSAGE: nat := 14
  const FILE_ATTACHMENT: nat := 15

  /** The message under consideration and the events there are. */
  datatype World = World(
    chat: string, isDirect: bool,
    id: string, content: string, at: nat, mine: bool, npub: Option<string>,
    rumorKind: Option<nat>, hasAttachments: bool, legacyRow: bool,
    bodies: string -> EditBody)
  {
    function Kind(): nat {
      if rumorKind.Some? then rumorKind.value else if hasAttachments then FILE_ATTACHMENT else PRIVATE_DIRECT_MESSAGE
    }

    function DmPeer(): Option<string> {
      if isDirect then Some(chat) else None
    }

    /** The millisecond tag counts only up to 999. */
    function StampMs(id: string): nat {
      bodies(id).createdAt * 1000 + if bodies(id).ms <= 999 then bodies(id).ms else 0
    }

    function Entry(id: string): EditEntry {
      EditEntry(id, bodies(id).content, StampMs(id))
    }

    function Original(): EditEntry {
      EditEntry(id, content, at)
    }

    /** The join the database evaluates: author, chat, signed time and first receipts. */
    predicate SqlAuthorizes(originalReceived: nat, r: EditRow) {
      var e := bodies(r.id);
      && e.target == id && Kind() in {PRIVATE_DIRECT_MESSAGE, FILE_ATTACHMENT} && !legacyRow
      && r.chat == chat
      && (if mine then e.mine
          else !e.mine && e.npub.Some? && (if npub.Some? then e.npub == npub else isDirect && e.npub == Some(chat)))
      && at / 1000 <= e.createdAt <= at / 1000 + EDIT_WINDOW_SECS
      && originalReceived > 0 && r.receivedAt > 0
      && r.receivedAt as int - originalReceived as int <= EDIT_WINDOW_SECS * 1000
    }

    /** The same decision as the history reconstruction makes it in memory. */
    predicate StoredEditIsAuthorized(originalReceived: nat, r: EditRow) {
      && Kind() in {PRIVATE_DIRECT_MESSAGE, FILE_ATTACHMENT} && r.chat == chat
      && EditReceivedInTime(originalReceived, r.receivedAt)
      && EditIsAuthorized(OfOriginal(mine, npub, DmPeer()), at, OfEdit(bodies(r.id).mine, bodies(r.id).npub), StampMs(r.id))
    }

    /** What the live message checks before an inbound edit touches it. */
    predicate LiveAccepts(id: string) {
      && rumorKind.None?
      && EditIsAuthorized(OfOriginal(mine, npub, DmPeer()), at, OfEdit(bodies(id).mine, bodies(id).npub), StampMs(id))
    }
  }

  /**
   * The database and the in-memory rules agree on every saved edit; those of other messages, and
   * of one with a legacy row, the database leaves out.
   */
  lemma SqlAgreesWithMemory(w: World, originalReceived: nat, r: EditRow)
    requires originalReceived <= MAX_RECEIPT && r.receivedAt <= MAX_RECEIPT
    ensures w.SqlAuthorizes(originalReceived, r)
      <==> w.bodies(r.id).target == w.id && !w.legacyRow && w.StoredEditIsAuthorized(originalReceived, r)
  {
  }

  /** An edit's time is its signed second, with the milliseconds its tag adds if they are under a thousand. */
  lemma StampIs(w: World, id: string)
    ensures var e := w.bodies(id);
      && (e.ms < 1000 ==> w.Entry(id) == EditEntry(id, e.content, 1000 * e.createdAt + e.ms))
      && (e.ms >= 1000 ==> w.Entry(id) == EditEntry(id, e.content, 1000 * e.createdAt))
  {
  }

  // ---- The state machine -----------------------------------------------------------------

  datatype Task =
    | SaveEdit(row: EditRow)             // receive_message_edit, before its insert
    | SaveOriginal(receivedAt: nat)      // persist_message_and_reconcile_edits, before its insert
    | ReadEdits(chat: string)            // reconcile, before its query
    | ApplyEdits(rows: seq<EditRow>)     // reconcile, holding what it read, before the state lock
    | SaveLocal(row: EditRow)            // edit_message, acknowledged, before its insert
    | CheckLocal(id: string)             // edit_message, before asking whether the saved edit is authorised
    | ApplyLocal(id: string)             // edit_message, before the state lock
    | Finished

  /**
   * `received` is the saved original's first receipt, `saved` the edit rows in insertion
   * order, `live` the edits handed to the live message if it is in memory.
   */
  datatype State = State(received: Option<nat>, saved: seq<EditRow>, live: Option<seq<EditEntry>>, tasks: seq<Task>)

  predicate IdTaken(w: World, s: State, id: string) {
    (s.received.Some? && id == w.id) || exists r :: r in s.saved && r.id == id
  }

  /** INSERT OR IGNORE on the event id: the first receipt stays. */
  function Save(w: World, s: State, row: EditRow): State {
    if IdTaken(w, s, row.id) then s else s.(saved := s.saved + [row])
  }

  predicate Authorized(w: World, s: State, r: EditRow) {
    s.received.Some? && w.SqlAuthorizes(s.received.value, r)
  }

  function AuthorizedRows(w: World, s: State, rows: seq<EditRow>): seq<EditRow> {
    if rows == [] then []
    else (if Authorized(w, s, rows[0]) then [rows[0]] else []) + AuthorizedRows(w, s, rows[1..])
  }

  function SignedTime(w: World): EditRow -> int {
    (r: EditRow) => w.bodies(r.id).createdAt
  }

  /** The query's answer: the authorised rows by signed second, those of one second as they were saved. */
  function ReadBack(w: World, s: State): seq<EditRow> {
    StableSort(AuthorizedRows(w, s, s.saved), SignedTime(w))
  }

  /** The entries a reconcile hands to the live message: those it accepts, in order. */
  function Handed(w: World, rows: seq<EditRow>): seq<EditEntry> {
    if rows == [] then []
    else
      var n := |rows| - 1;
      Handed(w, rows[..n]) + if w.LiveAccepts(rows[n].id) then [w.Entry(rows[n].id)] else []
  }

  /** One task takes its next step; every step is atomic, and any task may go next. */
  function Step(w: World, s: State, i: nat): State
    requires i < |s.tasks|
  {
    var Then := (s': State, t: Task) => s'.(tasks := s.tasks[i := t]);
    match s.tasks[i]
    case SaveEdit(row) =>
      Then(Save(w, s, row), if w.bodies(row.id).target == w.id then ReadEdits(row.chat) else Finished)
    case SaveOriginal(receivedAt) =>
      Then(if IdTaken(w, s, w.id) then s else s.(received := Some(receivedAt)), ReadEdits(w.chat))
    case ReadEdits(chat) =>
      if chat == w.chat then Then(s, ApplyEdits(ReadBack(w, s))) else Then(s, ApplyEdits([]))
    case ApplyEdits(rows) =>
      if s.live.Some? then Then(s.(live := Some(s.live.value + Handed(w, rows))), Finished) else Then(s, Finished)
    case SaveLocal(row) => Then(Save(w, s, row), CheckLocal(row.id))
    case CheckLocal(id) =>
      if exists r :: r in s.saved && r.id == id && Authorized(w, s, r) then Then(s, ApplyLocal(id)) else Then(s, Finished)
    case ApplyLocal(id) =>
      if s.live.Some? then Then(s.(live := Some(s.live.value + [w.Entry(id)])), Finished) else Then(s, Finished)
    case Finished => s
  }

  predicate Starts(t: Task) {
    t.SaveEdit? || t.SaveOriginal? || t.ReadEdits? || t.SaveLocal?
  }

  ghost predicate Next(w: World, s: State, s': State) {
    || (exists t :: Starts(t) && s' == s.(tasks := s.tasks + [t]))
    || (s.live.None? && s' == s.(live := Some([])))
    || (exists i: nat :: i < |s.tasks| && s' == Step(w, s, i))
  }

  ghost predicate Run(w: World, states: seq<State>) {
    && states != [] && states[0] == State(None, [], None, [])
    && forall i | 0 <= i < |states| - 1 :: Next(w, states[i], states[i + 1])
  }

  // ---- Safety ----------------------------------------------------------------------------

  ghost predicate SavedAndAuthorized(w: World, s: State, id: string) {
    exists r :: r in s.saved && r.id == id && Authorized(w, s, r)
  }

  ghost predicate TaskSafe(w: World, s: State, t: Task) {
    match t
    case ApplyEdits(rows) => forall r | r in rows :: r in s.saved && Authorized(w, s, r)
    case ApplyLocal(id) => SavedAndAuthorized(w, s, id)
    case _ => true
  }

  ghost predicate Safe(w: World, s: State) {
    && (forall i, j | 0 <= i < j < |s.saved| :: s.saved[i].id != s.saved[j].id)
    && (s.received.Some? ==> forall r | r in s.saved :: r.id != w.id)
    && (forall i | 0 <= i < |s.tasks| :: TaskSafe(w, s, s.tasks[i]))
    && (s.live.Some? ==> forall e | e in s.live.value :: e == w.Entry(e.eventId) && SavedAndAuthorized(w, s, e.eventId))
  }

  lemma {:induction false} AuthorizedRowsAre(w: World, s: State, rows: seq<EditRow>)
    ensures forall r :: r in AuthorizedRows(w, s, rows) <==> r in rows && Authorized(w, s, r)
  {
    if rows == [] {
    } else {
      AuthorizedRowsAre(w, s, rows[1..]);
    }
  }

  /** Reading back yields exactly the saved rows that are authorised, oldest signature first. */
  lemma ReadBackIs(w: World, s: State)
    ensures forall r :: r in ReadBack(w, s) <==> r in s.saved && Authorized(w, s, r)
    ensures SortedBy(ReadBack(w, s), SignedTime(w))
  {
    var rows := AuthorizedRows(w, s, s.saved);
    AuthorizedRowsAre(w, s, s.saved);
    SortSorts(rows, SignedTime(w));
    forall r
      ensures r in ReadBack(w, s) <==> r in rows
    {
      SortedHasSameElements(rows, SignedTime(w), r);
    }
  }

  lemma {:induction false} HandedAre(w: World, rows: seq<EditRow>)
    ensures forall e :: e in Handed(w, rows) <==> exists r :: r in rows && w.LiveAccepts(r.id) && e == w.Entry(r.id)
  {
    if rows == [] {
    } else {
      var n := |rows| - 1;
      HandedAre(w, rows[..n]);
      forall e
        ensures e in Handed(w, rows) <==> exists r :: r in rows && w.LiveAccepts(r.id) && e == w.Entry(r.id)
      {
        if r :| r in rows && w.LiveAccepts(r.id) && e == w.Entry(r.id) {
          assert r == rows[n] || r in rows[..n];
        }
      }
    }
  }

  /** Rows are never removed and the receipt never changes, so authorisation is permanent. */
  ghost predicate Grows(s: State, s': State) {
    && (s.received.Some? ==> s'.received == s.received)
    && (forall r | r in s.saved :: r in s'.saved)
  }

  lemma GrowingKeepsAuthorized(w: World, s: State, s': State)
    requires Grows(s, s')
    ensures forall t | TaskSafe(w, s, t) :: TaskSafe(w, s', t)
    ensures forall id | SavedAndAuthorized(w, s, id) :: SavedAndAuthorized(w, s', id)
  {
  }

  lemma {:induction false} NextKeepsSafe(w: World, s: State, s': State)
    requires Safe(w, s) && Next(w, s, s')
    ensures Safe(w, s') && Grows(s, s')
  {
    if i: nat :| i < |s.tasks| && s' == Step(w, s, i) {
      StepKeepsSafe(w, s, i);
    }
  }

  lemma StepKeepsSafe(w: World, s: State, i: nat)
    requires Safe(w, s) && i < |s.tasks|
    ensures Safe(w, Step(w, s, i)) && Grows(s, Step(w, s, i))
  {
    var s' := Step(w, s, i);
    GrowingKeepsAuthorized(w, s, s');
    assert TaskSafe(w, s, s.tasks[i]);
    match s.tasks[i]
    case ReadEdits(_) =>
      ReadBackIs(w, s);
    case ApplyEdits(rows) =>
      HandedAre(w, rows);
      if s.live.Some? {
        forall e | e in s'.live.value
          ensures e == w.Entry(e.eventId) && SavedAndAuthorized(w, s', e.eventId)
        {
          assert e in s.live.value || e in Handed(w, rows);
        }
      }
    case _ =>
  }

  lemma {:induction false} RunIsSafe(w: World, states: seq<State>, n: nat)
    requires Run(w, states) && n < |states|
    ensures Safe(w, states[n])
  {
    if n == 0 {
    } else {
      RunIsSafe(w, states, n - 1);
      NextKeepsSafe(w, states[n - 1], states[n]);
    }
  }

  /** In every interleaving, every edit in the live history is a saved, authorised edit of the message. */
  lemma EveryAppliedEditIsAuthorized(w: World, states: seq<State>, n: nat, e: EditEntry)
    requires Run(w, states) && n < |states| && states[n].live.Some?
    requires e in Accepted(w.id, states[n].live.value)
    ensures exists r :: r in states[n].saved && Authorized(w, states[n], r) && e == w.Entry(r.id)
  {
    RunIsSafe(w, states, n);
    AcceptedAreFirstDeliveries(w.id, states[n].live.value);
    var r :| r in states[n].saved && r.id == e.eventId && Authorized(w, states[n], r);
    assert e == w.Entry(r.id);
  }

  // ---- Completeness ----------------------------------------------------------------------

  /** An edit the database authorises is accepted live exactly when the message is not a structured one. */
  lemma AuthorizedIsAccepted(w: World, originalReceived: nat, r: EditRow)
    requires w.SqlAuthorizes(originalReceived, r)
    ensures w.LiveAccepts(r.id) <==> w.rumorKind.None?
  {
  }

  /** A structured message keeps its own kind, which is not that of a text or file message. */
  predicate OrdinaryKind(w: World) {
    w.rumorKind.Some? ==> w.rumorKind.value !in {PRIVATE_DIRECT_MESSAGE, FILE_ATTACHMENT}
  }

  /** The task will still bring row r to the live message. */
  predicate WillApply(w: World, t: Task, r: EditRow) {
    match t
    case ReadEdits(chat) => chat == w.chat
    case ApplyEdits(rows) => r in rows
    case CheckLocal(id) => id == r.id
    case ApplyLocal(id) => id == r.id
    case _ => false
  }

  /** Every authorised row has reached the live message or is in the hands of a task. */
  ghost predicate Covered(w: World, s: State) {
    forall r | r in s.saved && Authorized(w, s, r) ::
      || (s.live.Some? && w.Entry(r.id) in s.live.value)
      || exists i :: 0 <= i < |s.tasks| && WillApply(w, s.tasks[i], r)
  }

  /** The original is placed in memory before it is saved. */
  predicate PlacedFirst(s: State) {
    s.received.Some? ==> s.live.Some?
  }

  lemma StepKeepsCovered(w: World, s: State, i: nat, r: EditRow)
    requires OrdinaryKind(w) && Safe(w, s) && Covered(w, s) && PlacedFirst(s) && i < |s.tasks|
    requires var s' := Step(w, s, i); r in s'.saved && Authorized(w, s', r)
    ensures var s' := Step(w, s, i);
      || (s'.live.Some? && w.Entry(r.id) in s'.live.value)
      || exists j :: 0 <= j < |s'.tasks| && WillApply(w, s'.tasks[j], r)
  {
    var s' := Step(w, s, i);
    if r in s.saved && Authorized(w, s, r) && !(s.live.Some? && w.Entry(r.id) in s.live.value) {
      var j :| 0 <= j < |s.tasks| && WillApply(w, s.tasks[j], r);
      if j != i {
        assert WillApply(w, s'.tasks[j], r);
        return;
      }
      match s.tasks[i]
      case ReadEdits(_) =>
        ReadBackIs(w, s);
        assert WillApply(w, s'.tasks[i], r);
      case ApplyEdits(rows) =>
        AuthorizedIsAccepted(w, s.received.value, r);
        HandedAre(w, rows);
        assert w.Entry(r.id) in Handed(w, rows);
      case CheckLocal(_) =>
        assert WillApply(w, s'.tasks[i], r);
      case ApplyLocal(_) =>
        assert s'.live.value[|s.live.value|] == w.Entry(r.id);
    } else if !(r in s.saved && Authorized(w, s, r)) {
      assert WillApply(w, s'.tasks[i], r);
    }
  }

  lemma NextKeepsCovered(w: World, s: State, s': State)
    requires OrdinaryKind(w) && Safe(w, s) && Covered(w, s) && PlacedFirst(s) && Next(w, s, s')
    ensures Covered(w, s')
  {
    forall r | r in s'.saved && Authorized(w, s', r)
      ensures (s'.live.Some? && w.Entry(r.id) in s'.live.value) || exists j :: 0 <= j < |s'.tasks| && WillApply(w, s'.tasks[j], r)
    {
      if i: nat :| i < |s.tasks| && s' == Step(w, s, i) {
        StepKeepsCovered(w, s, i, r);
      } else if !(s.live.Some? && w.Entry(r.id) in s.live.value) {
        assert r in s.saved && Authorized(w, s, r);
        var j :| 0 <= j < |s.tasks| && WillApply(w, s.tasks[j], r);
        assert s'.tasks[j] == s.tasks[j];
      }
    }
  }

  lemma StartIsCovered(w: World)
    ensures Covered(w, State(None, [], None, []))
  {
  }

  lemma {:induction false} RunIsCovered(w: World, states: seq<State>, n: nat)
    requires OrdinaryKind(w) && Run(w, states) && n < |states|
    requires forall i | 0 <= i <= n :: PlacedFirst(states[i])
    ensures Covered(w, states[n])
  {
    StartIsCovered(w);
    hide Step, Covered, Safe, Next;
    if n == 0 {
    } else {
      RunIsCovered(w, states, n - 1);
      RunIsSafe(w, states, n - 1);
      NextKeepsCovered(w, states[n - 1], states[n]);
    }
  }

  /** The edits a state's rows authorise. */
  ghost predicate IsAuthorizedEdit(w: World, s: State, e: EditEntry) {
    exists r :: r in s.saved && Authorized(w, s, r) && e == w.Entry(r.id)
  }

  /** The original is saved and in memory, and every task has finished. */
  predicate Settled(s: State) {
    s.received.Some? && s.live.Some? && forall t | t in s.tasks :: t.Finished?
  }

  /**
   * Once every task has finished, the live history holds exactly the saved authorised edits,
   * each once, whichever of the original and its edits came first and however tasks interleaved.
   */
  lemma FinishedRunAppliesEachEditOnce(w: World, states: seq<State>)
    requires OrdinaryKind(w) && Run(w, states) && forall i | 0 <= i < |states| :: PlacedFirst(states[i])
    requires Settled(states[|states| - 1])
    ensures var last := states[|states| - 1];
      var applied := Accepted(w.id, last.live.value);
      && (forall e :: e in applied <==> IsAuthorizedEdit(w, last, e))
      && (forall i, j | 0 <= i < j < |applied| :: applied[i].eventId != applied[j].eventId)
  {
    var n := |states| - 1;
    var last := states[n];
    RunIsSafe(w, states, n);
    RunIsCovered(w, states, n);
    var delivered := last.live.value;
    SafeDeliveries(w, last);
    AllAccepted(w.id, delivered);
    AcceptedAreFirstDeliveries(w.id, delivered);
    forall i, r | 0 <= i < |last.tasks|
      ensures !WillApply(w, last.tasks[i], r)
    {
      assert last.tasks[i] in last.tasks;
    }
    forall e | e in delivered
      ensures IsAuthorizedEdit(w, last, e)
    {
      var r :| r in last.saved && r.id == e.eventId && Authorized(w, last, r);
    }
  }

  lemma SafeDeliveries(w: World, s: State)
    requires Safe(w, s) && s.live.Some?
    ensures SameEdits(s.live.value, s.live.value) && !HasId(s.live.value, w.id)
  {
  }

  /** Two finished runs that authorise the same edits, at distinct times, show the same history and content. */
  lemma FinishedRunsAgree(w: World, a: seq<State>, b: seq<State>)
    requires OrdinaryKind(w) && Run(w, a) && Run(w, b)
    requires (forall i | 0 <= i < |a| :: PlacedFirst(a[i])) && (forall i | 0 <= i < |b| :: PlacedFirst(b[i]))
    requires var x, y := a[|a| - 1], b[|b| - 1];
      && Settled(x) && Settled(y)
      && (forall e :: IsAuthorizedEdit(w, x, e) <==> IsAuthorizedEdit(w, y, e))
      && DistinctTimes(x.live.value)
    ensures HistoryOf(w.Original(), a[|a| - 1].live.value) == HistoryOf(w.Original(), b[|b| - 1].live.value)
    ensures ContentOf(w.Original(), a[|a| - 1].live.value) == ContentOf(w.Original(), b[|b| - 1].live.value)
  {
    var x, y := a[|a| - 1], b[|b| - 1];
    RunIsSafe(w, a, |a| - 1);
    RunIsSafe(w, b, |b| - 1);
    SafeDeliveries(w, x);
    SafeDeliveries(w, y);
    AllAccepted(w.id, x.live.value);
    AllAccepted(w.id, y.live.value);
    FinishedRunAppliesEachEditOnce(w, a);
    FinishedRunAppliesEachEditOnce(w, b);
    forall e
      ensures e in x.live.value <==> e in y.live.value
    {
      assert IsAuthorizedEdit(w, x, e) <==> IsAuthorizedEdit(w, y, e);
    }
    OrderDoesNotMatter(w.Original(), x.live.value, y.live.value);
  }

  // ---- Intake ----------------------------------------------------------------------------

  /** The task is about to save an edit with this id. */
  predicate TakesIn(t: Task, id: string) {
    (t.SaveEdit? || t.SaveLocal?) && t.row.id == id
  }

  /** Task i takes a step between states k and k + 1. */
  ghost predicate Moves(states: seq<State>, k: nat, i: nat)
    requires k + 1 < |states| && i < |states[k].tasks|
  {
    i < |states[k + 1].tasks| && states[k + 1].tasks[i] != states[k].tasks[i]
  }

  /** No task has saved an edit with this id before state n. */
  ghost predicate NotTakenBefore(states: seq<State>, id: string, n: nat)
    requires n <= |states| - 1
  {
    forall k, i | 0 <= k < n && 0 <= i < |states[k].tasks| && TakesIn(states[k].tasks[i], id) :: !Moves(states, k, i)
  }

  ghost predicate NotReceivedBefore(states: seq<State>, n: nat)
    requires n <= |states| - 1
  {
    forall k, i | 0 <= k < n && 0 <= i < |states[k].tasks| && states[k].tasks[i].SaveOriginal? :: !Moves(states, k, i)
  }

  /** A step changes one task at most, by that task's step; tasks are only ever added. */
  lemma OneTaskSteps(w: World, s: State, s': State)
    requires Next(w, s, s')
    ensures |s.tasks| <= |s'.tasks|
    ensures forall i | 0 <= i < |s.tasks| && s'.tasks[i] != s.tasks[i] :: s' == Step(w, s, i)
  {
    hide ReadBack, Handed;
  }

  /** Without a task that saves an edit with this id, a step saves none. */
  lemma NoneSavedUntaken(w: World, s: State, s': State, id: string)
    requires Next(w, s, s') && forall r | r in s.saved :: r.id != id
    requires forall i | 0 <= i < |s.tasks| && i < |s'.tasks| && TakesIn(s.tasks[i], id) :: s'.tasks[i] == s.tasks[i]
    ensures forall r | r in s'.saved :: r.id != id
  {
    hide ReadBack, Handed;
    forall i: nat | i < |s.tasks| && !s.tasks[i].Finished?
      ensures Step(w, s, i).tasks[i] != s.tasks[i]
    {
    }
  }

  lemma NoneReceivedUntaken(w: World, s: State, s': State)
    requires Next(w, s, s') && s.received.None?
    requires forall i | 0 <= i < |s.tasks| && i < |s'.tasks| && s.tasks[i].SaveOriginal? :: s'.tasks[i] == s.tasks[i]
    ensures s'.received.None?
  {
    hide ReadBack, Handed;
    forall i: nat | i < |s.tasks| && !s.tasks[i].Finished?
      ensures Step(w, s, i).tasks[i] != s.tasks[i]
    {
    }
  }

  lemma OnlyOneMoves(w: World, states: seq<State>, k: nat)
    requires Run(w, states) && k + 1 < |states|
    ensures |states[k].tasks| <= |states[k + 1].tasks|
    ensures forall i | 0 <= i < |states[k].tasks| :: Moves(states, k, i) ==> states[k + 1] == Step(w, states[k], i)
  {
    hide Step, Next;
    OneTaskSteps(w, states[k], states[k + 1]);
  }

  /** An edit is among the saved ones only once a task has saved it. */
  lemma {:induction false} SavedWasTaken(w: World, states: seq<State>, id: string, n: nat)
    requires Run(w, states) && n < |states| && NotTakenBefore(states, id, n)
    ensures forall r | r in states[n].saved :: r.id != id
  {
    hide Step, Next;
    if n == 0 {
    } else {
      assert NotTakenBefore(states, id, n - 1);
      SavedWasTaken(w, states, id, n - 1);
      var k := n - 1;
      var s := states[k];
      forall i | 0 <= i < |s.tasks| && TakesIn(s.tasks[i], id)
        ensures !Moves(states, k, i)
      {
      }
      NoneSavedUntaken(w, s, states[n], id);
    }
  }

  lemma {:induction false} ReceivedWasTaken(w: World, states: seq<State>, n: nat)
    requires Run(w, states) && n < |states| && NotReceivedBefore(states, n)
    ensures states[n].received.None?
  {
    hide Step, Next;
    if n == 0 {
    } else {
      assert NotReceivedBefore(states, n - 1);
      ReceivedWasTaken(w, states, n - 1);
      var k := n - 1;
      var s := states[k];
      forall i | 0 <= i < |s.tasks| && s.tasks[i].SaveOriginal?
        ensures !Moves(states, k, i)
      {
      }
      NoneReceivedUntaken(w, s, states[n]);
    }
  }

  lemma {:induction false} RunGrows(w: World, states: seq<State>, m: nat, n: nat)
    requires Run(w, states) && m <= n < |states|
    ensures Grows(states[m], states[n])
    decreases n
  {
    hide Step, Next, Safe;
    if m == n {
    } else {
      RunGrows(w, states, m, n - 1);
      RunIsSafe(w, states, n - 1);
      NextKeepsSafe(w, states[n - 1], states[n]);
    }
  }

  /**
   * The first task to save an edit leaves its row among the saved ones for good, with its chat
   * and its receipt, and no other row ever carries that id.
   */
  lemma FirstIntakeIsKept(w: World, states: seq<State>, k: nat, i: nat, n: nat)
    requires Run(w, states) && k < n < |states| && i < |states[k].tasks| && Moves(states, k, i)
    requires states[k].tasks[i].SaveEdit? || states[k].tasks[i].SaveLocal?
    requires states[k].tasks[i].row.id != w.id && NotTakenBefore(states, states[k].tasks[i].row.id, k)
    ensures states[k].tasks[i].row in states[n].saved
    ensures forall r | r in states[n].saved && r.id == states[k].tasks[i].row.id :: r == states[k].tasks[i].row
  {
    var row := states[k].tasks[i].row;
    SavedWasTaken(w, states, row.id, k);
    OnlyOneMoves(w, states, k);
    assert states[k + 1].saved == states[k].saved + [row];
    RunGrows(w, states, k + 1, n);
    RunIsSafe(w, states, n);
    hide Moves, Run, Step, NotTakenBefore;
  }

  /** The first task to save the original fixes its receipt for good, unless an edit already carries its id. */
  lemma FirstReceiptIsKept(w: World, states: seq<State>, k: nat, i: nat, n: nat)
    requires Run(w, states) && k < n < |states| && i < |states[k].tasks| && Moves(states, k, i)
    requires states[k].tasks[i].SaveOriginal? && NotReceivedBefore(states, k)
    requires forall r | r in states[k].saved :: r.id != w.id
    ensures states[n].received == Some(states[k].tasks[i].receivedAt)
  {
    ReceivedWasTaken(w, states, k);
    OnlyOneMoves(w, states, k);
    assert states[k + 1].received == Some(states[k].tasks[i].receivedAt);
    RunGrows(w, states, k + 1, n);
  }

  /** A task that waits to save an edit, and has finished by state n, saved it at some step between. */
  lemma {:induction false} WaitingTaskMoves(w: World, states: seq<State>, k: nat, i: nat, n: nat) returns (m: nat)
    requires Run(w, states) && k <= n < |states| && i < |states[k].tasks| && !states[k].tasks[i].Finished?
    requires i < |states[n].tasks| ==> states[n].tasks[i] != states[k].tasks[i]
    ensures k <= m < n && i < |states[m].tasks| && states[m].tasks[i] == states[k].tasks[i] && Moves(states, m, i)
    decreases n - k
  {
    hide Step, Next, Run;
    TasksStay(w, states, k, n);
    OnlyOneMoves(w, states, k);
    if states[k + 1].tasks[i] != states[k].tasks[i] {
      m := k;
    } else {
      m := WaitingTaskMoves(w, states, k + 1, i, n);
    }
  }

  lemma {:induction false} TasksStay(w: World, states: seq<State>, k: nat, n: nat)
    requires Run(w, states) && k <= n < |states|
    ensures |states[k].tasks| <= |states[n].tasks|
    decreases n
  {
    hide Step, Next;
    if k == n {
    } else {
      TasksStay(w, states, k, n - 1);
      OnlyOneMoves(w, states, n - 1);
    }
  }

  /** Of all tasks that save an edit with some id before state n, one is first. */
  lemma {:induction false} FirstIntake(w: World, states: seq<State>, id: string, n: nat) returns (k: nat, i: nat)
    requires Run(w, states) && n <= |states| - 1 && !NotTakenBefore(states, id, n)
    ensures k < n && i < |states[k].tasks| && TakesIn(states[k].tasks[i], id) && Moves(states, k, i) && NotTakenBefore(states, id, k)
  {
    if NotTakenBefore(states, id, n - 1) {
      k := n - 1;
      i :| 0 <= i < |states[k].tasks| && TakesIn(states[k].tasks[i], id) && Moves(states, k, i);
    } else {
      k, i := FirstIntake(w, states, id, n - 1);
    }
  }

  /**
   * Nothing taken in is lost. In a finished run, whichever edit ids its tasks were to save, the
   * first row to be saved under each is saved still; and if it satisfies the database's rule
   * against the first receipt of the original, its edit is in the live history.
   */
  lemma EveryIntakeIsKeptAndApplied(w: World, states: seq<State>, k: nat, i: nat) returns (first: nat, task: nat)
    requires OrdinaryKind(w) && Run(w, states) && forall j | 0 <= j < |states| :: PlacedFirst(states[j])
    requires Settled(states[|states| - 1])
    requires k < |states| && i < |states[k].tasks| && (states[k].tasks[i].SaveEdit? || states[k].tasks[i].SaveLocal?)
    requires states[k].tasks[i].row.id != w.id
    ensures first < |states| - 1 && task < |states[first].tasks|
    ensures TakesIn(states[first].tasks[task], states[k].tasks[i].row.id) && Moves(states, first, task)
    ensures NotTakenBefore(states, states[k].tasks[i].row.id, first)
    ensures var last, row := states[|states| - 1], states[first].tasks[task].row;
      && row in last.saved && (forall r | r in last.saved && r.id == row.id :: r == row)
      && (w.SqlAuthorizes(last.received.value, row) ==> w.Entry(row.id) in Accepted(w.id, last.live.value))
  {
    var n := |states| - 1;
    var id := states[k].tasks[i].row.id;
    TasksStay(w, states, k, n);
    assert states[n].tasks[i] in states[n].tasks;
    var m := WaitingTaskMoves(w, states, k, i, n);
    assert TakesIn(states[m].tasks[i], id);
    first, task := FirstIntake(w, states, id, n);
    FirstIntakeIsKept(w, states, first, task, n);
    FinishedRunAppliesEachEditOnce(w, states);
    var last, row := states[n], states[first].tasks[task].row;
    if w.SqlAuthorizes(last.received.value, row) {
      assert IsAuthorizedEdit(w, last, w.Entry(row.id));
    }
  }

  // ---- Reconciliation on the live chat ---------------------------------------------------

  /** A saved edit as reconciliation reads it back. */
  datatype StoredEdit = StoredEdit(id: string, content: string, mine: bool, npub: Option<string>, editedAt: nat)

  /** The deliveries a reconcile makes to message m: its edits that m accepts, in order. */
  ghost function DeliveredTo(m: Message, dmPeer: Option<string>, edits: seq<StoredEdit>): seq<EditEntry> {
    if edits == [] then []
    else
      var n := |edits| - 1;
      var e := edits[n];
      DeliveredTo(m, dmPeer, edits[..n])
      + if m.AcceptsEdit(dmPeer, OfEdit(e.mine, e.npub), e.editedAt) then [EditEntry(e.id, e.content, e.editedAt)] else []
  }

  class LiveChat {
    const id: string
    const isDirect: bool
    var messages: seq<Message>

    constructor (id: string, isDirect: bool)
      ensures this.id == id && this.isDirect == isDirect && messages == []
    {
      this.id, this.isDirect, this.messages := id, isDirect, [];
    }

    ghost predicate Valid()
      reads this, messages
    {
      && (forall m | m in messages :: m.Valid())
      && forall i, j | 0 <= i < j < |messages| :: messages[i] != messages[j] && messages[i].id != messages[j].id
    }

    function DmPeer(): Option<string> {
      if isDirect then Some(id) else None
    }

    /** The position of the message with this id, or the length if there is none. */
    method Find(messageId: string) returns (at: nat)
      ensures at <= |messages| && (at < |messages| ==> messages[at].id == messageId)
      ensures forall i | 0 <= i < at :: messages[i].id != messageId
    {
      at := 0;
      while at < |messages| && messages[at].id != messageId
        invariant at <= |messages| && forall i | 0 <= i < at :: messages[i].id != messageId
      {
        at := at + 1;
      }
    }

    /** Hands one edit to the message at a position, if there is one and it accepts it. */
    method Offer(at: nat, e: StoredEdit) returns (applied: bool)
      requires Valid() && at <= |messages|
      modifies messages
      ensures Valid()
      ensures forall i | 0 <= i < |messages| ::
        messages[i].delivered == old(messages[i].delivered)
          + if i == at && messages[i].AcceptsEdit(DmPeer(), OfEdit(e.mine, e.npub), e.editedAt)
          then [EditEntry(e.id, e.content, e.editedAt)] else []
      ensures applied <==>
        at < |messages| && Accepted(messages[at].id, messages[at].delivered) != Accepted(messages[at].id, old(messages[at].delivered))
    {
      applied := false;
      if at < |messages| && messages[at].AcceptsEdit(DmPeer(), OfEdit(e.mine, e.npub), e.editedAt) {
        applied := messages[at].ApplyEdit(e.id, e.content, e.editedAt);
      }
    }

    /** Applies what was read back to the target, and only to it; repeats change nothing. */
    method ReconcileMessageEdits(messageId: string, edits: seq<StoredEdit>) returns (changed: bool)
      requires Valid()
      modifies messages
      ensures Valid()
      ensures forall i | 0 <= i < |messages| ::
        messages[i].delivered == old(messages[i].delivered)
          + if messages[i].id == messageId then DeliveredTo(messages[i], DmPeer(), edits) else []
      ensures changed <==> exists i ::
        0 <= i < |messages| && Accepted(messages[i].id, messages[i].delivered) != Accepted(messages[i].id, old(messages[i].delivered))
    {
      hide Accepted;
      changed := false;
      var at := Find(messageId);
      var k := 0;
      while k < |edits|
        invariant 0 <= k <= |edits| && Valid()
        invariant forall i | 0 <= i < |messages| ::
          messages[i].delivered == old(messages[i].delivered) + if i == at then DeliveredTo(messages[i], DmPeer(), edits[..k]) else []
        invariant changed <==>
          at < |messages| && Accepted(messages[at].id, messages[at].delivered) != Accepted(messages[at].id, old(messages[at].delivered))
      {
        assert edits[..k + 1][..k] == edits[..k];
        ghost var before := if at < |messages| then messages[at].delivered else [];
        var applied := Offer(at, edits[k]);
        if at < |messages| {
          AcceptedOnlyGrows(messages[at].id, old(messages[at].delivered), before, messages[at].delivered);
        }
        changed := changed || applied;
        k := k + 1;
      }
      assert edits[..|edits|] == edits;
    }
  }

  /** The state machine hands the live message exactly what `ReconcileMessageEdits` delivers to it. */
  lemma {:induction false} HandedIsDelivered(w: World, m: Message, rows: seq<EditRow>, edits: seq<StoredEdit>)
    requires m.mine == w.mine && m.npub == w.npub && m.rumorKind == w.rumorKind && m.at == w.at
    requires |edits| == |rows| && forall i | 0 <= i < |rows| ::
      edits[i] == StoredEdit(rows[i].id, w.bodies(rows[i].id).content, w.bodies(rows[i].id).mine,
        w.bodies(rows[i].id).npub, w.StampMs(rows[i].id))
    ensures DeliveredTo(m, w.DmPeer(), edits) == Handed(w, rows)
  {
    if rows == [] {
    } else {
      var n := |rows| - 1;
      HandedIsDelivered(w, m, rows[..n], edits[..n]);
    }
  }

  lemma AcceptedOnlyGrows(own: string, first: seq<EditEntry>, before: seq<EditEntry>, after: seq<EditEntry>)
    requires first <= before <= after
    ensures Accepted(own, after) == Accepted(own, first) <==>
      Accepted(own, after) == Accepted(own, before) && Accepted(own, before) == Accepted(own, first)
  {
    AcceptedIsMonotone(own, first, before);
    AcceptedIsMonotone(own, before, after);
  }
}
