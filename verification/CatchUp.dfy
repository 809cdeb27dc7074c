/**
 * The catch-up index: references to events still wanting attention, one row per source
 * event, and its agreement with each chat's read watermark.
 */
module CatchUp {
  import opened Wrappers
  import opened Timeline

  datatype Kind = Mention | DirectMessage | ActionPrompt | Welcome | EventReminder

  datatype Entry = Entry(id: string, kind: Kind, chat: string, createdAt: int, resolvedAt: Option<int>)

  /** The table, keyed by source event id as its unique index is. */
  type Table = map<string, Entry>

  predicate MessageShaped(k: Kind) {
    k.Mention? || k.DirectMessage?
  }

  function OpenSources(t: Table): set<string> {
    set s | s in t && t[s].resolvedAt.None?
  }

  function Resolve(t: Table, which: set<string>, now: int): Table {
    map s | s in t :: if s in which && t[s].resolvedAt.None? then t[s].(resolvedAt := Some(now)) else t[s]
  }

  datatype Op =
    | Insert(source: string, kind: Kind, chat: string, id: string)
    | RecordOrReopen(source: string, chat: string, id: string)
    | ResolveOne(source: string)
    | ResolveChat(chat: string)
    | ResolveReminders(event: string)
    | DeleteChats(chats: set<string>)

  predicate HasPrefix(s: string, prefix: string) {
    |prefix| <= |s| && s[..|prefix|] == prefix
  }

  /** The open entries an operation resolves. */
  function Resolved(t: Table, op: Op): set<string> {
    match op
    case ResolveOne(source) => {source}
    case ResolveChat(chat) => set s | s in t && t[s].chat == chat && MessageShaped(t[s].kind)
    case ResolveReminders(event) => set s | s in t && t[s].kind.EventReminder? && HasPrefix(s, event + ":")
    case _ => {}
  }

  function Apply(t: Table, op: Op, now: int): Table {
    match op
    case Insert(source, kind, chat, id) =>
      if source in t then t else t[source := Entry(id, kind, chat, now, None)]
    case RecordOrReopen(source, chat, id) =>
      if source in t then t[source := t[source].(resolvedAt := None)]
      else t[source := Entry(id, ActionPrompt, chat, now, None)]
    case DeleteChats(chats) => map s | s in t && t[s].chat !in chats :: t[s]
    case _ => Resolve(t, Resolved(t, op), now)
  }

  /** What an operation makes of one source's row. */
  lemma OpMeans(t: Table, op: Op, now: int, s: string)
    ensures var t' := Apply(t, op, now);
      match op
      case Insert(source, kind, chat, id) =>
        (s in t' <==> s in t || s == source) && (s in t' ==> t'[s] == if s in t then t[s] else Entry(id, kind, chat, now, None))
      case RecordOrReopen(source, chat, id) =>
        && (s in t' <==> s in t || s == source)
        && (s in t && s != source ==> t'[s] == t[s])
        && (s == source ==>
              t'[s].resolvedAt == None
              && if s in t then t'[s].(resolvedAt := t[s].resolvedAt) == t[s] else t'[s] == Entry(id, ActionPrompt, chat, now, None))
      case ResolveOne(source) =>
        (s in t' <==> s in t) && (s in t ==> t'[s] == if s == source && t[s].resolvedAt == None then t[s].(resolvedAt := Some(now)) else t[s])
      case ResolveChat(chat) =>
        && (s in t' <==> s in t)
        && (s in t ==>
              t'[s] == if t[s].chat == chat && (t[s].kind == Mention || t[s].kind == DirectMessage) && t[s].resolvedAt == None
              then t[s].(resolvedAt := Some(now)) else t[s])
      case ResolveReminders(event) =>
        && (s in t' <==> s in t)
        && (s in t ==>
              t'[s] == if t[s].kind == EventReminder && event + ":" <= s && t[s].resolvedAt == None then t[s].(resolvedAt := Some(now)) else t[s])
      case DeleteChats(chats) => (s in t' <==> s in t && t[s].chat !in chats) && (s in t' ==> t'[s] == t[s])
  {
  }

  // ---- Every run -------------------------------------------------------------------------

  ghost predicate Run(tables: seq<Table>, ops: seq<Op>, times: seq<int>) {
    && |tables| == |ops| + 1 == |times| + 1
    && forall i | 0 <= i < |ops| :: tables[i + 1] == Apply(tables[i], ops[i], times[i])
  }

  /** While a row lives, its identity, kind, chat and creation time stay what they were. */
  lemma {:induction false} EntryKeepsIdentity(tables: seq<Table>, ops: seq<Op>, times: seq<int>, s: string, i: nat, j: nat)
    requires Run(tables, ops, times) && i <= j < |tables| && forall k | i <= k <= j :: s in tables[k]
    ensures tables[j][s].(resolvedAt := None) == tables[i][s].(resolvedAt := None)
    decreases j
  {
    if i == j {
    } else {
      EntryKeepsIdentity(tables, ops, times, s, i, j - 1);
      assert tables[j] == Apply(tables[j - 1], ops[j - 1], times[j - 1]);
    }
  }

  /** Without a reopen of that source, a resolved row stays resolved, at the same time, for as long as it lives. */
  lemma {:induction false} OnlyReopenReopens(tables: seq<Table>, ops: seq<Op>, times: seq<int>, s: string, i: nat, j: nat)
    requires Run(tables, ops, times) && i <= j < |tables| && forall k | i <= k <= j :: s in tables[k]
    requires tables[i][s].resolvedAt.Some?
    requires forall k | i <= k < j :: !(ops[k].RecordOrReopen? && ops[k].source == s)
    ensures tables[j][s] == tables[i][s]
    decreases j
  {
    if i == j {
    } else {
      OnlyReopenReopens(tables, ops, times, s, i, j - 1);
      assert tables[j] == Apply(tables[j - 1], ops[j - 1], times[j - 1]);
    }
  }

  /** Whether operation k reports a welcome as new. */
  ghost predicate ReportsNew(tables: seq<Table>, ops: seq<Op>, s: string, k: nat)
    requires k < |ops| && |tables| == |ops| + 1
  {
    ops[k].Insert? && ops[k].kind.Welcome? && ops[k].source == s && s !in tables[k]
  }

  ghost predicate Removes(tables: seq<Table>, ops: seq<Op>, s: string, k: nat)
    requires k < |ops| && |tables| == |ops| + 1
  {
    ops[k].DeleteChats? && s in tables[k] && tables[k][s].chat in ops[k].chats
  }

  lemma {:induction false} RowsStayUntilRemoved(tables: seq<Table>, ops: seq<Op>, times: seq<int>, s: string, i: nat, j: nat)
    requires Run(tables, ops, times) && i <= j < |tables| && s in tables[i]
    requires forall k | i <= k < j :: !Removes(tables, ops, s, k)
    ensures s in tables[j]
    decreases j
  {
    if i == j {
    } else {
      RowsStayUntilRemoved(tables, ops, times, s, i, j - 1);
      assert tables[j] == Apply(tables[j - 1], ops[j - 1], times[j - 1]);
      assert !Removes(tables, ops, s, j - 1);
    }
  }

  /**
   * Between removals a welcome is reported new exactly once: by the first operation that
   * records it, and by no other.
   */
  lemma WelcomeIsNewOnce(tables: seq<Table>, ops: seq<Op>, times: seq<int>, s: string, i: nat, j: nat)
    requires Run(tables, ops, times) && i < j <= |ops| && s !in tables[i]
    requires forall k | i <= k < j :: !Removes(tables, ops, s, k)
    requires forall k | i <= k < j && ops[k].RecordOrReopen? :: ops[k].source != s
    requires forall k | i <= k < j && ops[k].Insert? && ops[k].source == s :: ops[k].kind.Welcome?
    requires exists k :: i <= k < j && ops[k].Insert? && ops[k].source == s
    ensures exists k :: i <= k < j && ReportsNew(tables, ops, s, k) && forall l | i <= l < j && l != k :: !ReportsNew(tables, ops, s, l)
  {
    var k := FirstInsert(tables, ops, times, s, i, j);
    assert tables[k + 1] == Apply(tables[k], ops[k], times[k]);
    assert ReportsNew(tables, ops, s, k);
    forall l | i <= l < j && l != k
      ensures !ReportsNew(tables, ops, s, l)
    {
      if k < l {
        RowsStayUntilRemoved(tables, ops, times, s, k + 1, l);
      }
    }
  }

  lemma {:induction false} FirstInsert(tables: seq<Table>, ops: seq<Op>, times: seq<int>, s: string, i: nat, j: nat) returns (k: nat)
    requires Run(tables, ops, times) && i < j <= |ops| && s !in tables[i]
    requires forall k | i <= k < j && ops[k].RecordOrReopen? :: ops[k].source != s
    requires exists k :: i <= k < j && ops[k].Insert? && ops[k].source == s
    ensures i <= k < j && ops[k].Insert? && ops[k].source == s && s !in tables[k]
    ensures forall l | i <= l < k :: !(ops[l].Insert? && ops[l].source == s)
    decreases j - i
  {
    if ops[i].Insert? && ops[i].source == s {
      k := i;
    } else {
      assert tables[i + 1] == Apply(tables[i], ops[i], times[i]);
      k := FirstInsert(tables, ops, times, s, i + 1, j);
    }
  }

  // ---- The store -------------------------------------------------------------------------

  class CatchUpStore {
    var entries: Table

    constructor ()
      ensures entries == map[]
    {
      entries := map[];
    }

    /** Inserts unless the source already has a row; reports whether it did. */
    method InsertEntry(kind: Kind, chat: string, source: string, id: string, now: int) returns (inserted: bool)
      modifies this
      ensures entries == Apply(old(entries), Insert(source, kind, chat, id), now)
      ensures inserted <==> source !in old(entries)
    {
      inserted := source !in entries;
      if inserted {
        entries := entries[source := Entry(id, kind, chat, now, None)];
      }
    }

    method ResolveEntry(source: string, now: int) returns (resolved: bool)
      modifies this
      ensures entries == Apply(old(entries), ResolveOne(source), now)
      ensures resolved <==> source in OpenSources(old(entries))
    {
      resolved := source in entries && entries[source].resolvedAt.None?;
      entries := Resolve(entries, {source}, now);
    }

    method ResolveChatMessageEntries(chat: string, now: int)
      modifies this
      ensures entries == Apply(old(entries), ResolveChat(chat), now)
    {
      entries := map s | s in entries ::
        if entries[s].chat == chat && entries[s].resolvedAt.None? && MessageShaped(entries[s].kind)
        then entries[s].(resolvedAt := Some(now)) else entries[s];
    }

    method RecordOrReopenActionNeeded(chat: string, source: string, id: string, now: int)
      modifies this
      ensures entries == Apply(old(entries), RecordOrReopen(source, chat, id), now)
    {
      if source in entries {
        entries := entries[source := entries[source].(resolvedAt := None)];
      } else {
        entries := entries[source := Entry(id, ActionPrompt, chat, now, None)];
      }
    }

    method DeleteEntriesForChats(chats: set<string>)
      modifies this
      ensures entries == Apply(old(entries), DeleteChats(chats), 0)
    {
      entries := map s | s in entries && entries[s].chat !in chats :: entries[s];
    }

    /** The sources of the open entries of one kind, if given, in some chats, if given; newest first. */
    method ListUnresolved(kind: Option<Kind>, chats: Option<set<string>>) returns (sources: seq<string>)
      ensures forall s :: s in sources <==> s in Listed(entries, kind, chats)
      ensures forall s :: s in sources <==>
        && s in entries && entries[s].resolvedAt == None
        && (kind == None || kind == Some(entries[s].kind)) && (chats == None || entries[s].chat in chats.value)
      ensures |sources| == |Listed(entries, kind, chats)|
      ensures forall i, j | 0 <= i < j < |sources| :: sources[i] != sources[j]
      ensures forall i, j | 0 <= i < j < |sources| ::
        sources[i] in entries && sources[j] in entries && entries[sources[i]].createdAt >= entries[sources[j]].createdAt
    {
      sources := [];
      var all := Listed(entries, kind, chats);
      var rest := all;
      while rest != {}
        invariant rest <= all && |sources| + |rest| == |all|
        invariant forall s :: s in sources <==> s in all - rest
        invariant forall i, j | 0 <= i < j < |sources| :: sources[i] != sources[j]
        invariant forall i | 0 <= i < |sources| :: sources[i] in entries && forall s | s in rest ::
          entries[sources[i]].createdAt >= entries[s].createdAt
        invariant forall i, j | 0 <= i < j < |sources| :: entries[sources[i]].createdAt >= entries[sources[j]].createdAt
        decreases rest
      {
        var s := Newest(entries, rest);
        assert s !in sources;
        sources := sources + [s];
        rest := rest - {s};
      }
    }
  }

  method Newest(t: Table, among: set<string>) returns (s: string)
    requires among != {} && among <= t.Keys
    ensures s in among && forall x | x in among :: t[s].createdAt >= t[x].createdAt
  {
    s :| s in among;
    var rest := among - {s};
    while rest != {}
      invariant s in among && rest <= among
      invariant forall x | x in among - rest :: t[s].createdAt >= t[x].createdAt
      decreases rest
    {
      var x :| x in rest;
      if t[x].createdAt > t[s].createdAt {
        s := x;
      }
      rest := rest - {x};
    }
  }

  function Listed(t: Table, kind: Option<Kind>, chats: Option<set<string>>): set<string> {
    set s | s in OpenSources(t) && (kind.Some? ==> t[s].kind == kind.value) && (chats.Some? ==> t[s].chat in chats.value)
  }

  // ---- Agreement with the read watermark -------------------------------------------------

  /** The chat is loaded and holds an incoming message, so it can be marked read without naming one. */
  ghost predicate CanMark(state: ChatState, chat: string)
    reads state, state.chats
  {
    exists c :: c in state.chats && c.id == chat && exists i :: 0 <= i < |c.messages| && !c.messages[i].mine
  }

  /** Nothing is unread, exactly unless the newest message is incoming with an empty id. */
  ghost predicate ReadToEnd(c: Chat)
    reads c
  {
    c.messages != [] && (Unread(c.messages, c.lastRead) == 0 <==> c.messages[|c.messages| - 1].mine || c.messages[|c.messages| - 1].id != "")
  }

  /** Moves the watermark, to a named message or to the newest incoming one, and resolves the chat's entries. */
  method MarkAsRead(state: ChatState, store: CatchUpStore, chat: string, explicit: Option<string>, now: int) returns (ok: bool)
    requires state.Valid()
    modifies state.chats, store
    ensures state.Valid() && state.chats == old(state.chats)
    ensures forall c | c in state.chats :: c.messages == old(c.messages) && (c.id != chat ==> c.lastRead == old(c.lastRead))
    ensures ok <==> if explicit.Some? then exists c :: c in state.chats && c.id == chat else CanMark(state, chat)
    ensures store.entries == if ok then Apply(old(store.entries), ResolveChat(chat), now) else old(store.entries)
    ensures forall c | c in state.chats && c.id == chat ::
      if !ok then c.lastRead == old(c.lastRead) else if explicit.Some? then c.lastRead == explicit.value else ReadToEnd(c)
  {
    var at := state.Find(chat);
    ok := false;
    if at < |state.chats| {
      var c := state.chats[at];
      assert c in state.chats;
      if explicit.Some? {
        c.lastRead := explicit.value;
        ok := true;
      } else {
        ok := c.SetAsRead();
      }
      assert forall d | d in state.chats && d.id == chat :: d == c;
    }
    if ok {
      store.ResolveChatMessageEntries(chat, now);
    }
  }

  /** After a successful mark, no open mention or direct message of the chat is left, and nothing else changed. */
  lemma MarkLeavesNoOpenMessages(t: Table, chat: string, now: int)
    ensures OpenSources(Apply(t, ResolveChat(chat), now)) == OpenSources(t) - MessagesOf(t, {chat})
    ensures forall s | s in t && !(t[s].chat == chat && MessageShaped(t[s].kind)) :: Apply(t, ResolveChat(chat), now)[s] == t[s]
  {
  }

  /** The chats some listed entry is a message of. */
  function ListedChats(t: Table, listed: set<string>): set<string> {
    set s | s in listed && s in t && MessageShaped(t[s].kind) :: t[s].chat
  }

  /** What resolving a listing closes: its other entries, and all open messages of its chats that could be marked. */
  function Closed(t: Table, listed: set<string>, markable: set<string>): set<string> {
    set s | s in OpenSources(t) &&
      ((s in listed && !MessageShaped(t[s].kind)) || (MessageShaped(t[s].kind) && t[s].chat in ListedChats(t, listed) * markable))
  }

  /**
   * Resolving a listing closes exactly the listing if and only if each of its message chats
   * can be marked and holds no open message outside it.
   */
  lemma ResolveAllIsExactIff(t: Table, listed: set<string>, markable: set<string>)
    requires listed <= OpenSources(t)
    ensures Closed(t, listed, markable) == listed
      <==> ListedChats(t, listed) <= markable
           && forall s | s in OpenSources(t) && MessageShaped(t[s].kind) && t[s].chat in ListedChats(t, listed) :: s in listed
  {
  }

  /** Each chat gets message entries of one kind: direct messages or mentions. */
  predicate OneKindPerChat(t: Table) {
    forall x, y | x in t && y in t && MessageShaped(t[x].kind) && MessageShaped(t[y].kind) && t[x].chat == t[y].chat ::
      t[x].kind == t[y].kind
  }

  /** With one message kind to a chat, resolving what a filter lists is exact if and only if each listed message chat can be marked. */
  lemma FilteredListingIsExactIff(t: Table, kind: Option<Kind>, chats: Option<set<string>>, markable: set<string>)
    requires OneKindPerChat(t)
    ensures Closed(t, Listed(t, kind, chats), markable) == Listed(t, kind, chats) <==> ListedChats(t, Listed(t, kind, chats)) <= markable
  {
  }

  /** The input it fails on: a listed message of a chat that is not loaded is counted and stays open. */
  lemma UnloadedChatStaysOpen(state: ChatState, t: Table, listed: set<string>, s: string)
    requires listed <= OpenSources(t) && s in listed && MessageShaped(t[s].kind)
    requires forall c | c in state.chats :: c.id != t[s].chat
    ensures s !in Closed(t, listed, set c | c in ListedChats(t, listed) && CanMark(state, c))
  {
  }

  /** Rows keep their kind and chat, and exactly `closed` has been resolved. */
  ghost predicate OnlyClosed(t: Table, t': Table, closed: set<string>) {
    && t'.Keys == t.Keys
    && (forall s | s in t :: t'[s].(resolvedAt := None) == t[s].(resolvedAt := None))
    && OpenSources(t') == OpenSources(t) - closed
  }

  function MessagesOf(t: Table, chats: set<string>): set<string> {
    set s | s in t && MessageShaped(t[s].kind) && t[s].chat in chats
  }

  lemma ResolvingChatCloses(t: Table, t': Table, chats: set<string>, chat: string, now: int)
    requires OnlyClosed(t, t', MessagesOf(t, chats))
    ensures OnlyClosed(t, Apply(t', ResolveChat(chat), now), MessagesOf(t, chats + {chat}))
  {
    assert MessagesOf(t, chats + {chat}) == MessagesOf(t, chats) + MessagesOf(t, {chat});
    MarkLeavesNoOpenMessages(t', chat, now);
  }

  lemma ResolvingOneCloses(t: Table, t': Table, closed: set<string>, source: string, now: int)
    requires OnlyClosed(t, t', closed)
    ensures OnlyClosed(t, Apply(t', ResolveOne(source), now), closed + {source})
  {
    assert OpenSources(Apply(t', ResolveOne(source), now)) == OpenSources(t') - {source};
  }

  function Elements(s: seq<string>): set<string> {
    set x | x in s
  }

  /** Resolves what a filter lists; reports how many entries it listed. */
  method ResolveAll(state: ChatState, store: CatchUpStore, kind: Option<Kind>, chats: Option<set<string>>, now: int) returns (total: nat)
    requires state.Valid()
    modifies state.chats, store
    ensures state.Valid() && state.chats == old(state.chats)
    ensures total == |Listed(old(store.entries), kind, chats)|
    ensures var t, listed := old(store.entries), Listed(old(store.entries), kind, chats);
      OnlyClosed(t, store.entries, Closed(t, listed, set c | c in ListedChats(t, listed) && old(CanMark(state, c))))
    ensures forall c | c in state.chats :: c.messages == old(c.messages)
    ensures var t, listed := old(store.entries), Listed(old(store.entries), kind, chats);
      var marked := set c | c in ListedChats(t, listed) && old(CanMark(state, c));
      forall c | c in state.chats :: if c.id in marked then ReadToEnd(c) else c.lastRead == old(c.lastRead)
  {
    ghost var t, listed := store.entries, Listed(store.entries, kind, chats);
    assert listed <= OpenSources(t) && listed <= t.Keys;
    hide OnlyClosed, Closed, Listed, ListedChats, OpenSources, MessagesOf, MessageShaped, ReadToEnd, CanMark, ChatState.Valid;
    ghost var markable := set c | c in ListedChats(t, listed) && CanMark(state, c);
    var sources := store.ListUnresolved(kind, chats);
    total := |sources|;
    var messageChats, others := SplitListing(store.entries, sources, listed);
    MarkChats(state, store, messageChats, now, markable);
    ResolveEach(store, others, now, t, MessagesOf(t, markable));
    ClosedIs(t, listed, markable, Elements(others));
    SameClosed(t, store.entries, MessagesOf(t, markable) + Elements(others), Closed(t, listed, markable));
  }

  lemma ClosedIs(t: Table, listed: set<string>, markable: set<string>, others: set<string>)
    requires listed <= OpenSources(t) && markable <= ListedChats(t, listed)
    requires forall s :: s in others <==> s in listed && !MessageShaped(t[s].kind)
    ensures OpenSources(t) - (MessagesOf(t, markable) + others) == OpenSources(t) - Closed(t, listed, markable)
  {
  }

  lemma SameClosed(t: Table, t': Table, closed: set<string>, closed': set<string>)
    requires OnlyClosed(t, t', closed) && OpenSources(t) - closed == OpenSources(t) - closed'
    ensures OnlyClosed(t, t', closed')
  {
  }

  /** Splits a listing into the chats to mark read and the sources to resolve directly. */
  method SplitListing(t: Table, sources: seq<string>, ghost listed: set<string>) returns (messageChats: set<string>, others: seq<string>)
    requires listed <= t.Keys && forall s :: s in sources <==> s in listed
    ensures messageChats == ListedChats(t, listed)
    ensures forall s :: s in others <==> s in listed && !MessageShaped(t[s].kind)
  {
    messageChats, others := {}, [];
    for i := 0 to |sources|
      invariant messageChats <= ListedChats(t, listed)
      invariant forall j | 0 <= j < i ::
        sources[j] in t && if MessageShaped(t[sources[j]].kind) then t[sources[j]].chat in messageChats else sources[j] in others
      invariant forall s | s in others :: s in listed && !MessageShaped(t[s].kind)
    {
      assert sources[i] in sources;
      var e := t[sources[i]];
      if MessageShaped(e.kind) {
        messageChats := messageChats + {e.chat};
      } else {
        others := others + [sources[i]];
      }
    }
    AllSorted(t, listed, sources, messageChats, others);
  }

  method ResolveEach(store: CatchUpStore, others: seq<string>, now: int, ghost t: Table, ghost closed: set<string>)
    requires OnlyClosed(t, store.entries, closed)
    modifies store
    ensures OnlyClosed(t, store.entries, closed + Elements(others))
  {
    assert closed + Elements(others[..0]) == closed;
    for i := 0 to |others|
      invariant OnlyClosed(t, store.entries, closed + Elements(others[..i]))
    {
      ResolvingOneCloses(t, store.entries, closed + Elements(others[..i]), others[i], now);
      var resolved := store.ResolveEntry(others[i], now);
      assert others[..i + 1] == others[..i] + [others[i]];
      assert closed + Elements(others[..i]) + {others[i]} == closed + Elements(others[..i + 1]);
    }
    assert others[..|others|] == others;
  }

  lemma AllSorted(t: Table, listed: set<string>, sources: seq<string>, messageChats: set<string>, others: seq<string>)
    requires listed <= t.Keys && forall s :: s in sources <==> s in listed
    requires messageChats <= ListedChats(t, listed)
    requires forall j | 0 <= j < |sources| ::
      if MessageShaped(t[sources[j]].kind) then t[sources[j]].chat in messageChats else sources[j] in others
    ensures messageChats == ListedChats(t, listed)
    ensures forall s | s in listed && !MessageShaped(t[s].kind) :: s in others
  {
  }

  /** Marks each of some chats read, in whatever order; `markable` names those that can be. */
  method MarkChats(state: ChatState, store: CatchUpStore, chats: set<string>, now: int, ghost markable: set<string>)
    requires state.Valid() && markable == set c | c in chats && CanMark(state, c)
    modifies state.chats, store
    ensures state.Valid() && state.chats == old(state.chats)
    ensures OnlyClosed(old(store.entries), store.entries, MessagesOf(old(store.entries), markable))
    ensures forall c | c in state.chats :: c.messages == old(c.messages)
    ensures forall c | c in state.chats :: if c.id in markable then ReadToEnd(c) else c.lastRead == old(c.lastRead)
  {
    hide Timeline.Unread, Timeline.AllUnread, OpenSources, Resolve;
    ghost var t := store.entries;
    ghost var marked: set<string> := {};
    var rest := chats;
    assert MessagesOf(t, {}) == {};
    while rest != {}
      invariant state.Valid() && state.chats == old(state.chats) && rest <= chats
      invariant forall c | c in state.chats :: c.messages == old(c.messages)
      invariant marked == markable - rest
      invariant forall c | c in state.chats :: if c.id in marked then ReadToEnd(c) else c.lastRead == old(c.lastRead)
      invariant OnlyClosed(t, store.entries, MessagesOf(t, marked))
      decreases rest
    {
      var c :| c in rest;
      rest := rest - {c};
      ghost var before := store.entries;
      var ok := MarkAsRead(state, store, c, None, now);
      assert ok <==> c in markable;
      if ok {
        ResolvingChatCloses(t, before, marked, c, now);
        marked := marked + {c};
      }
    }
    assert marked == markable;
  }
}
