/**
 * A message's edit history, kept incrementally by the live message and described here as a
 * function of everything ever delivered to it, and the rules deciding who may edit.
 */
module EditHistory {
  import opened Wrappers
  import opened Sorting

  datatype EditEntry = EditEntry(eventId: string, content: string, editedAt: nat)

  const ByTime: EditEntry -> int := (e: EditEntry) => e.editedAt

  predicate HasId(entries: seq<EditEntry>, id: string) {
    exists i :: 0 <= i < |entries| && entries[i].eventId == id
  }

  /**
   * The deliveries that take effect, in arrival order. Only an event id already in the
   * history is refused; the message's own id enters the history with the first edit.
   */
  function Accepted(own: string, deliveries: seq<EditEntry>): seq<EditEntry> {
    if deliveries == [] then []
    else
      var n := |deliveries| - 1;
      var before, e := Accepted(own, deliveries[..n]), deliveries[n];
      if HasId(before, e.eventId) || (n > 0 && e.eventId == own) then before else before + [e]
  }

  /** The history after a sequence of deliveries: the original, then its edits by time. */
  function HistoryOf(original: EditEntry, deliveries: seq<EditEntry>): Option<seq<EditEntry>> {
    if deliveries == [] then None
    else Some([original] + StableSort(Accepted(original.eventId, deliveries), ByTime))
  }

  function ContentOf(original: EditEntry, deliveries: seq<EditEntry>): string {
    if deliveries == [] then original.content
    else var h := HistoryOf(original, deliveries).value; h[|h| - 1].content
  }

  /** A live message. `delivered` is every edit handed to it so far, repeats included. */
  class Message {
    const id: string
    const at: nat
    const mine: bool
    const npub: Option<string>
    const rumorKind: Option<nat>
    var content: string
    var edited: bool
    var editHistory: Option<seq<EditEntry>>
    ghost const original: EditEntry
    ghost var delivered: seq<EditEntry>

    ghost predicate Valid()
      reads this
    {
      && original.eventId == id && original.editedAt == at
      && editHistory == HistoryOf(original, delivered)
      && content == ContentOf(original, delivered)
      && (edited <==> delivered != [])
    }

    constructor (id: string, content: string, at: nat, mine: bool, npub: Option<string>, rumorKind: Option<nat>)
      ensures Valid() && delivered == [] && original == EditEntry(id, content, at)
      ensures this.id == id && this.at == at && this.mine == mine && this.npub == npub && this.rumorKind == rumorKind
    {
      this.id, this.content, this.at, this.mine, this.npub, this.rumorKind := id, content, at, mine, npub, rumorKind;
      this.edited, this.editHistory := false, None;
      this.original, this.delivered := EditEntry(id, content, at), [];
    }

    /** Inserting one edit into the sorted tail keeps the history equal to its batch description. */
    method ApplyEdit(eventId: string, newContent: string, editedAt: nat) returns (applied: bool)
      requires Valid()
      modifies this
      ensures Valid() && delivered == old(delivered) + [EditEntry(eventId, newContent, editedAt)]
      ensures applied <==> Accepted(id, delivered) != Accepted(id, old(delivered))
      ensures !applied ==> editHistory == old(editHistory) && content == old(content)
    {
      hide HasId, Accepted, HistoryOf, ContentOf, Sorting.StableSort, Sorting.SortedBy;
      DeliverStep(original, delivered, EditEntry(eventId, newContent, editedAt));
      delivered := delivered + [EditEntry(eventId, newContent, editedAt)];
      if editHistory.Some? && HasId(editHistory.value, eventId) {
        return false;
      }
      if editHistory.None? {
        editHistory := Some([EditEntry(id, content, at)]);
      }
      var history := editHistory.value + [EditEntry(eventId, newContent, editedAt)];
      history := [history[0]] + StableSort(history[1..], ByTime);
      editHistory := Some(history);
      content := history[|history| - 1].content;
      edited := true;
      applied := true;
    }

    /** Whether an inbound edit may change this message; nothing `ApplyEdit` writes is consulted. */
    function AcceptsEdit(dmPeer: Option<string>, edit: EditAuthor, editedAt: nat): bool {
      rumorKind.None? && EditIsAuthorized(OfOriginal(mine, npub, dmPeer), at, edit, editedAt)
    }
  }

  lemma HasIdCons(first: EditEntry, s: seq<EditEntry>, id: string)
    ensures HasId([first] + s, id) <==> first.eventId == id || HasId(s, id)
  {
    var h := [first] + s;
    if HasId(s, id) {
      var i :| 0 <= i < |s| && s[i].eventId == id;
      assert h[i + 1].eventId == id;
    }
    assert h[0] == first;
  }

  lemma HasIdSorted(s: seq<EditEntry>, id: string)
    ensures HasId(StableSort(s, ByTime), id) <==> HasId(s, id)
  {
    var sorted := StableSort(s, ByTime);
    if HasId(sorted, id) {
      var i :| 0 <= i < |sorted| && sorted[i].eventId == id;
      SortedHasSameElements(s, ByTime, sorted[i]);
    }
    if HasId(s, id) {
      var i :| 0 <= i < |s| && s[i].eventId == id;
      SortedHasSameElements(s, ByTime, s[i]);
    }
  }

  lemma FirstDelivery(original: EditEntry, e: EditEntry)
    ensures HistoryOf(original, [e]) == Some([original, e]) && ContentOf(original, [e]) == e.content
    ensures StableSort([e], ByTime) == [e]
  {
    FirstAccepted(original.eventId, e);
    SortOfSorted([e], ByTime);
    hide Accepted, Sorting.StableSort, Sorting.SortedBy;
    assert [original] + [e] == [original, e];
  }

  lemma FirstAccepted(own: string, e: EditEntry)
    ensures Accepted(own, [e]) == [e] && Accepted(own, []) == []
  {
  }

  lemma LaterDelivery(original: EditEntry, d: seq<EditEntry>, e: EditEntry)
    requires d != []
    ensures var own, h := original.eventId, HistoryOf(original, d).value;
      if HasId(h, e.eventId) then
        Accepted(own, d + [e]) == Accepted(own, d) && HistoryOf(original, d + [e]) == HistoryOf(original, d)
      else
        && Accepted(own, d + [e]) == Accepted(own, d) + [e]
        && HistoryOf(original, d + [e]) == Some([original] + StableSort((h + [e])[1..], ByTime))
  {
    var tail := Accepted(original.eventId, d);
    var sorted := StableSort(tail, ByTime);
    HasIdCons(original, sorted, e.eventId);
    HasIdSorted(tail, e.eventId);
    SortAfterSort(tail, e, ByTime);
    assert (d + [e])[..|d|] == d;
    assert ([original] + sorted + [e])[1..] == sorted + [e];
  }

  /** One more delivery against the history so far: refused if its id is there, else sorted into the tail. */
  lemma DeliverStep(original: EditEntry, d: seq<EditEntry>, e: EditEntry)
    ensures HistoryOf(original, d).None? <==> d == []
    ensures d == [] ==> ContentOf(original, d) == original.content
    ensures var own, h := original.eventId, HistoryOf(original, d).GetOr([original]);
      if d != [] && HasId(h, e.eventId) then
        && Accepted(own, d + [e]) == Accepted(own, d)
        && HistoryOf(original, d + [e]) == HistoryOf(original, d) && ContentOf(original, d + [e]) == ContentOf(original, d)
      else
        && h != [] && Accepted(own, d + [e]) != Accepted(own, d)
        && var sorted := [(h + [e])[0]] + StableSort((h + [e])[1..], ByTime);
        && HistoryOf(original, d + [e]) == Some(sorted) && ContentOf(original, d + [e]) == sorted[|sorted| - 1].content
  {
    hide Accepted, HasId, Sorting.StableSort, Sorting.SortedBy;
    if d == [] {
      FirstDelivery(original, e);
      FirstAccepted(original.eventId, e);
      assert d + [e] == [e] && ([original] + [e])[1..] == [e];
      assert [original] + [e] == [original, e];
    } else {
      LaterDelivery(original, d, e);
      assert HistoryOf(original, d).value[0] == original;
    }
  }

  // ---- Which deliveries count ------------------------------------------------------------

  /** Delivery i is the first of its id, and does not carry the message's own id unless it is the very first. */
  predicate FirstOfItsId(own: string, deliveries: seq<EditEntry>, i: nat)
    requires i < |deliveries|
  {
    !HasId(deliveries[..i], deliveries[i].eventId) && (i == 0 || deliveries[i].eventId != own)
  }

  lemma {:induction false} AcceptedIds(own: string, deliveries: seq<EditEntry>, id: string)
    ensures HasId(Accepted(own, deliveries), id) ==> HasId(deliveries, id)
    ensures HasId(deliveries, id) && id != own ==> HasId(Accepted(own, deliveries), id)
    ensures deliveries != [] && HasId([deliveries[0]], id) ==> HasId(Accepted(own, deliveries), id)
  {
    if deliveries == [] {
    } else {
      var n := |deliveries| - 1;
      var before, e := Accepted(own, deliveries[..n]), deliveries[n];
      AcceptedIds(own, deliveries[..n], id);
      HasIdSnoc(deliveries[..n], e, id);
      HasIdSnoc(before, e, id);
      assert deliveries == deliveries[..n] + [e];
      if n == 0 {
        assert before == [] && [deliveries[0]] == [] + [e];
        HasIdSnoc([], e, id);
      }
    }
  }

  lemma HasIdSnoc(s: seq<EditEntry>, e: EditEntry, id: string)
    ensures HasId(s + [e], id) <==> HasId(s, id) || e.eventId == id
  {
    if HasId(s, id) {
      var i :| 0 <= i < |s| && s[i].eventId == id;
      assert (s + [e])[i].eventId == id;
    }
    assert (s + [e])[|s|] == e;
  }

  /** The accepted edits are exactly the first deliveries of each id, each id once. */
  lemma {:induction false} AcceptedAreFirstDeliveries(own: string, deliveries: seq<EditEntry>)
    ensures forall e :: e in Accepted(own, deliveries) <==> exists i ::
      0 <= i < |deliveries| && deliveries[i] == e && FirstOfItsId(own, deliveries, i)
    ensures forall i, j | 0 <= i < j < |Accepted(own, deliveries)| ::
      Accepted(own, deliveries)[i].eventId != Accepted(own, deliveries)[j].eventId
  {
    if deliveries == [] {
    } else {
      var n := |deliveries| - 1;
      var front, last := deliveries[..n], deliveries[n];
      AcceptedAreFirstDeliveries(own, front);
      forall i: nat | i < n
        ensures FirstOfItsId(own, deliveries, i) == FirstOfItsId(own, front, i)
      {
        assert deliveries[..i] == front[..i];
      }
      AcceptedIds(own, front, last.eventId);
      if n > 0 && last.eventId == own {
        assert !FirstOfItsId(own, deliveries, n);
      } else if n > 0 {
        assert HasId(Accepted(own, front), last.eventId) <==> HasId(front, last.eventId);
      }
      var accepted := Accepted(own, deliveries);
      forall e
        ensures e in accepted <==> exists i :: 0 <= i < |deliveries| && deliveries[i] == e && FirstOfItsId(own, deliveries, i)
      {
        if e in Accepted(own, front) {
          var i :| 0 <= i < |front| && front[i] == e && FirstOfItsId(own, front, i);
          assert deliveries[i] == e && FirstOfItsId(own, deliveries, i);
        }
        if FirstOfItsId(own, deliveries, n) {
          assert accepted == Accepted(own, front) + [last];
        }
        if i :| 0 <= i < |deliveries| && deliveries[i] == e && FirstOfItsId(own, deliveries, i) {
          if i < n {
            assert front[i] == e && FirstOfItsId(own, front, i);
          }
        }
      }
    }
  }

  // ---- Independence of delivery order ----------------------------------------------------

  /** Both sequences deliver the same edits; an event id names one edit. */
  ghost predicate SameEdits(a: seq<EditEntry>, b: seq<EditEntry>) {
    && (forall e :: e in a <==> e in b)
    && (forall e, f | e in a && f in a && e.eventId == f.eventId :: e == f)
  }

  ghost predicate DistinctTimes(a: seq<EditEntry>) {
    forall e, f | e in a && f in a && e != f :: e.editedAt != f.editedAt
  }

  lemma AllAccepted(own: string, a: seq<EditEntry>)
    requires SameEdits(a, a) && !HasId(a, own)
    ensures forall e :: e in Accepted(own, a) <==> e in a
    ensures forall i, j | 0 <= i < j < |Accepted(own, a)| :: Accepted(own, a)[i] != Accepted(own, a)[j]
  {
    AcceptedAreFirstDeliveries(own, a);
    forall e | e in a
      ensures e in Accepted(own, a)
    {
      AcceptedIds(own, a, e.eventId);
      var k :| 0 <= k < |a| && a[k] == e;
      assert HasId(a, e.eventId);
      var i :| 0 <= i < |Accepted(own, a)| && Accepted(own, a)[i].eventId == e.eventId;
      assert Accepted(own, a)[i] in Accepted(own, a);
    }
  }

  lemma {:induction false} NoDuplicatesSameMultiset(a: seq<EditEntry>, b: seq<EditEntry>)
    requires forall i, j | 0 <= i < j < |a| :: a[i] != a[j]
    requires forall i, j | 0 <= i < j < |b| :: b[i] != b[j]
    requires forall e :: e in a <==> e in b
    ensures multiset(a) == multiset(b)
  {
    forall e
      ensures multiset(a)[e] == multiset(b)[e]
    {
      CountedOnce(a, e);
      CountedOnce(b, e);
    }
  }

  /** With pairwise different times, order and repetition of deliveries leave no trace. */
  lemma OrderDoesNotMatter(original: EditEntry, a: seq<EditEntry>, b: seq<EditEntry>)
    requires SameEdits(a, b) && DistinctTimes(a) && !HasId(a, original.eventId)
    ensures HistoryOf(original, a) == HistoryOf(original, b)
    ensures ContentOf(original, a) == ContentOf(original, b)
  {
    var own := original.eventId;
    forall i | 0 <= i < |b|
      ensures b[i].eventId != own
    {
      assert b[i] in b;
    }
    if b != [] { assert b[0] in b; }
    if a != [] { assert a[0] in a; }
    AllAccepted(own, a);
    AllAccepted(own, b);
    var x, y := Accepted(own, a), Accepted(own, b);
    NoDuplicatesSameMultiset(x, y);
    SortedSame(x, y);
  }

  lemma SortedSame(x: seq<EditEntry>, y: seq<EditEntry>)
    requires multiset(x) == multiset(y) && DistinctTimes(x)
    ensures StableSort(x, ByTime) == StableSort(y, ByTime)
  {
    forall e, f | e in StableSort(x, ByTime) && f in StableSort(x, ByTime) && ByTime(e) == ByTime(f)
      ensures e == f
    {
      SortedHasSameElements(x, ByTime, e);
      SortedHasSameElements(x, ByTime, f);
    }
    SortSorts(x, ByTime);
    SortSorts(y, ByTime);
    SortPermutes(x, ByTime);
    SortPermutes(y, ByTime);
    SortedPermutation(StableSort(x, ByTime), StableSort(y, ByTime), ByTime);
  }

  lemma {:induction false} AcceptedIsMonotone(own: string, first: seq<EditEntry>, later: seq<EditEntry>)
    requires first <= later
    ensures Accepted(own, first) <= Accepted(own, later)
  {
    if first == later {
    } else {
      AcceptedIsMonotone(own, first, later[..|later| - 1]);
      assert Accepted(own, later[..|later| - 1]) <= Accepted(own, later);
    }
  }

  lemma PairAccepted(own: string, e: EditEntry, f: EditEntry)
    requires e.eventId != f.eventId && own !in {e.eventId, f.eventId}
    ensures Accepted(own, [e, f]) == [e, f]
  {
    FirstAccepted(own, e);
    assert [e, f][..1] == [e] && !HasId([e], f.eventId);
  }

  lemma PairWithKey(e: EditEntry, f: EditEntry)
    requires e.editedAt == f.editedAt
    ensures WithKey([e, f], ByTime, e.editedAt) == [e, f]
  {
    assert [e, f][..1] == [e] && [e][..0] == [];
    assert WithKey([e], ByTime, e.editedAt) == [e];
  }

  /** Two edits of one time, delivered first, head the entries of that time in the history. */
  lemma TiesShowArrivalOrder(original: EditEntry, e: EditEntry, f: EditEntry, rest: seq<EditEntry>)
    requires e.editedAt == f.editedAt && e.eventId != f.eventId && original.eventId !in {e.eventId, f.eventId}
    ensures HistoryOf(original, [e, f] + rest).Some?
    ensures var h := HistoryOf(original, [e, f] + rest).value; h != [] && [e, f] <= WithKey(h[1..], ByTime, e.editedAt)
  {
    hide Accepted, HasId, Sorting.WithKey, Sorting.StableSort, Sorting.SortedBy;
    var all := Accepted(original.eventId, [e, f] + rest);
    PairAccepted(original.eventId, e, f);
    PairWithKey(e, f);
    AcceptedIsMonotone(original.eventId, [e, f], [e, f] + rest);
    assert all == [e, f] + all[2..];
    SortKeepsTies(all, ByTime, e.editedAt);
    WithKeyOfConcat([e, f], all[2..], ByTime, e.editedAt);
    assert HistoryOf(original, [e, f] + rest).value[1..] == StableSort(all, ByTime);
  }

  lemma TiedOrdersDiffer(original: EditEntry, a: seq<EditEntry>, e: EditEntry, f: EditEntry)
    requires SameEdits(a, a) && !HasId(a, original.eventId) && e in a && f in a && e != f && e.editedAt == f.editedAt
    ensures SameEdits(a, [e, f] + a) && SameEdits(a, [f, e] + a)
    ensures HistoryOf(original, [e, f] + a) != HistoryOf(original, [f, e] + a)
  {
    hide HistoryOf, Sorting.WithKey, HasId, SameEdits;
    SameWithTwoFirst(original.eventId, a, e, f);
    SameWithTwoFirst(original.eventId, a, f, e);
    TiesShowArrivalOrder(original, e, f, a);
    TiesShowArrivalOrder(original, f, e, a);
    assert [e, f][0] == e && [f, e][0] == f;
  }

  /** Every order of the same edits, with any repeats, gives one history if and only if their times differ. */
  lemma OrderIsFreeIff(original: EditEntry, a: seq<EditEntry>)
    requires SameEdits(a, a) && !HasId(a, original.eventId)
    ensures (forall b | SameEdits(a, b) :: HistoryOf(original, b) == HistoryOf(original, a)) <==> DistinctTimes(a)
  {
    hide HistoryOf, HasId, SameEdits;
    if DistinctTimes(a) {
      forall b | SameEdits(a, b)
        ensures HistoryOf(original, b) == HistoryOf(original, a)
      {
        OrderDoesNotMatter(original, a, b);
      }
    } else {
      var e, f :| e in a && f in a && e != f && e.editedAt == f.editedAt;
      TiedOrdersDiffer(original, a, e, f);
    }
  }

  lemma SameWithTwoFirst(own: string, a: seq<EditEntry>, e: EditEntry, f: EditEntry)
    requires SameEdits(a, a) && !HasId(a, own) && e in a && f in a && e != f
    ensures SameEdits(a, [e, f] + a)
    ensures e.eventId != f.eventId && own !in {e.eventId, f.eventId}
  {
  }

  // ---- Authorisation ---------------------------------------------------------------------

  const EDIT_WINDOW_SECS: nat := 60
  const MAX_RECEIPT: nat := 0x7FFF_FFFF_FFFF_FFFF

  datatype EditAuthor = Me | Peer(npub: string) | Unknown

  function OfOriginal(mine: bool, npub: Option<string>, dmPeer: Option<string>): EditAuthor {
    if mine then Me
    else if npub.Some? then Peer(npub.value)
    else if dmPeer.Some? then Peer(dmPeer.value)
    else Unknown
  }

  function OfEdit(mine: bool, npub: Option<string>): EditAuthor {
    OfOriginal(mine, npub, None)
  }

  /** Same verified author, stamped within the message's own second and the 60 that follow. */
  predicate EditIsAuthorized(original: EditAuthor, originalAtMs: nat, edit: EditAuthor, editedAtMs: nat) {
    && ((original.Me? && edit.Me?) || (original.Peer? && edit.Peer? && original.npub == edit.npub))
    && originalAtMs / 1000 <= editedAtMs / 1000 <= originalAtMs / 1000 + EDIT_WINDOW_SECS
  }

  /** First receipts are evidence only when valid; an early edit saturates to no delay. */
  predicate EditReceivedInTime(originalReceivedMs: nat, editReceivedMs: nat) {
    && 1 <= originalReceivedMs <= MAX_RECEIPT && 1 <= editReceivedMs <= MAX_RECEIPT
    && (if editReceivedMs < originalReceivedMs then 0 else editReceivedMs - originalReceivedMs) <= EDIT_WINDOW_SECS * 1000
  }

  /** Only the author edits, from the message's own second to the end of the 60th after it. */
  lemma WindowIsAMinute(original: EditAuthor, at: nat, edit: EditAuthor, editedAt: nat)
    ensures EditIsAuthorized(original, at, edit, editedAt)
      <==> original == edit && original != Unknown && at - at % 1000 <= editedAt < at - at % 1000 + 61_000
  {
  }

  /** An edit must be received within a minute of its original, and may be received before it. */
  lemma ReceiptWindowIsAMinute(original: nat, edit: nat)
    ensures EditReceivedInTime(original, edit)
      <==> 0 < original < 0x8000_0000_0000_0000 && 0 < edit < 0x8000_0000_0000_0000 && edit <= original + 60_000
  {
  }

  /** An edited message shows its latest edit, the last delivered among those of one time; the history starts with the original. */
  lemma LatestEditShows(original: EditEntry, d: seq<EditEntry>)
    requires d != []
    ensures HistoryOf(original, d).Some?
    ensures var h, accepted := HistoryOf(original, d).value, Accepted(original.eventId, d);
      && |h| == 1 + |accepted| && h[0] == original && multiset(h[1..]) == multiset(accepted)
      && (forall i, j | 1 <= i < j < |h| :: h[i].editedAt <= h[j].editedAt)
      && (forall t :: WithKey(h[1..], ByTime, t) == WithKey(accepted, ByTime, t))
      && ContentOf(original, d) == h[|h| - 1].content
  {
    var accepted := Accepted(original.eventId, d);
    SortSorts(accepted, ByTime);
    SortPermutes(accepted, ByTime);
    forall t
      ensures WithKey(StableSort(accepted, ByTime), ByTime, t) == WithKey(accepted, ByTime, t)
    {
      SortKeepsTies(accepted, ByTime, t);
    }
    hide Sorting.StableSort, Accepted;
    assert HistoryOf(original, d).value[1..] == StableSort(accepted, ByTime);
  }
}
