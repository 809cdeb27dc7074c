/** A chat's timeline and read watermark, and the list of chats ordered by recency. */
module Timeline {
  import opened Sorting

  datatype Msg = Msg(id: string, at: nat, mine: bool)

  predicate InTimeOrder(ms: seq<Msg>) {
    forall i, j | 0 <= i < j < |ms| :: ms[i].at <= ms[j].at
  }

  predicate UniqueIds(ms: seq<Msg>) {
    forall i, j | 0 <= i < j < |ms| :: ms[i].id != ms[j].id
  }

  predicate HasMessage(ms: seq<Msg>, id: string) {
    exists i :: 0 <= i < |ms| && ms[i].id == id
  }

  function InsertAt(ms: seq<Msg>, m: Msg, at: nat): seq<Msg>
    requires at <= |ms|
  {
    ms[..at] + [m] + ms[at..]
  }

  /** A position that keeps a sorted timeline sorted. */
  predicate FitsAt(ms: seq<Msg>, m: Msg, at: nat) {
    at <= |ms| && (forall i | 0 <= i < at :: ms[i].at <= m.at) && (forall i | at <= i < |ms| :: m.at <= ms[i].at)
  }

  /** What adding a message may do: nothing if its id is known, else one sorted insert. */
  ghost predicate Added(before: seq<Msg>, m: Msg, after: seq<Msg>) {
    if HasMessage(before, m.id) then after == before
    else exists at: nat :: FitsAt(before, m, at) && after == InsertAt(before, m, at)
  }

  // ---- The unread walk -------------------------------------------------------------------

  predicate Stops(m: Msg, lastRead: string) {
    m.mine || (lastRead != "" && m.id == lastRead)
  }

  /** The newest n messages are all incoming and after the watermark. */
  predicate AllUnread(ms: seq<Msg>, lastRead: string, n: nat) {
    n <= |ms| && forall i | |ms| - n <= i < |ms| :: !Stops(ms[i], lastRead)
  }

  /** The length of the longest unread suffix. */
  function Unread(ms: seq<Msg>, lastRead: string): (n: nat)
    ensures AllUnread(ms, lastRead, n)
    ensures n < |ms| ==> Stops(ms[|ms| - 1 - n], lastRead)
  {
    if ms == [] || Stops(ms[|ms| - 1], lastRead) then 0 else 1 + Unread(ms[..|ms| - 1], lastRead)
  }

  lemma UnreadIsLongest(ms: seq<Msg>, lastRead: string, n: nat)
    requires AllUnread(ms, lastRead, n)
    ensures n <= Unread(ms, lastRead)
  {
  }

  lemma UnreadIs(ms: seq<Msg>, lastRead: string, n: nat)
    requires AllUnread(ms, lastRead, n) && (n < |ms| ==> Stops(ms[|ms| - 1 - n], lastRead))
    ensures Unread(ms, lastRead) == n
  {
  }

  /**
   * Inserting below the unread suffix changes nothing; inserting into it adds one, unless the
   * message is the user's own or the watermark itself, which end the suffix where they land.
   */
  lemma UnreadAfterInsert(ms: seq<Msg>, m: Msg, at: nat, lastRead: string)
    requires at <= |ms|
    ensures var n := Unread(ms, lastRead);
      Unread(InsertAt(ms, m, at), lastRead) ==
        if at < |ms| - n then n
        else if Stops(m, lastRead) then |ms| - at
        else n + 1
  {
    var n, after := Unread(ms, lastRead), InsertAt(ms, m, at);
    var n' := if at < |ms| - n then n else if Stops(m, lastRead) then |ms| - at else n + 1;
    forall i | |after| - n' <= i < |after|
      ensures !Stops(after[i], lastRead)
    {
      assert after[i] == if i < at then ms[i] else if i == at then m else ms[i - 1];
    }
    if n' < |after| {
      var i := |after| - 1 - n';
      assert after[i] == if i < at then ms[i] else if i == at then m else ms[i - 1];
    }
    UnreadIs(after, lastRead, n');
  }

  // ---- One chat --------------------------------------------------------------------------

  class Chat {
    const id: string
    const isDirect: bool
    var messages: seq<Msg>
    var lastRead: string

    constructor (id: string, isDirect: bool)
      ensures this.id == id && this.isDirect == isDirect && messages == [] && lastRead == ""
    {
      this.id, this.isDirect, messages, lastRead := id, isDirect, [], "";
    }

    predicate Valid()
      reads this
    {
      InTimeOrder(messages) && UniqueIds(messages)
    }

    /** Binary search by time over the sorted timeline: a match if there is one, else where it would go. */
    method BinarySearch(t: nat) returns (found: bool, at: nat)
      requires InTimeOrder(messages)
      ensures found ==> at < |messages| && messages[at].at == t
      ensures !found ==>
        && at <= |messages| && (forall i | 0 <= i < at :: messages[i].at < t)
        && (forall i | at <= i < |messages| :: t < messages[i].at)
    {
      var lo, hi := 0, |messages|;
      while lo < hi
        invariant 0 <= lo <= hi <= |messages|
        invariant forall i | 0 <= i < lo :: messages[i].at < t
        invariant forall i | hi <= i < |messages| :: t < messages[i].at
      {
        var mid := lo + (hi - lo) / 2;
        if messages[mid].at == t {
          return true, mid;
        } else if messages[mid].at < t {
          lo := mid + 1;
        } else {
          hi := mid;
        }
      }
      return false, lo;
    }

    method Knows(id: string) returns (known: bool)
      ensures known <==> HasMessage(messages, id)
    {
      var i := 0;
      while i < |messages|
        invariant 0 <= i <= |messages| && forall j | 0 <= j < i :: messages[j].id != id
      {
        if messages[i].id == id {
          return true;
        }
        i := i + 1;
      }
      return false;
    }

    /** Append, prepend and the binary-search path are all the one sorted insert; ties go to the ends first. */
    method InternalAddMessage(m: Msg) returns (added: bool, ghost at: nat)
      requires Valid()
      modifies this`messages
      ensures Valid() && Added(old(messages), m, messages)
      ensures added <==> !HasMessage(old(messages), m.id)
      ensures added ==> FitsAt(old(messages), m, at) && messages == InsertAt(old(messages), m, at)
      ensures added && (old(messages) == [] || m.at >= old(messages)[|old(messages)| - 1].at) ==> at == |old(messages)|
      ensures added && old(messages) != [] && m.at < old(messages)[|old(messages)| - 1].at && m.at <= old(messages)[0].at ==> at == 0
    {
      at := 0;
      added := false;
      var known := Knows(m.id);
      if known {
        return;
      }
      ghost var before := messages;
      if messages == [] {
        messages := messages + [m];
      } else if m.at >= messages[|messages| - 1].at {
        at := |messages|;
        messages := messages + [m];
      } else if m.at <= messages[0].at {
        messages := [m] + messages;
      } else {
        var found, i := BinarySearch(m.at);
        at := i;
        messages := messages[..i] + [m] + messages[i..];
      }
      assert messages == InsertAt(before, m, at);
      InsertKeepsOrder(before, m, at);
      added := true;
    }

    /** Moves the watermark to the newest incoming message, if there is one. */
    method SetAsRead() returns (moved: bool)
      modifies this`lastRead
      ensures moved <==> exists i :: 0 <= i < |messages| && !messages[i].mine
      ensures !moved ==> lastRead == old(lastRead)
      ensures moved ==> exists i ::
        0 <= i < |messages| && !messages[i].mine && lastRead == messages[i].id && forall j | i < j < |messages| :: messages[j].mine
      ensures Unread(messages, lastRead) == 0 <==> messages == [] || messages[|messages| - 1].mine || messages[|messages| - 1].id != ""
    {
      var i := |messages|;
      while i > 0
        invariant 0 <= i <= |messages| && lastRead == old(lastRead)
        invariant forall j | i <= j < |messages| :: messages[j].mine
      {
        i := i - 1;
        if !messages[i].mine {
          lastRead := messages[i].id;
          ghost var newest := i;
          assert !messages[newest].mine;
          return true;
        }
      }
      return false;
    }

    /** Walks back from the newest message until one that ends the unread suffix. */
    method CountUnread() returns (n: nat)
      ensures n == Unread(messages, lastRead)
    {
      n := 0;
      var i := |messages|;
      while i > 0
        invariant 0 <= i <= |messages| && n == |messages| - i && AllUnread(messages, lastRead, n)
      {
        if messages[i - 1].mine {
          break;
        }
        if lastRead != "" && messages[i - 1].id == lastRead {
          break;
        }
        n := n + 1;
        i := i - 1;
      }
      UnreadIs(messages, lastRead, n);
    }

    /** Newest first when sorted ascending; a chat without messages goes last. */
    function Recency(): int
      reads this
    {
      if messages == [] then 1 else 0 - messages[|messages| - 1].at
    }
  }

  lemma InsertKeepsOrder(ms: seq<Msg>, m: Msg, at: nat)
    requires InTimeOrder(ms) && UniqueIds(ms) && FitsAt(ms, m, at) && !HasMessage(ms, m.id)
    ensures InTimeOrder(InsertAt(ms, m, at)) && UniqueIds(InsertAt(ms, m, at))
  {
  }

  /** The newest message carries the greatest time, so recency compares chats by that. */
  lemma LastIsGreatest(ms: seq<Msg>, m: Msg)
    requires InTimeOrder(ms) && m in ms
    ensures m.at <= ms[|ms| - 1].at
  {
  }

  // ---- Any sequence of arrivals ----------------------------------------------------------

  ghost predicate Arrivals(arrivals: seq<Msg>, states: seq<seq<Msg>>) {
    && |states| == |arrivals| + 1 && states[0] == []
    && forall i | 0 <= i < |arrivals| :: Added(states[i], arrivals[i], states[i + 1])
  }

  predicate FirstArrival(arrivals: seq<Msg>, i: nat)
    requires i < |arrivals|
  {
    !HasMessage(arrivals[..i], arrivals[i].id)
  }

  /** After n arrivals the timeline is sorted, has unique ids, and holds exactly the first arrival of each id. */
  lemma {:induction false} TimelineHoldsFirstArrivals(arrivals: seq<Msg>, states: seq<seq<Msg>>, n: nat)
    requires Arrivals(arrivals, states) && n <= |arrivals|
    ensures InTimeOrder(states[n]) && UniqueIds(states[n])
    ensures forall m :: m in states[n] <==> exists i :: 0 <= i < n && arrivals[i] == m && FirstArrival(arrivals, i)
    ensures forall id :: HasMessage(states[n], id) <==> HasMessage(arrivals[..n], id)
  {
    if n == 0 {
    } else {
      TimelineHoldsFirstArrivals(arrivals, states, n - 1);
      var before, m, after := states[n - 1], arrivals[n - 1], states[n];
      assert Added(before, m, after);
      assert arrivals[..n] == arrivals[..n - 1] + [m];
      AddedHolds(before, m, after);
      forall id
        ensures HasMessage(after, id) <==> HasMessage(arrivals[..n], id)
      {
        HasMessageSnoc(arrivals[..n - 1], m, id);
      }
      assert FirstArrival(arrivals, n - 1) <==> !HasMessage(before, m.id);
    }
  }

  lemma HasMessageSnoc(ms: seq<Msg>, m: Msg, id: string)
    ensures HasMessage(ms + [m], id) <==> HasMessage(ms, id) || m.id == id
  {
    if HasMessage(ms, id) {
      var i :| 0 <= i < |ms| && ms[i].id == id;
      assert (ms + [m])[i].id == id;
    }
    assert (ms + [m])[|ms|] == m;
  }

  lemma AddedHolds(before: seq<Msg>, m: Msg, after: seq<Msg>)
    requires InTimeOrder(before) && UniqueIds(before) && Added(before, m, after)
    ensures InTimeOrder(after) && UniqueIds(after)
    ensures forall x :: x in after <==> x in before || (x == m && !HasMessage(before, m.id))
    ensures forall id :: HasMessage(after, id) <==> HasMessage(before, id) || m.id == id
  {
    if !HasMessage(before, m.id) {
      var at: nat :| FitsAt(before, m, at) && after == InsertAt(before, m, at);
      InsertKeepsOrder(before, m, at);
      assert before == before[..at] + before[at..];
      forall x
        ensures x in after <==> x in before || x == m
      {
      }
    }
    HasMessageIffElement(before);
    HasMessageIffElement(after);
  }

  lemma HasMessageIffElement(ms: seq<Msg>)
    ensures forall id :: HasMessage(ms, id) <==> exists x :: x in ms && x.id == id
  {
  }

  /** Each message of `later` is no later than some message of `earlier`; so a chat without messages comes last. */
  predicate NoOlder(earlier: seq<Msg>, later: seq<Msg>) {
    forall m | m in later :: exists x :: x in earlier && m.at <= x.at
  }

  lemma RecencyIsByLatest(a: Chat, b: Chat)
    requires a.Valid() && b.Valid()
    ensures a.Recency() <= b.Recency() <==> NoOlder(a.messages, b.messages)
  {
    if a.messages != [] {
      assert a.messages[|a.messages| - 1] in a.messages;
    }
    if b.messages != [] {
      assert b.messages[|b.messages| - 1] in b.messages;
    }
    if a.Recency() <= b.Recency() {
      forall m | m in b.messages
        ensures exists x :: x in a.messages && m.at <= x.at
      {
        LastIsGreatest(b.messages, m);
        assert a.messages != [];
      }
    }
    forall x | x in a.messages
      ensures x.at <= a.messages[|a.messages| - 1].at
    {
      LastIsGreatest(a.messages, x);
    }
  }

  // ---- The list of chats -----------------------------------------------------------------

  class ChatState {
    var chats: seq<Chat>

    constructor ()
      ensures chats == []
    {
      chats := [];
    }

    ghost predicate Valid()
      reads this, chats
    {
      && (forall c | c in chats :: c.Valid())
      && forall i, j | 0 <= i < j < |chats| :: chats[i] != chats[j] && chats[i].id != chats[j].id
    }

    /** The position of a chat, or the length if it is not loaded. */
    method Find(chatId: string) returns (at: nat)
      ensures at <= |chats| && (at < |chats| ==> chats[at].id == chatId)
      ensures forall i | 0 <= i < at :: chats[i].id != chatId
    {
      at := 0;
      while at < |chats| && chats[at].id != chatId
        invariant at <= |chats| && forall i | 0 <= i < at :: chats[i].id != chatId
      {
        at := at + 1;
      }
    }

    /** Adds to the chat, creating it if needed, and re-sorts the list newest first. */
    method AddMessageToChat(chatId: string, m: Msg) returns (added: bool, ghost chat: Chat)
      requires Valid()
      modifies this, chats
      ensures Valid() && chat in chats && chat.id == chatId
      ensures chat in old(chats) ==>
        && multiset(chats) == old(multiset(chats)) && Added(old(chat.messages), m, chat.messages)
        && (added <==> !HasMessage(old(chat.messages), m.id))
      ensures chat !in old(chats) ==>
        && fresh(chat) && multiset(chats) == old(multiset(chats)) + multiset{chat} && chat.messages == [m] && added
        && forall c | c in old(chats) :: c.id != chatId
      ensures forall c | c in old(chats) && c != chat :: c.messages == old(c.messages)
      ensures forall c | c in old(chats) :: c.lastRead == old(c.lastRead)
      ensures fresh(chat) ==> (chat.isDirect <==> "npub1" <= chatId) && chat.lastRead == ""
      ensures forall i, j | 0 <= i < j < |chats| :: NoOlder(chats[i].messages, chats[j].messages)
    {
      var at := Find(chatId);
      ghost var g;
      if at < |chats| {
        chat := chats[at];
        added, g := chats[at].InternalAddMessage(m);
      } else {
        var c := new Chat(chatId, |chatId| >= 5 && chatId[..5] == "npub1");
        added, g := c.InternalAddMessage(m);
        chats := chats + [c];
        chat := c;
      }
      SortByRecency();
      forall i, j | 0 <= i < j < |chats|
        ensures NoOlder(chats[i].messages, chats[j].messages)
      {
        RecencyIsByLatest(chats[i], chats[j]);
      }
    }

    /** The stable sort of the list by latest message time, newest first. */
    method SortByRecency()
      requires Valid()
      modifies this
      ensures Valid() && multiset(chats) == multiset(old(chats))
      ensures (forall c | c in old(chats) :: c in chats) && forall c | c in chats :: c in old(chats)
      ensures forall i, j | 0 <= i < j < |chats| :: chats[i].Recency() <= chats[j].Recency()
    {
      ghost var before := chats;
      var times := map c | c in chats :: c.Recency();
      var key := (c: Chat) => if c in times then times[c] else 0;
      chats := StableSort(chats, key);
      SortSorts(before, key);
      SortPermutes(before, key);
      PermutationKeepsDistinct(before, chats);
    }
  }

  lemma PermutationKeepsDistinct(a: seq<Chat>, b: seq<Chat>)
    requires multiset(a) == multiset(b)
    requires forall i, j | 0 <= i < j < |a| :: a[i] != a[j] && a[i].id != a[j].id
    ensures forall c :: c in a <==> c in b
    ensures forall i, j | 0 <= i < j < |b| :: b[i] != b[j] && b[i].id != b[j].id
  {
    forall c
      ensures c in a <==> c in b
    {
      assert c in a <==> c in multiset(b);
    }
    forall i, j | 0 <= i < j < |b|
      ensures b[i] != b[j] && b[i].id != b[j].id
    {
      if b[i] == b[j] {
        assert b == b[..j] + [b[j]] + b[j + 1..];
        assert b[i] in b[..j];
        assert multiset(b)[b[i]] >= 2;
        CountedOnce(a, b[i]);
      } else {
        assert b[i] in a && b[j] in a;
      }
    }
  }
}
