/** The local commands on a join inbox, and what every run of commands and deliveries keeps. */
module JoinInboxCommands {
  import opened Wrappers
  import opened JoinInboxSpec
  import opened JoinInboxKeys

  datatype Refusal =
    | NotInitialized | NotHolder | NotMember | HolderNotMember | NoLocalKey
    | LastHolder | NotListed | NoHoldersLeft | NotCreator | KeyMismatch | WriteLost

  datatype Share = Share(recipient: string, wire: Wire)

  /** The replica afterwards, the announcements to publish and the key shares to send. */
  datatype Bundle = Bundle(replica: Replica, announced: seq<Wire>, shares: seq<Share>)

  datatype Command =
    | Init(creator: Option<string>, newInbox: string)
    | AddHolder(holder: string)
    | RemoveHolder(holder: string)
    | RotateKey(newInbox: string)
    | ReclaimIfSplit
    | DeleteRows

  function AnnounceMeta(m: Meta): Wire {
    MetaWire(m.inbox, m.holders, m.epoch, m.updatedAt)
  }

  function IsSplit(r: Replica): bool {
    r.meta.Some? && r.secret.Some? && r.secret.value.epoch == r.meta.value.epoch && r.secret.value.inbox != r.meta.value.inbox
  }

  /** The replica whose row and secret are both freshly written for one inbox. */
  function Minted(inbox: string, holders: seq<string>, epoch: int, now: int): Replica {
    Replica(Some(Meta(inbox, holders, epoch, now)), Some(Secret(inbox, epoch, inbox)))
  }

  /** One command against one membership snapshot. */
  function Execute(r: Replica, me: string, members: set<string>, now: int, c: Command): Result<Bundle, Refusal> {
    match c
    case Init(creator, newInbox) =>
      if r.meta.Some? then Ok(Bundle(r, [], []))
      else if creator.Some? && creator.value != "" && creator.value != me then Err(NotCreator)
      else
        var r' := Minted(newInbox, [me], 1, now);
        Ok(Bundle(r', [AnnounceMeta(r'.meta.value)], []))
    case AddHolder(holder) =>
      if holder !in members then Err(HolderNotMember)
      else if me !in members then Err(NotMember)
      else if r.meta.None? then Err(NotInitialized)
      else if me !in r.meta.value.holders then Err(NotHolder)
      else if r.secret.None? then Err(NoLocalKey)
      else if holder in r.meta.value.holders then Ok(Bundle(r, [], []))
      else
        var m := r.meta.value.(holders := r.meta.value.holders + [holder], updatedAt := now);
        Ok(Bundle(r.(meta := Some(m)), [AnnounceMeta(m)], [Share(holder, KeyShareWire(m.inbox, m.epoch, r.secret.value.opens))]))
    case RemoveHolder(holder) =>
      if me !in members then Err(NotMember)
      else if r.meta.None? then Err(NotInitialized)
      else if me !in r.meta.value.holders then Err(NotHolder)
      else if |r.meta.value.holders| <= 1 && holder in r.meta.value.holders then Err(LastHolder)
      else if holder !in r.meta.value.holders then Err(NotListed)
      else
        var m := r.meta.value.(holders := Retain(r.meta.value.holders, h => h != holder), updatedAt := now);
        Ok(Bundle(Replica(Some(m), if holder == me then None else r.secret), [AnnounceMeta(m)], []))
    case RotateKey(newInbox) =>
      if me !in members then Err(NotMember)
      else if r.meta.None? then Err(NotInitialized)
      else if me !in r.meta.value.holders then Err(NotHolder)
      else if r.secret.None? then Err(NoLocalKey)
      else
        var holders := Retain(r.meta.value.holders, h => h in members);
        if holders == [] then Err(NoHoldersLeft)
        else
          var epoch := NextEpoch(r.meta.value.epoch);
          var share := KeyShareWire(newInbox, epoch, newInbox);
          Ok(Bundle(Minted(newInbox, holders, epoch, now),
                    [MetaWire(newInbox, holders, epoch, now), KeyRotatedWire(newInbox, epoch, now)],
                    SharesTo(Retain(holders, h => h != me), share)))
    case ReclaimIfSplit =>
      if r.meta.None? then Err(NotInitialized)
      else if !IsSplit(r) then Ok(Bundle(r, [], []))
      else if r.secret.value.opens != r.secret.value.inbox then Err(KeyMismatch)
      else
        var r' := Minted(r.secret.value.inbox, [me], NextEpoch(r.meta.value.epoch), now);
        Ok(Bundle(r', [AnnounceMeta(r'.meta.value)], []))
    case DeleteRows => Ok(Bundle(Replica(None, None), [], []))
  }

  function SharesTo(recipients: seq<string>, w: Wire): seq<Share> {
    seq(|recipients|, i requires 0 <= i < |recipients| => Share(recipients[i], w))
  }

  function After(r: Replica, outcome: Result<Bundle, Refusal>): Replica {
    if outcome.Ok? then outcome.value.replica else r
  }

  // ---- Durable writes --------------------------------------------------------------------

  /** The durable writes a command makes. */
  function Writes(r: Replica, me: string, members: set<string>, now: int, c: Command): nat {
    if Execute(r, me, members, now, c).Err? then 0
    else
      match c
      case Init(_, _) => if r.meta.Some? then 0 else 2
      case AddHolder(holder) => if holder in r.meta.value.holders then 0 else 1
      case RemoveHolder(holder) => if holder == me then 2 else 1
      case RotateKey(_) => 2
      case ReclaimIfSplit => if IsSplit(r) then 2 else 0
      case DeleteRows => 2
  }

  /** The replica when only the first write went through: the secret's, but the row's when a holder leaves. */
  function FirstWrite(r: Replica, me: string, members: set<string>, now: int, c: Command): Replica {
    var r' := After(r, Execute(r, me, members, now, c));
    if c.RemoveHolder? then r'.(secret := r.secret) else r.(secret := r'.secret)
  }

  /** How a command ends that may make `writes` durable writes: whole, or cut off before its first or second. */
  predicate CommandEnds(r: Replica, me: string, members: set<string>, now: int, c: Command,
      writes: nat, r': Replica, outcome: Result<Bundle, Refusal>) {
    var needed := Writes(r, me, members, now, c);
    && r' == LocalWithin(r, me, members, now, c, writes)
    && outcome == if needed <= writes then Execute(r, me, members, now, c) else Err(WriteLost)
  }

  /** The replica after a command that may make `writes` durable writes. */
  function LocalWithin(r: Replica, me: string, members: set<string>, now: int, c: Command, writes: nat): Replica {
    if Writes(r, me, members, now, c) <= writes then After(r, Execute(r, me, members, now, c))
    else if writes == 0 then r
    else FirstWrite(r, me, members, now, c)
  }

  /** The replica after a public message that may make `writes` durable writes. */
  function DeliverWithin(r: Replica, w: Wire, writes: nat): Replica
    requires !w.KeyShareWire?
  {
    if MetaWrites(r, w) <= writes then WithMeta(r, w)
    else if writes == 0 then r
    else r.(secret := None)
  }

  /** Dropping an outdated secret, if there is one, and writing the row. */
  function MetaWrites(r: Replica, w: Wire): nat
    requires !w.KeyShareWire?
  {
    if !Supersedes(r, w) then 0 else if WithMeta(r, w).secret != r.secret then 2 else 1
  }

  /** No secret is older than a row that is there; there may be a secret without a row. */
  predicate NotOlder(r: Replica) {
    r.meta.Some? && r.secret.Some? ==> r.secret.value.epoch >= r.meta.value.epoch
  }

  /** Cut off or not, a command never leaves a secret older than its row. */
  lemma CutKeepsNotOlder(r: Replica, me: string, members: set<string>, now: int, c: Command, writes: nat)
    requires NotOlder(r)
    ensures NotOlder(LocalWithin(r, me, members, now, c, writes))
  {
  }

  /** A public message cut off and delivered again has its whole effect. */
  lemma RedeliveryCompletes(r: Replica, w: Wire, writes: nat)
    requires !w.KeyShareWire?
    ensures WithMeta(DeliverWithin(r, w, writes), w) == WithMeta(r, w)
  {
  }

  /**
   * Repeating a command that lost its second write has its whole effect exactly for minting,
   * rotating, deleting and a reclaim at the last epoch. An interrupted reclaim is not seen as a
   * split any more, and a holder who is leaving is refused.
   */
  lemma RetryCompletesIff(r: Replica, me: string, members: set<string>, now: int, c: Command)
    requires Writes(r, me, members, now, c) == 2
    requires r.meta.Some? ==> Distinct(r.meta.value.holders) && r.meta.value.epoch <= MAX_EPOCH
    ensures var cut := FirstWrite(r, me, members, now, c);
      Execute(cut, me, members, now, c) == Execute(r, me, members, now, c)
      <==> c.Init? || c.RotateKey? || c.DeleteRows? || (c.ReclaimIfSplit? && r.meta.value.epoch == MAX_EPOCH)
  {
    if c.RemoveHolder? {
      RetainKeepsExactly(r.meta.value.holders, h => h != c.holder);
    }
  }

  /** An interrupted reclaim leaves no usable key, and repeating it does nothing. */
  lemma InterruptedReclaimIsLost(r: Replica, me: string, now: int)
    requires IsSplit(r) && Writes(r, me, {}, now, ReclaimIfSplit) == 2 && r.meta.value.epoch < MAX_EPOCH
    ensures var cut := FirstWrite(r, me, {}, now, ReclaimIfSplit);
      && UsableInbox(cut, me).None?
      && Execute(cut, me, {}, now, ReclaimIfSplit) == Ok(Bundle(cut, [], []))
  {
  }

  // ---- Runs ------------------------------------------------------------------------------

  /** `writes` is how many durable writes go through before power is lost. */
  datatype Event =
    | Local(command: Command, members: set<string>, now: int, writes: nat)
    | Remote(wire: Wire, writes: nat)

  function React(r: Replica, me: string, e: Event): Replica {
    match e
    case Local(c, members, now, writes) => LocalWithin(r, me, members, now, c, writes)
    case Remote(w, writes) =>
      if !w.KeyShareWire? then DeliverWithin(r, w, writes)
      else if writes > 0 then Deliver(r, me, w)
      else r
  }

  function ReactAll(r: Replica, me: string, events: seq<Event>): Replica {
    if events == [] then r else React(ReactAll(r, me, events[..|events| - 1]), me, events[|events| - 1])
  }

  /** The two ways a secret comes to be older than its row: a late share is taken, or the first row is written over an older secret. */
  predicate Outdates(r: Replica, me: string, e: Event) {
    && e.Remote? && e.writes > 0
    && if e.wire.KeyShareWire? then TakesShare(r, me, e.wire) && r.meta.Some? && e.wire.epoch < r.meta.value.epoch
       else r.meta.None? && r.secret.Some? && r.secret.value.epoch < e.wire.epoch
  }

  /** Peers list each holder once, and a row is never first heard of without its holders. */
  predicate SoundLists(r: Replica, me: string, events: seq<Event>) {
    forall i | 0 <= i < |events| && events[i].Remote? && !events[i].wire.KeyShareWire? ::
      var before := ReactAll(r, me, events[..i]);
      var holders := HoldersOf(before, events[i].wire);
      Distinct(holders) && (before.meta.None? ==> holders != [])
  }

  predicate SoundRow(r: Replica) {
    r.meta.Some? ==> Distinct(r.meta.value.holders) && r.meta.value.holders != []
  }

  lemma CommandKeepsTracks(r: Replica, me: string, members: set<string>, now: int, c: Command)
    requires Tracks(r)
    ensures Tracks(After(r, Execute(r, me, members, now, c)))
  {
  }

  lemma CommandKeepsSoundRow(r: Replica, me: string, members: set<string>, now: int, c: Command)
    requires SoundRow(r)
    ensures SoundRow(After(r, Execute(r, me, members, now, c)))
  {
    if r.meta.Some? {
      var holders := r.meta.value.holders;
      match c
      case AddHolder(holder) =>
      case RemoveHolder(holder) =>
        RetainKeepsDistinct(holders, h => h != holder);
        if holder in holders {
          RetainAllButOne(holders, holder);
        }
      case RotateKey(_) =>
        RetainKeepsDistinct(holders, h => h in members);
      case _ =>
    }
  }

  lemma EventKeepsNotOlderIff(r: Replica, me: string, e: Event)
    requires NotOlder(r)
    ensures NotOlder(React(r, me, e)) <==> !Outdates(r, me, e)
  {
    match e
    case Local(c, members, now, writes) => CutKeepsNotOlder(r, me, members, now, c, writes);
    case Remote(w, writes) =>
  }

  /** At every point of the run no secret is older than its row. */
  predicate NeverOlder(r: Replica, me: string, events: seq<Event>) {
    NotOlder(ReactAll(r, me, events)) && (events != [] ==> NeverOlder(r, me, events[..|events| - 1]))
  }

  /** No event of the run outdates the secret it finds. */
  predicate NoneOutdates(r: Replica, me: string, events: seq<Event>) {
    events != [] ==>
      var n := |events| - 1;
      !Outdates(ReactAll(r, me, events[..n]), me, events[n]) && NoneOutdates(r, me, events[..n])
  }

  /**
   * Over every run of local commands and deliveries, each cut off anywhere, no secret is ever
   * older than its row if and only if no late share is taken and no first row is written over
   * an older secret.
   */
  lemma {:induction false} SecretNeverOlderIff(r: Replica, me: string, events: seq<Event>)
    requires NotOlder(r)
    ensures NeverOlder(r, me, events) <==> NoneOutdates(r, me, events)
  {
    hide NotOlder, Outdates, React;
    if events == [] {
    } else {
      var n := |events| - 1;
      SecretNeverOlderIff(r, me, events[..n]);
      if NeverOlder(r, me, events[..n]) {
        EventKeepsNotOlderIff(ReactAll(r, me, events[..n]), me, events[n]);
      }
    }
  }

  /** A share sent before a rotation this device has heard of replaces its newer key. */
  lemma LateShareReplacesNewerKey(inbox: string, next: string, me: string)
    ensures var r := Replica(Some(Meta(next, [me], 2, 0)), Some(Secret(next, 2, next)));
      var r' := React(r, me, Remote(KeyShareWire(inbox, 1, inbox), 1));
      UsableInbox(r, me) == Some(next) && UsableInbox(r', me).None? && !NotOlder(r')
  {
  }

  /** A share can come before any row; a first row of a later epoch leaves it in place. */
  lemma FirstRowKeepsOlderKey(inbox: string, next: string, me: string)
    ensures var r := React(Replica(None, None), me, Remote(KeyShareWire(inbox, 1, inbox), 1));
      var r' := React(r, me, Remote(MetaWire(next, [me], 2, 0), 2));
      r'.secret == Some(Secret(inbox, 1, inbox)) && !NotOlder(r')
  {
  }

  /** ... and the row keeps listing at least one holder, each once. */
  lemma {:induction false} HoldersStaySound(r: Replica, me: string, events: seq<Event>)
    requires SoundRow(r) && SoundLists(r, me, events)
    ensures SoundRow(ReactAll(r, me, events))
  {
    if events == [] {
    } else {
      var n := |events| - 1;
      var front := events[..n];
      forall i | 0 <= i < n
        ensures front[..i] == events[..i]
      {
      }
      HoldersStaySound(r, me, front);
      var before := ReactAll(r, me, front);
      match events[n]
      case Local(c, members, now, _) => CommandKeepsSoundRow(before, me, members, now, c);
      case Remote(_, _) =>
    }
  }

  /** Minting, rotating and reclaiming leave the actor with a key for exactly the published inbox. */
  lemma MintingLeavesUsableKey(r: Replica, me: string, members: set<string>, now: int, c: Command)
    requires (c.Init? && r.meta.None?) || c.RotateKey? || (c.ReclaimIfSplit? && IsSplit(r))
    requires Execute(r, me, members, now, c).Ok?
    ensures var b := Execute(r, me, members, now, c).value;
      && b.replica.meta.Some? && UsableInbox(b.replica, me) == Some(b.replica.meta.value.inbox)
      && AnnounceMeta(b.replica.meta.value) in b.announced
  {
    if c.RotateKey? {
      RetainKeepsExactly(r.meta.value.holders, h => h in members);
    }
  }

  /** A rotation keeps its actor and sends exactly one share to each other remaining holder. */
  lemma RotationSharesOncePerHolder(r: Replica, me: string, members: set<string>, now: int, newInbox: string)
    requires SoundRow(r) && Execute(r, me, members, now, RotateKey(newInbox)).Ok?
    ensures var b := Execute(r, me, members, now, RotateKey(newInbox)).value;
      var holders := b.replica.meta.value.holders;
      && me in holders && (forall h :: h in holders <==> h in r.meta.value.holders && h in members)
      && |b.shares| == |holders| - 1
      && (forall i, j | 0 <= i < j < |b.shares| :: b.shares[i].recipient != b.shares[j].recipient)
      && (forall h :: h in holders && h != me <==> exists i :: 0 <= i < |b.shares| && b.shares[i].recipient == h)
  {
    RotateBundle(r, me, members, now, newInbox);
    hide Execute, Retain, SharesTo;
    var all := r.meta.value.holders;
    RetainKeepsExactly(all, h => h in members);
    RetainKeepsDistinct(all, h => h in members);
    var holders := Retain(all, h => h in members);
    SharesReachOthersOnce(holders, me, KeyShareWire(newInbox, NextEpoch(r.meta.value.epoch), newInbox));
  }

  lemma RotateBundle(r: Replica, me: string, members: set<string>, now: int, newInbox: string)
    requires Execute(r, me, members, now, RotateKey(newInbox)).Ok?
    ensures r.meta.Some? && me in r.meta.value.holders && me in members
    ensures var holders, epoch := Retain(r.meta.value.holders, h => h in members), NextEpoch(r.meta.value.epoch);
      Execute(r, me, members, now, RotateKey(newInbox)).value
      == Bundle(Minted(newInbox, holders, epoch, now),
                [MetaWire(newInbox, holders, epoch, now), KeyRotatedWire(newInbox, epoch, now)],
                SharesTo(Retain(holders, h => h != me), KeyShareWire(newInbox, epoch, newInbox)))
  {
  }

  lemma SharesReachOthersOnce(holders: seq<string>, me: string, w: Wire)
    requires Distinct(holders) && me in holders
    ensures var shares := SharesTo(Retain(holders, h => h != me), w);
      && |shares| == |holders| - 1
      && (forall i, j | 0 <= i < j < |shares| :: shares[i].recipient != shares[j].recipient)
      && (forall h :: h in holders && h != me <==> exists i :: 0 <= i < |shares| && shares[i].recipient == h)
  {
    var others := Retain(holders, h => h != me);
    var shares := SharesTo(others, w);
    RetainKeepsExactly(holders, h => h != me);
    RetainKeepsDistinct(holders, h => h != me);
    RetainAllButOne(holders, me);
    forall h | h in holders && h != me
      ensures exists i :: 0 <= i < |shares| && shares[i].recipient == h
    {
      assert h in others;
      var i :| 0 <= i < |others| && others[i] == h;
      assert shares[i].recipient == h;
    }
    forall i | 0 <= i < |shares|
      ensures shares[i].recipient in holders && shares[i].recipient != me
    {
      assert others[i] in others;
    }
  }

  /**
   * End to end: every other device that was listed and stays listed can act for the new inbox
   * once the rotation's messages have reached it, in any order and with any repeats.
   */
  lemma RotationReachesEveryHolder(r: Replica, me: string, members: set<string>, now: int, newInbox: string,
      theirs: Replica, you: string, ws: seq<Wire>)
    requires SoundRow(r) && r.meta.Some? && r.meta.value.epoch < MAX_EPOCH
    requires Execute(r, me, members, now, RotateKey(newInbox)).Ok?
    requires you != me && you in members && you in r.meta.value.holders
    requires theirs.meta.Some? && theirs.meta.value.epoch <= r.meta.value.epoch && you in theirs.meta.value.holders
    requires var b := Execute(r, me, members, now, RotateKey(newInbox)).value;
      forall w :: w in ws <==> w in b.announced || exists i :: 0 <= i < |b.shares| && b.shares[i].recipient == you && b.shares[i].wire == w
    ensures UsableInbox(DeliverAll(theirs, you, ws), you) == Some(newInbox)
    ensures DeliverAll(theirs, you, ws).meta == Execute(r, me, members, now, RotateKey(newInbox)).value.replica.meta
  {
    var b := Execute(r, me, members, now, RotateKey(newInbox)).value;
    var m := b.replica.meta.value;
    RotationSharesOncePerHolder(r, me, members, now, newInbox);
    assert you in m.holders;
    var i :| 0 <= i < |b.shares| && b.shares[i].recipient == you;
    forall w
      ensures w in ws <==> IsRotation(w, newInbox, m.holders, m.epoch, now)
    {
      assert b.shares[i].wire == KeyShareWire(newInbox, m.epoch, newInbox);
    }
    RotationArrivesInAnyOrder(theirs, you, ws, newInbox, m.holders, m.epoch, now);
  }

  // ---- What a command does and says ------------------------------------------------------

  /** The row a successful command leaves its actor. */
  lemma OwnRowAfter(r: Replica, me: string, members: set<string>, now: int, c: Command)
    requires Execute(r, me, members, now, c).Ok?
    ensures var r' := Execute(r, me, members, now, c).value.replica;
      match c
      case Init(_, inbox) =>
        if r.meta.Some? then r' == r else r'.meta == Some(Meta(inbox, [me], 1, now)) && r'.secret == Some(Secret(inbox, 1, inbox))
      case AddHolder(h) =>
        && r.meta.Some? && r'.meta.Some? && r'.secret == r.secret
        && (forall x :: x in r'.meta.value.holders <==> x in r.meta.value.holders || x == h)
        && (h in r.meta.value.holders ==> r' == r)
        && (h !in r.meta.value.holders ==>
              |r'.meta.value.holders| == |r.meta.value.holders| + 1
              && r'.meta.value.(holders := []) == r.meta.value.(holders := [], updatedAt := now))
      case RemoveHolder(h) =>
        && r.meta.Some? && r'.meta.Some? && h in r.meta.value.holders
        && (forall x :: x in r'.meta.value.holders <==> x in r.meta.value.holders && x != h)
        && r'.meta.value.(holders := []) == r.meta.value.(holders := [], updatedAt := now)
        && r'.secret == if h == me then None else r.secret
      case RotateKey(inbox) =>
        && r.meta.Some? && r'.meta.Some? && r'.meta.value.inbox == inbox && r'.meta.value.updatedAt == now
        && r'.meta.value.epoch == (if r.meta.value.epoch < MAX_EPOCH then r.meta.value.epoch + 1 else r.meta.value.epoch)
        && (forall x :: x in r'.meta.value.holders <==> x in r.meta.value.holders && x in members)
        && r'.secret == Some(Secret(inbox, r'.meta.value.epoch, inbox))
      case ReclaimIfSplit =>
        && r.meta.Some?
        && if r.secret.Some? && r.secret.value.epoch == r.meta.value.epoch && r.secret.value.inbox != r.meta.value.inbox
           then
             var inbox, epoch := r.secret.value.inbox, if r.meta.value.epoch < MAX_EPOCH then r.meta.value.epoch + 1 else r.meta.value.epoch;
             r'.meta == Some(Meta(inbox, [me], epoch, now)) && r'.secret == Some(Secret(inbox, epoch, inbox))
           else r' == r
      case DeleteRows => r' == Replica(None, None)
  {
    if c.RemoveHolder? {
      RetainKeepsExactly(r.meta.value.holders, h => h != c.holder);
    } else if c.RotateKey? {
      RetainKeepsExactly(r.meta.value.holders, h => h in members);
    }
  }

  /** When a command is refused; a stranger may not mint, and only members are added. */
  lemma RefusedIff(r: Replica, me: string, members: set<string>, now: int, c: Command)
    ensures var listed := r.meta.Some? && me in r.meta.value.holders;
      Execute(r, me, members, now, c).Ok? <==>
        match c
        case Init(creator, _) => r.meta.Some? || creator == None || creator == Some("") || creator == Some(me)
        case AddHolder(h) => h in members && me in members && listed && r.secret.Some?
        case RemoveHolder(h) => me in members && listed && h in r.meta.value.holders && |r.meta.value.holders| > 1
        case RotateKey(_) => me in members && listed && r.secret.Some?
        case ReclaimIfSplit =>
          r.meta.Some? && (r.secret.Some? && r.secret.value.epoch == r.meta.value.epoch && r.secret.value.inbox != r.meta.value.inbox
                           ==> r.secret.value.opens == r.secret.value.inbox)
        case DeleteRows => true
    ensures c.Init? && Execute(r, me, members, now, c).Err? ==> Execute(r, me, members, now, c) == Err(NotCreator)
    ensures c.AddHolder? && c.holder !in members ==> Execute(r, me, members, now, c) == Err(HolderNotMember)
    ensures c.RemoveHolder? && me in members && r.meta.Some? && r.meta.value.holders == [me] && c.holder == me ==>
      Execute(r, me, members, now, c) == Err(LastHolder)
  {
    if c.RotateKey? && r.meta.Some? {
      RetainKeepsExactly(r.meta.value.holders, h => h in members);
    }
  }

  /**
   * What a successful command announces is its own new row: a device that held the actor's old
   * row, or none when the actor held none, holds the new one once it has received what was
   * announced, in any order and with any repeats.
   */
  lemma AnnouncedRowArrives(r: Replica, me: string, members: set<string>, now: int, c: Command, theirs: Replica, you: string, ws: seq<Wire>)
    requires SoundRow(r) && Execute(r, me, members, now, c).Ok? && !c.DeleteRows?
    requires c.RotateKey? || (c.ReclaimIfSplit? && IsSplit(r)) ==> r.meta.value.epoch < MAX_EPOCH
    requires theirs.meta == r.meta
    requires forall w :: w in ws <==> w in Execute(r, me, members, now, c).value.announced
    ensures DeliverAll(theirs, you, ws).meta == Execute(r, me, members, now, c).value.replica.meta
  {
    var b := Execute(r, me, members, now, c).value;
    assert forall i | 0 <= i < |ws| :: ws[i] in ws;
    AnnouncedIs(r, me, members, now, c);
    assert ws != [] ==> ws[0] in ws;
    if b.announced == [] {
      assert ws == [];
    } else {
      assert AnnounceMeta(b.replica.meta.value) in b.announced;
      NewRowSpreads(r.meta, theirs, you, ws, b.replica.meta.value);
    }
  }

  lemma AnnouncedIs(r: Replica, me: string, members: set<string>, now: int, c: Command)
    requires SoundRow(r) && Execute(r, me, members, now, c).Ok? && !c.DeleteRows?
    requires c.RotateKey? || (c.ReclaimIfSplit? && IsSplit(r)) ==> r.meta.value.epoch < MAX_EPOCH
    ensures var b := Execute(r, me, members, now, c).value;
      if b.announced == [] then b.replica.meta == r.meta
      else
        && b.replica.meta.Some? && Succeeds(r.meta, b.replica.meta.value) && AnnounceMeta(b.replica.meta.value) in b.announced
        && forall w | w in b.announced :: Spreads(r.meta, b.replica.meta.value, w)
  {
    CommandKeepsSoundRow(r, me, members, now, c);
    if c.RemoveHolder? {
      RetainKeepsExactly(r.meta.value.holders, h => h != c.holder);
    }
  }

  function NoticeOf(m: Meta): Wire {
    KeyRotatedWire(m.inbox, m.epoch, m.updatedAt)
  }

  /** The row comes after another one: there was none, or an earlier epoch, or other holders for the same inbox. */
  predicate Succeeds(before: Option<Meta>, m: Meta) {
    && m.holders != []
    && (before.Some? ==>
          || before.value.epoch < m.epoch
          || (before.value.epoch == m.epoch && before.value.inbox == m.inbox && before.value.holders != m.holders))
  }

  /** How far a new row has got on a device that held the old one. */
  predicate RowSpread(before: Option<Meta>, m: Meta, row: Option<Meta>, announced: bool) {
    if announced then row == Some(m)
    else row == before || (before.Some? && before.value.epoch < m.epoch && row == Some(Meta(m.inbox, before.value.holders, m.epoch, m.updatedAt)))
  }

  predicate Spreads(before: Option<Meta>, m: Meta, w: Wire) {
    w == AnnounceMeta(m) || (w == NoticeOf(m) && before.Some? && before.value.epoch < m.epoch)
  }

  lemma RowSpreadStep(before: Option<Meta>, m: Meta, r: Replica, you: string, w: Wire, announced: bool)
    requires Succeeds(before, m) && Spreads(before, m, w) && RowSpread(before, m, r.meta, announced)
    ensures RowSpread(before, m, Deliver(r, you, w).meta, announced || w == AnnounceMeta(m))
  {
  }

  lemma {:induction false} NewRowSpreads(before: Option<Meta>, theirs: Replica, you: string, ws: seq<Wire>, m: Meta)
    requires theirs.meta == before && Succeeds(before, m) && forall i | 0 <= i < |ws| :: Spreads(before, m, ws[i])
    ensures RowSpread(before, m, DeliverAll(theirs, you, ws).meta, AnnounceMeta(m) in ws)
  {
    hide Spreads, Succeeds, Deliver;
    if ws == [] {
    } else {
      var n := |ws| - 1;
      assert ws == ws[..n] + [ws[n]];
      NewRowSpreads(before, theirs, you, ws[..n], m);
      RowSpreadStep(before, m, DeliverAll(theirs, you, ws[..n]), you, ws[n], AnnounceMeta(m) in ws[..n]);
    }
  }

  /** What adding a holder sends them. */
  function AddedOffer(r: Replica, now: int, holder: string): Offer
    requires r.meta.Some? && r.secret.Some?
  {
    var m := r.meta.value;
    Offer(m.inbox, m.holders + [holder], m.epoch, now, r.secret.value.opens, false)
  }

  /**
   * Adding a holder sends an announcement and a share. Every order of the two leaves the new
   * holder's device with a key for the inbox if and only if it has that key already, or the
   * sender's key opens the inbox and no row of theirs fails to list them.
   */
  lemma AddedHolderCanUseShareIff(r: Replica, me: string, members: set<string>, now: int, holder: string, theirs: Replica)
    requires r.meta.Some? && holder !in r.meta.value.holders
    requires Execute(r, me, members, now, AddHolder(holder)).Ok?
    ensures r.secret.Some?
    ensures var b, o := Execute(r, me, members, now, AddHolder(holder)).value, AddedOffer(r, now, holder);
      && b.announced == [o.Announcement()] && b.shares == [Share(holder, o.KeyShare())]
      && ((forall ws | Delivers(o, ws) :: UsableInbox(DeliverAll(theirs, holder, ws), holder) == Some(r.meta.value.inbox))
          <==> KeyArrives(theirs, holder, o))
  {
    KeyArrivesIff(theirs, holder, AddedOffer(r, now, holder));
  }

  /** What a rotation sends each other holder. */
  function RotatedOffer(r: Replica, members: set<string>, now: int, newInbox: string): Offer
    requires r.meta.Some?
  {
    Offer(newInbox, Retain(r.meta.value.holders, h => h in members), NextEpoch(r.meta.value.epoch), now, newInbox, true)
  }

  /**
   * Every order of a rotation's messages leaves a holder's device with a key for the new inbox
   * if and only if it has that key already, or its row, not newer, lists it beforehand.
   */
  lemma RotationReachesIff(r: Replica, me: string, members: set<string>, now: int, newInbox: string, theirs: Replica, you: string)
    requires SoundRow(r) && Execute(r, me, members, now, RotateKey(newInbox)).Ok?
    requires r.meta.Some? && you != me && you in members && you in r.meta.value.holders
    ensures var b, o := Execute(r, me, members, now, RotateKey(newInbox)).value, RotatedOffer(r, members, now, newInbox);
      && b.announced == [o.Announcement(), o.Notice()] && (exists i :: 0 <= i < |b.shares| && b.shares[i] == Share(you, o.KeyShare()))
      && ((forall ws | Delivers(o, ws) :: UsableInbox(DeliverAll(theirs, you, ws), you) == Some(newInbox)) <==> KeyArrives(theirs, you, o))
  {
    RotationSharesOncePerHolder(r, me, members, now, newInbox);
    RotateBundle(r, me, members, now, newInbox);
    var b, o := Execute(r, me, members, now, RotateKey(newInbox)).value, RotatedOffer(r, members, now, newInbox);
    RetainKeepsExactly(r.meta.value.holders, h => h in members);
    assert you in b.replica.meta.value.holders;
    var i :| 0 <= i < |b.shares| && b.shares[i].recipient == you;
    assert b.shares[i].wire == o.KeyShare();
    KeyArrivesIff(theirs, you, o);
  }
}
