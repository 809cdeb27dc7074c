/**
 * One squad's join inbox on one device: the replicated meta row and the local secret, and
 * what deliveries and local commands do to them.
 */
module JoinInboxSpec {
  import opened Wrappers

  const MAX_EPOCH: int := 0x7FFF_FFFF_FFFF_FFFF

  datatype Meta = Meta(inbox: string, holders: seq<string>, epoch: int, updatedAt: int)

  /** `opens` is the inbox the stored key really belongs to. */
  datatype Secret = Secret(inbox: string, epoch: int, opens: string)

  datatype Replica = Replica(meta: Option<Meta>, secret: Option<Secret>)

  datatype Wire =
    | MetaWire(inbox: string, holders: seq<string>, epoch: int, updatedAt: int)
    | KeyRotatedWire(inbox: string, epoch: int, updatedAt: int)
    | KeyShareWire(inbox: string, epoch: int, opens: string)

  /** The holders a public message stands for on this device. */
  function HoldersOf(r: Replica, w: Wire): seq<string>
    requires !w.KeyShareWire?
  {
    if w.MetaWire? then w.holders else if r.meta.Some? then r.meta.value.holders else []
  }

  /** Whether a public message changes the row: a later epoch, or news about the same inbox. */
  predicate Supersedes(r: Replica, w: Wire)
    requires !w.KeyShareWire?
  {
    r.meta.None? || w.epoch > r.meta.value.epoch
    || (w.epoch == r.meta.value.epoch && w.inbox == r.meta.value.inbox
        && (w.updatedAt > r.meta.value.updatedAt || HoldersOf(r, w) != r.meta.value.holders))
  }

  /** The row and the secret after a public message. */
  function WithMeta(r: Replica, w: Wire): Replica
    requires !w.KeyShareWire?
  {
    if !Supersedes(r, w) then r
    else
      var holders := if HoldersOf(r, w) == [] && r.meta.Some? then r.meta.value.holders else HoldersOf(r, w);
      var outdated := r.meta.Some? && w.epoch > r.meta.value.epoch && r.secret.Some? && r.secret.value.epoch < w.epoch;
      Replica(Some(Meta(w.inbox, holders, w.epoch, w.updatedAt)), if outdated then None else r.secret)
  }

  predicate TakesShare(r: Replica, me: string, w: Wire) {
    w.KeyShareWire? && w.opens == w.inbox && (r.meta.Some? ==> me in r.meta.value.holders)
  }

  /** Any message from the network; a share that is refused leaves no trace. */
  function Deliver(r: Replica, me: string, w: Wire): Replica {
    if !w.KeyShareWire? then WithMeta(r, w)
    else if TakesShare(r, me, w) then r.(secret := Some(Secret(w.inbox, w.epoch, w.opens)))
    else r
  }

  function DeliverAll(r: Replica, me: string, ws: seq<Wire>): Replica {
    if ws == [] then r else Deliver(DeliverAll(r, me, ws[..|ws| - 1]), me, ws[|ws| - 1])
  }

  /** The inbox this device can act for, if its row lists it and its secret matches the row. */
  function UsableInbox(r: Replica, me: string): Option<string> {
    if && r.meta.Some? && me in r.meta.value.holders && r.secret.Some?
       && r.secret.value.inbox == r.meta.value.inbox && r.secret.value.epoch == r.meta.value.epoch
       && r.secret.value.opens == r.meta.value.inbox
    then Some(r.meta.value.inbox) else None
  }

  // ---- A rotation's three messages -------------------------------------------------------

  ghost predicate IsRotation(w: Wire, inbox: string, holders: seq<string>, epoch: int, updatedAt: int) {
    w in {MetaWire(inbox, holders, epoch, updatedAt), KeyRotatedWire(inbox, epoch, updatedAt), KeyShareWire(inbox, epoch, inbox)}
  }

  /** What a device that started from `r` holds, by which of the rotation's messages it has seen. */
  ghost predicate Rotated(r: Replica, r': Replica, inbox: string, holders: seq<string>, epoch: int, updatedAt: int,
      sawMeta: bool, sawRotated: bool, sawShare: bool)
    requires r.meta.Some?
  {
    && r'.meta == (if sawMeta then Some(Meta(inbox, holders, epoch, updatedAt))
                   else if sawRotated then Some(Meta(inbox, r.meta.value.holders, epoch, updatedAt))
                   else r.meta)
    && (sawShare ==> r'.secret == Some(Secret(inbox, epoch, inbox)))
  }

  lemma RotationStep(r: Replica, r': Replica, me: string, w: Wire, inbox: string, holders: seq<string>, epoch: int,
      updatedAt: int, m: bool, k: bool, s: bool)
    requires r.meta.Some? && r.meta.value.epoch < epoch && me in r.meta.value.holders && me in holders
    requires Rotated(r, r', inbox, holders, epoch, updatedAt, m, k, s) && IsRotation(w, inbox, holders, epoch, updatedAt)
    ensures Rotated(r, Deliver(r', me, w), inbox, holders, epoch, updatedAt, m || w.MetaWire?, k || w.KeyRotatedWire?, s || w.KeyShareWire?)
  {
  }

  lemma {:induction false} RotationSoFar(r: Replica, me: string, ws: seq<Wire>, inbox: string, holders: seq<string>,
      epoch: int, updatedAt: int)
    requires r.meta.Some? && r.meta.value.epoch < epoch && me in r.meta.value.holders && me in holders
    requires forall i | 0 <= i < |ws| :: IsRotation(ws[i], inbox, holders, epoch, updatedAt)
    ensures Rotated(r, DeliverAll(r, me, ws), inbox, holders, epoch, updatedAt,
      MetaWire(inbox, holders, epoch, updatedAt) in ws, KeyRotatedWire(inbox, epoch, updatedAt) in ws,
        KeyShareWire(inbox, epoch, inbox) in ws)
  {
    if ws == [] {
    } else {
      var n := |ws| - 1;
      var front := ws[..n];
      assert ws == front + [ws[n]];
      RotationSoFar(r, me, front, inbox, holders, epoch, updatedAt);
      RotationStep(r, DeliverAll(r, me, front), me, ws[n], inbox, holders, epoch, updatedAt,
        MetaWire(inbox, holders, epoch, updatedAt) in front, KeyRotatedWire(inbox, epoch, updatedAt) in front,
          KeyShareWire(inbox, epoch, inbox) in front);
      hide Deliver, Rotated;
      assert IsRotation(ws[n], inbox, holders, epoch, updatedAt);
    }
  }

  /**
   * Delivered in any order, and with any repeats, a rotation's three messages leave the same
   * row and the same usable key on every device listed both before and after.
   */
  lemma RotationArrivesInAnyOrder(r: Replica, me: string, ws: seq<Wire>, inbox: string, holders: seq<string>, epoch: int, updatedAt: int)
    requires r.meta.Some? && r.meta.value.epoch < epoch && me in r.meta.value.holders && me in holders
    requires forall w :: w in ws <==> IsRotation(w, inbox, holders, epoch, updatedAt)
    ensures DeliverAll(r, me, ws) == Replica(Some(Meta(inbox, holders, epoch, updatedAt)), Some(Secret(inbox, epoch, inbox)))
    ensures UsableInbox(DeliverAll(r, me, ws), me) == Some(inbox)
  {
    assert forall i | 0 <= i < |ws| :: ws[i] in ws;
    RotationSoFar(r, me, ws, inbox, holders, epoch, updatedAt);
    assert IsRotation(MetaWire(inbox, holders, epoch, updatedAt), inbox, holders, epoch, updatedAt);
    assert IsRotation(KeyShareWire(inbox, epoch, inbox), inbox, holders, epoch, updatedAt);
  }

  // ---- What deliveries keep ---------------------------------------------------------------

  /** A row that lists holders never ends up listing none, whatever is delivered. */
  lemma {:induction false} HoldersAreNeverEmptied(r: Replica, me: string, ws: seq<Wire>)
    requires r.meta.Some? && r.meta.value.holders != []
    ensures var r' := DeliverAll(r, me, ws); r'.meta.Some? && r'.meta.value.holders != [] && r'.meta.value.epoch >= r.meta.value.epoch
  {
    if ws == [] {
    } else {
      HoldersAreNeverEmptied(r, me, ws[..|ws| - 1]);
    }
  }

  // ---- The secret tracks the row ---------------------------------------------------------

  /** There is a row for every secret, and no secret is older than its row. */
  predicate Tracks(r: Replica) {
    r.secret.Some? ==> r.meta.Some? && r.secret.value.epoch >= r.meta.value.epoch
  }

  /** A key share keeps the secret in step exactly when it is refused or its epoch is not below the row's. */
  lemma ShareKeepsTracksIff(r: Replica, me: string, w: Wire)
    requires Tracks(r) && w.KeyShareWire?
    ensures Tracks(Deliver(r, me, w)) <==> !TakesShare(r, me, w) || (r.meta.Some? && w.epoch >= r.meta.value.epoch)
  {
  }

  /** A public message never leaves an older secret behind, unless it creates the row over one. */
  lemma MetaKeepsTracksIff(r: Replica, w: Wire)
    requires !w.KeyShareWire? && (r.meta.Some? ==> Tracks(r))
    ensures Tracks(WithMeta(r, w)) <==> !(r.meta.None? && r.secret.Some? && r.secret.value.epoch < w.epoch)
  {
  }

  predicate Distinct(holders: seq<string>) {
    forall i, j | 0 <= i < j < |holders| :: holders[i] != holders[j]
  }

  function NextEpoch(epoch: int): int {
    if epoch >= MAX_EPOCH then epoch else epoch + 1
  }

  /** The holders that satisfy `keep`, in order. */
  function Retain(holders: seq<string>, keep: string -> bool): seq<string> {
    if holders == [] then []
    else Retain(holders[..|holders| - 1], keep) + if keep(holders[|holders| - 1]) then [holders[|holders| - 1]] else []
  }

  lemma {:induction false} RetainKeepsExactly(holders: seq<string>, keep: string -> bool)
    ensures forall h :: h in Retain(holders, keep) <==> h in holders && keep(h)
    ensures |Retain(holders, keep)| <= |holders|
    ensures |Retain(holders, keep)| == |holders| <==> forall h | h in holders :: keep(h)
  {
    if holders == [] {
    } else {
      var n := |holders| - 1;
      RetainKeepsExactly(holders[..n], keep);
      assert holders == holders[..n] + [holders[n]];
    }
  }

  lemma {:induction false} RetainKeepsDistinct(holders: seq<string>, keep: string -> bool)
    requires Distinct(holders)
    ensures Distinct(Retain(holders, keep))
  {
    if holders == [] {
    } else {
      var n := |holders| - 1;
      RetainKeepsDistinct(holders[..n], keep);
      RetainKeepsExactly(holders[..n], keep);
      var front := Retain(holders[..n], keep);
      assert forall i | 0 <= i < |front| :: front[i] in front;
    }
  }

  lemma {:induction false} RetainAllButOne(holders: seq<string>, out: string)
    requires Distinct(holders) && out in holders
    ensures |Retain(holders, h => h != out)| == |holders| - 1
  {
    var n := |holders| - 1;
    assert holders == holders[..n] + [holders[n]];
    if holders[n] == out {
      RetainKeepsExactly(holders[..n], h => h != out);
    } else {
      RetainAllButOne(holders[..n], out);
    }
  }
}
