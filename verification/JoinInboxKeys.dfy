/** Whether a key that is announced and shared with a device reaches it, by what the device held before. */
module JoinInboxKeys {
  import opened Wrappers
  import opened JoinInboxSpec

  /** A row announced to a device and the key shared with it; a rotation sends a notice besides. */
  datatype Offer = Offer(inbox: string, holders: seq<string>, epoch: int, updatedAt: int, opens: string, notice: bool)
  {
    function Announcement(): Wire {
      MetaWire(inbox, holders, epoch, updatedAt)
    }

    function Notice(): Wire {
      KeyRotatedWire(inbox, epoch, updatedAt)
    }

    function KeyShare(): Wire {
      KeyShareWire(inbox, epoch, opens)
    }

    predicate Sends(w: Wire) {
      w == Announcement() || w == KeyShare() || (notice && w == Notice())
    }
  }

  /** All of an offer's messages, in any order and with any repeats. */
  ghost predicate Delivers(o: Offer, ws: seq<Wire>) {
    forall w :: w in ws <==> o.Sends(w)
  }

  predicate HasKey(r: Replica, o: Offer) {
    r.secret == Some(Secret(o.inbox, o.epoch, o.inbox))
  }

  /** No order of arrival can make the device refuse the share: its row lists it, or none is made before the announcement. */
  predicate TakesShareAlways(r: Replica, me: string, o: Offer) {
    o.opens == o.inbox && if r.meta.None? then !o.notice else me in r.meta.value.holders
  }

  /** What the device must hold beforehand for the key to be of use whatever comes first. */
  predicate KeyArrives(r: Replica, me: string, o: Offer) {
    if r.meta.Some? && r.meta.value.epoch > o.epoch then o.opens != o.inbox && UsableInbox(r, me) == Some(o.inbox)
    else (r.meta.Some? && r.meta.value.epoch == o.epoch ==> r.meta.value.inbox == o.inbox) && (HasKey(r, o) || TakesShareAlways(r, me, o))
  }

  /** A device that started from `r`, no newer than the offer, after some of the offer's messages. */
  predicate Arriving(r: Replica, r': Replica, me: string, o: Offer, announced: bool, shared: bool) {
    && (r'.meta.Some? ==> r'.meta.value.epoch <= o.epoch && (r'.meta.value.epoch == o.epoch ==> r'.meta.value.inbox == o.inbox))
    && (announced ==> r'.meta.Some? && r'.meta.value.epoch == o.epoch && me in r'.meta.value.holders)
    && (o.opens == o.inbox && r'.meta.Some? && r.meta.Some? && me in r.meta.value.holders ==> me in r'.meta.value.holders)
    && (r.meta.None? && !o.notice && r'.meta.Some? ==> me in r'.meta.value.holders)
    && (r.meta.Some? ==> r'.meta.Some?)
    && (HasKey(r, o) ==> HasKey(r', o))
    && (shared && TakesShareAlways(r, me, o) ==> HasKey(r', o))
  }

  lemma ArrivingStep(r: Replica, r': Replica, me: string, o: Offer, announced: bool, shared: bool, w: Wire)
    requires me in o.holders && o.Sends(w) && Arriving(r, r', me, o, announced, shared)
    ensures Arriving(r, Deliver(r', me, w), me, o, announced || w.MetaWire?, shared || w.KeyShareWire?)
  {
  }

  lemma {:induction false} ArrivingSoFar(r: Replica, me: string, o: Offer, ws: seq<Wire>)
    requires me in o.holders && forall i | 0 <= i < |ws| :: o.Sends(ws[i])
    requires r.meta.Some? ==> r.meta.value.epoch <= o.epoch && (r.meta.value.epoch == o.epoch ==> r.meta.value.inbox == o.inbox)
    ensures Arriving(r, DeliverAll(r, me, ws), me, o, o.Announcement() in ws, o.KeyShare() in ws)
  {
    if ws == [] {
    } else {
      var n := |ws| - 1;
      var front := ws[..n];
      assert ws == front + [ws[n]];
      ArrivingSoFar(r, me, o, front);
      ArrivingStep(r, DeliverAll(r, me, front), me, o, o.Announcement() in front, o.KeyShare() in front, ws[n]);
      hide Arriving;
      assert o.Sends(ws[n]);
    }
  }

  /** A row newer than the offer is untouched by it. */
  lemma {:induction false} NewerRowStays(r: Replica, me: string, o: Offer, ws: seq<Wire>)
    requires r.meta.Some? && r.meta.value.epoch > o.epoch && o.opens != o.inbox
    requires forall i | 0 <= i < |ws| :: o.Sends(ws[i])
    ensures DeliverAll(r, me, ws) == r
  {
    if ws == [] {
    } else {
      NewerRowStays(r, me, o, ws[..|ws| - 1]);
      assert o.Sends(ws[|ws| - 1]);
    }
  }

  /** The order that loses a key: notice, share, announcement. */
  function WorstOrder(o: Offer): seq<Wire> {
    (if o.notice then [o.Notice()] else []) + [o.KeyShare(), o.Announcement()]
  }

  lemma DeliverThree(r: Replica, me: string, a: Wire, b: Wire, c: Wire)
    ensures DeliverAll(r, me, [b, c]) == Deliver(Deliver(r, me, b), me, c)
    ensures DeliverAll(r, me, [a, b, c]) == Deliver(Deliver(Deliver(r, me, a), me, b), me, c)
  {
    assert [b, c][..1] == [b] && [b][..0] == [] && [a, b, c][..2] == [a, b] && [a, b][..1] == [a] && [a][..0] == [];
    assert DeliverAll(r, me, []) == r;
    assert DeliverAll(r, me, [b]) == Deliver(r, me, b);
    assert DeliverAll(r, me, [a]) == Deliver(r, me, a);
    assert DeliverAll(r, me, [a, b]) == Deliver(Deliver(r, me, a), me, b);
  }

  lemma WorstOrderLoses(r: Replica, me: string, o: Offer)
    requires !KeyArrives(r, me, o)
    ensures Delivers(o, WorstOrder(o)) && UsableInbox(DeliverAll(r, me, WorstOrder(o)), me) != Some(o.inbox)
  {
    DeliverThree(r, me, o.Notice(), o.KeyShare(), o.Announcement());
    assert WorstOrder(o) == if o.notice then [o.Notice(), o.KeyShare(), o.Announcement()] else [o.KeyShare(), o.Announcement()];
    hide DeliverAll;
  }

  /**
   * Every order of an offer's messages leaves a listed device with a key it can use if and only
   * if it has that key already, or no order makes it refuse the share: a share that comes while
   * the row does not list the device is refused, and nothing brings it back.
   */
  lemma KeyArrivesIff(r: Replica, me: string, o: Offer)
    requires me in o.holders
    ensures (forall ws | Delivers(o, ws) :: UsableInbox(DeliverAll(r, me, ws), me) == Some(o.inbox)) <==> KeyArrives(r, me, o)
  {
    if KeyArrives(r, me, o) {
      forall ws | Delivers(o, ws)
        ensures UsableInbox(DeliverAll(r, me, ws), me) == Some(o.inbox)
      {
        assert forall i | 0 <= i < |ws| :: ws[i] in ws;
        assert o.Sends(o.Announcement()) && o.Sends(o.KeyShare());
        if r.meta.Some? && r.meta.value.epoch > o.epoch {
          NewerRowStays(r, me, o, ws);
        } else {
          ArrivingSoFar(r, me, o, ws);
        }
      }
    } else {
      WorstOrderLoses(r, me, o);
    }
  }

  /** A member's device holds the row without the new holder: the share is lost when it comes first, and kept when it comes second. */
  lemma EarlyShareIsLost(m: Meta, me: string, o: Offer)
    requires !o.notice && o.opens == o.inbox && me in o.holders && me !in m.holders
    requires m.inbox == o.inbox && m.epoch == o.epoch
    ensures var before := Replica(Some(m), None);
      && UsableInbox(DeliverAll(before, me, [o.KeyShare(), o.Announcement()]), me).None?
      && UsableInbox(DeliverAll(before, me, [o.Announcement(), o.KeyShare()]), me) == Some(o.inbox)
  {
    var before := Replica(Some(m), None);
    DeliverThree(before, me, o.Notice(), o.KeyShare(), o.Announcement());
    DeliverThree(before, me, o.Notice(), o.Announcement(), o.KeyShare());
    assert Deliver(before, me, o.KeyShare()) == before;
    assert Deliver(before, me, o.Announcement()).meta == Some(Meta(o.inbox, o.holders, o.epoch, o.updatedAt));
  }
}
