/**
 * The join-inbox tables of one device and the procedures that write them row by row. Each
 * procedure is proved to do to its squad's rows what `JoinInboxSpec` and `JoinInboxCommands`
 * describe, wherever its durable writes stop, and nothing to any other squad's.
 * `writesLeft` is how many more durable writes complete before power is lost.
 */
module JoinInbox {
  import opened Wrappers
  import opened JoinInboxSpec
  import opened JoinInboxCommands

  class JoinInboxTables {
    const me: string
    var metas: map<string, Meta>
    var secrets: map<string, Secret>
    var writesLeft: nat

    constructor (me: string, writesLeft: nat)
      ensures this.me == me && metas == map[] && secrets == map[] && this.writesLeft == writesLeft
    {
      this.me, metas, secrets, this.writesLeft := me, map[], map[], writesLeft;
    }

    /** The rows of one squad. */
    function Of(squad: string): Replica
      reads this
    {
      Replica(if squad in metas then Some(metas[squad]) else None, if squad in secrets then Some(secrets[squad]) else None)
    }

    twostate predicate OthersUnchanged(squad: string)
      reads this
    {
      forall s | s != squad :: Of(s) == old(Of(s))
    }

    method StoreSecret(squad: string, inbox: string, epoch: int, opens: string) returns (ok: bool)
      modifies this`secrets, this`writesLeft
      ensures ok <==> old(writesLeft) > 0
      ensures writesLeft == if ok then old(writesLeft) - 1 else 0
      ensures secrets == if ok then old(secrets)[squad := Secret(inbox, epoch, opens)] else old(secrets)
    {
      ok := writesLeft > 0;
      if ok {
        secrets, writesLeft := secrets[squad := Secret(inbox, epoch, opens)], writesLeft - 1;
      }
    }

    method UpsertMeta(squad: string, inbox: string, holders: seq<string>, epoch: int, updatedAt: int) returns (ok: bool)
      modifies this`metas, this`writesLeft
      ensures ok <==> old(writesLeft) > 0
      ensures writesLeft == if ok then old(writesLeft) - 1 else 0
      ensures metas == if ok then old(metas)[squad := Meta(inbox, holders, epoch, updatedAt)] else old(metas)
    {
      ok := writesLeft > 0;
      if ok {
        metas, writesLeft := metas[squad := Meta(inbox, holders, epoch, updatedAt)], writesLeft - 1;
      }
    }

    method DeleteSecret(squad: string) returns (ok: bool)
      modifies this`secrets, this`writesLeft
      ensures ok <==> old(writesLeft) > 0
      ensures writesLeft == if ok then old(writesLeft) - 1 else 0
      ensures secrets == if ok then old(secrets) - {squad} else old(secrets)
    {
      ok := writesLeft > 0;
      if ok {
        secrets, writesLeft := secrets - {squad}, writesLeft - 1;
      }
    }

    method DeleteMeta(squad: string) returns (ok: bool)
      modifies this`metas, this`writesLeft
      ensures ok <==> old(writesLeft) > 0
      ensures writesLeft == if ok then old(writesLeft) - 1 else 0
      ensures metas == if ok then old(metas) - {squad} else old(metas)
    {
      ok := writesLeft > 0;
      if ok {
        metas, writesLeft := metas - {squad}, writesLeft - 1;
      }
    }

    /** Keeps the holders satisfying the filter, in order. */
    method RetainHolders(holders: seq<string>, keep: string -> bool) returns (kept: seq<string>)
      ensures kept == Retain(holders, keep)
    {
      kept := [];
      var i := 0;
      while i < |holders|
        invariant 0 <= i <= |holders| && kept == Retain(holders[..i], keep)
      {
        assert holders[..i + 1][..i] == holders[..i];
        if keep(holders[i]) {
          kept := kept + [holders[i]];
        }
        i := i + 1;
      }
      assert holders[..|holders|] == holders;
    }

    /** Applies a public meta or rotation announcement; the result says whether the row was written, None when a write was lost. */
    method ApplyMeta(squad: string, w: Wire) returns (written: Option<bool>)
      requires !w.KeyShareWire?
      modifies this
      ensures Of(squad) == DeliverWithin(old(Of(squad)), w, old(writesLeft)) && OthersUnchanged(squad)
      ensures written == if MetaWrites(old(Of(squad)), w) <= old(writesLeft) then Some(Supersedes(old(Of(squad)), w)) else None
    {
      var ok;
      var holders := [];
      if w.MetaWire? {
        holders := w.holders;
      } else if squad in metas {
        holders := metas[squad].holders;
      }
      if squad in metas {
        var existing := metas[squad];
        if w.epoch < existing.epoch {
          return Some(false);
        }
        if w.epoch == existing.epoch {
          if existing.inbox != w.inbox {
            return Some(false);
          }
          if w.updatedAt <= existing.updatedAt && existing.holders == holders {
            return Some(false);
          }
        }
        if w.epoch > existing.epoch && squad in secrets && secrets[squad].epoch < w.epoch {
          ok := DeleteSecret(squad);
          if !ok {
            return None;
          }
        }
      }
      var final := holders;
      if holders == [] && squad in metas {
        final := metas[squad].holders;
      }
      ok := UpsertMeta(squad, w.inbox, final, w.epoch, w.updatedAt);
      return if ok then Some(true) else None;
    }

    /** Stores a shared key whose inbox it really opens, unless a row exists that does not list this device. */
    method ApplyKeyShare(squad: string, w: Wire) returns (accepted: bool)
      requires w.KeyShareWire?
      modifies this
      ensures Of(squad) == (if old(writesLeft) > 0 then Deliver(old(Of(squad)), me, w) else old(Of(squad))) && OthersUnchanged(squad)
      ensures accepted <==> TakesShare(old(Of(squad)), me, w) && old(writesLeft) > 0
    {
      if w.opens != w.inbox {
        return false;
      }
      if squad in metas && me !in metas[squad].holders {
        return false;
      }
      accepted := StoreSecret(squad, w.inbox, w.epoch, w.opens);
    }

    method InboxKeysForHolder(squad: string) returns (inbox: Option<string>)
      ensures inbox == UsableInbox(Of(squad), me)
    {
      if squad !in metas || me !in metas[squad].holders || squad !in secrets {
        return None;
      }
      var m, s := metas[squad], secrets[squad];
      if s.inbox != m.inbox || s.epoch != m.epoch {
        return None;
      }
      if s.opens != m.inbox {
        return None;
      }
      return Some(m.inbox);
    }

    method InitInbox(squad: string, creator: Option<string>, newInbox: string, now: int) returns (r: Result<Bundle, Refusal>)
      modifies this
      ensures CommandEnds(old(Of(squad)), me, {}, now, Init(creator, newInbox), old(writesLeft), Of(squad), r)
      ensures OthersUnchanged(squad)
    {
      var ok;
      if squad in metas {
        return Ok(Bundle(Of(squad), [], []));
      }
      if creator.Some? && creator.value != "" && creator.value != me {
        return Err(NotCreator);
      }
      ok := StoreSecret(squad, newInbox, 1, newInbox);
      if !ok {
        return Err(WriteLost);
      }
      ok := UpsertMeta(squad, newInbox, [me], 1, now);
      if !ok {
        return Err(WriteLost);
      }
      return Ok(Bundle(Of(squad), [AnnounceMeta(metas[squad])], []));
    }

    method AddInboxHolder(squad: string, holder: string, members: set<string>, now: int) returns (r: Result<Bundle, Refusal>)
      modifies this
      ensures CommandEnds(old(Of(squad)), me, members, now, AddHolder(holder), old(writesLeft), Of(squad), r)
      ensures OthersUnchanged(squad)
    {
      var ok;
      if holder !in members {
        return Err(HolderNotMember);
      }
      if me !in members {
        return Err(NotMember);
      }
      if squad !in metas {
        return Err(NotInitialized);
      }
      var m := metas[squad];
      if me !in m.holders {
        return Err(NotHolder);
      }
      if squad !in secrets {
        return Err(NoLocalKey);
      }
      if holder in m.holders {
        return Ok(Bundle(Of(squad), [], []));
      }
      var holders := m.holders + [holder];
      ok := UpsertMeta(squad, m.inbox, holders, m.epoch, now);
      if !ok {
        return Err(WriteLost);
      }
      var share := KeyShareWire(m.inbox, m.epoch, secrets[squad].opens);
      return Ok(Bundle(Of(squad), [AnnounceMeta(metas[squad])], [Share(holder, share)]));
    }

    method RemoveInboxHolder(squad: string, holder: string, members: set<string>, now: int) returns (r: Result<Bundle, Refusal>)
      modifies this
      ensures CommandEnds(old(Of(squad)), me, members, now, RemoveHolder(holder), old(writesLeft), Of(squad), r)
      ensures OthersUnchanged(squad)
    {
      hide JoinInboxSpec.Retain, JoinInboxSpec.UsableInbox;
      var ok;
      if me !in members {
        return Err(NotMember);
      }
      if squad !in metas {
        return Err(NotInitialized);
      }
      var m := metas[squad];
      if me !in m.holders {
        return Err(NotHolder);
      }
      if |m.holders| <= 1 && holder in m.holders {
        return Err(LastHolder);
      }
      var holders := RetainHolders(m.holders, h => h != holder);
      RetainKeepsExactly(m.holders, h => h != holder);
      if |holders| == |m.holders| {
        return Err(NotListed);
      }
      ok := UpsertMeta(squad, m.inbox, holders, m.epoch, now);
      if !ok {
        return Err(WriteLost);
      }
      if holder == me {
        ok := DeleteSecret(squad);
        if !ok {
          return Err(WriteLost);
        }
      }
      return Ok(Bundle(Of(squad), [AnnounceMeta(metas[squad])], []));
    }

    method RotateInboxKey(squad: string, members: set<string>, newInbox: string, now: int) returns (r: Result<Bundle, Refusal>)
      modifies this
      ensures CommandEnds(old(Of(squad)), me, members, now, RotateKey(newInbox), old(writesLeft), Of(squad), r)
      ensures OthersUnchanged(squad)
    {
      var ok;
      if me !in members {
        return Err(NotMember);
      }
      if squad !in metas {
        return Err(NotInitialized);
      }
      var m := metas[squad];
      if me !in m.holders {
        return Err(NotHolder);
      }
      if squad !in secrets {
        return Err(NoLocalKey);
      }
      var holders := RetainHolders(m.holders, h => h in members);
      if holders == [] {
        return Err(NoHoldersLeft);
      }
      var epoch := NextEpoch(m.epoch);
      ok := StoreSecret(squad, newInbox, epoch, newInbox);
      if !ok {
        return Err(WriteLost);
      }
      ok := UpsertMeta(squad, newInbox, holders, epoch, now);
      if !ok {
        return Err(WriteLost);
      }
      var others := RetainHolders(holders, h => h != me);
      var announced := [AnnounceMeta(metas[squad]), KeyRotatedWire(newInbox, epoch, now)];
      return Ok(Bundle(Of(squad), announced, SharesTo(others, KeyShareWire(newInbox, epoch, newInbox))));
    }

    method ReclaimInboxIfSplit(squad: string, now: int) returns (r: Result<Bundle, Refusal>)
      modifies this
      ensures CommandEnds(old(Of(squad)), me, {}, now, ReclaimIfSplit, old(writesLeft), Of(squad), r)
      ensures OthersUnchanged(squad)
    {
      var ok;
      if squad !in metas {
        return Err(NotInitialized);
      }
      if squad !in secrets {
        return Ok(Bundle(Of(squad), [], []));
      }
      var m, s := metas[squad], secrets[squad];
      if !(s.epoch == m.epoch && s.inbox != m.inbox) {
        return Ok(Bundle(Of(squad), [], []));
      }
      if s.opens != s.inbox {
        return Err(KeyMismatch);
      }
      var epoch := NextEpoch(m.epoch);
      ok := StoreSecret(squad, s.inbox, epoch, s.opens);
      if !ok {
        return Err(WriteLost);
      }
      ok := UpsertMeta(squad, s.inbox, [me], epoch, now);
      if !ok {
        return Err(WriteLost);
      }
      return Ok(Bundle(Of(squad), [AnnounceMeta(metas[squad])], []));
    }

    method DeleteInboxRows(squad: string) returns (ok: bool)
      modifies this
      ensures ok <==> old(writesLeft) >= 2
      ensures Of(squad) == if ok then Replica(None, None) else if old(writesLeft) == 0 then old(Of(squad)) else old(Of(squad)).(secret := None)
      ensures OthersUnchanged(squad)
    {
      ok := DeleteSecret(squad);
      if ok {
        ok := DeleteMeta(squad);
      }
    }
  }
}
