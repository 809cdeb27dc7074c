/** What public join-inbox messages leave behind, by the order they arrive in. */
module JoinInboxOrder {
  import opened Wrappers
  import opened JoinInboxSpec

  predicate Public(ws: seq<Wire>) {
    forall i | 0 <= i < |ws| :: !ws[i].KeyShareWire?
  }

  /** Message i is the first at the greatest epoch delivered. */
  predicate FirstAtTop(ws: seq<Wire>, i: nat)
    requires i < |ws|
  {
    && (forall j | 0 <= j < |ws| :: ws[j].epoch <= ws[i].epoch)
    && (forall j | 0 <= j < i :: ws[j].epoch < ws[i].epoch)
  }

  /** From an empty row, the epoch is the greatest delivered and the inbox that of its first delivery. */
  lemma {:induction false} TopEpochWins(me: string, secret: Option<Secret>, ws: seq<Wire>) returns (i: nat)
    requires Public(ws) && ws != []
    ensures i < |ws| && FirstAtTop(ws, i)
    ensures var r := DeliverAll(Replica(None, secret), me, ws);
      r.meta.Some? && r.meta.value.epoch == ws[i].epoch && r.meta.value.inbox == ws[i].inbox
  {
    var n := |ws| - 1;
    if n == 0 {
      i := 0;
      assert ws[..0] == [];
    } else {
      var k := TopEpochWins(me, secret, ws[..n]);
      assert ws[..n][k] == ws[k];
      i := if ws[n].epoch > ws[k].epoch then n else k;
      forall j | 0 <= j < |ws|
        ensures ws[j].epoch <= ws[i].epoch && (j < i ==> ws[j].epoch < ws[i].epoch)
      {
        assert j < n ==> ws[..n][j] == ws[j];
      }
    }
  }

  /** The same messages, in any order and with any repeats. */
  ghost predicate SameMessages(a: seq<Wire>, b: seq<Wire>) {
    forall w :: w in a <==> w in b
  }

  predicate AtTop(ws: seq<Wire>, w: Wire) {
    w in ws && forall v | v in ws :: v.epoch <= w.epoch
  }

  /** The row a device holds after some public messages, from none. */
  function RowAfter(ws: seq<Wire>): Option<Meta> {
    DeliverAll(Replica(None, None), "", ws).meta
  }

  /** The row does not depend on the device or its secret. */
  lemma {:induction false} AnyDevice(me: string, secret: Option<Secret>, ws: seq<Wire>)
    requires Public(ws)
    ensures DeliverAll(Replica(None, secret), me, ws).meta == RowAfter(ws)
  {
    if ws == [] {
    } else {
      AnyDevice(me, secret, ws[..|ws| - 1]);
    }
  }

  lemma TopOf(ws: seq<Wire>) returns (i: nat)
    requires Public(ws) && ws != []
    ensures i < |ws| && FirstAtTop(ws, i) && AtTop(ws, ws[i])
    ensures RowAfter(ws).Some? && RowAfter(ws).value.epoch == ws[i].epoch && RowAfter(ws).value.inbox == ws[i].inbox
  {
    i := TopEpochWins("", None, ws);
  }

  /** A message at the top epoch, delivered before everything else, decides the inbox. */
  lemma FirstDecidesInbox(ws: seq<Wire>, w: Wire)
    requires Public(ws) && AtTop(ws, w)
    ensures SameMessages(ws, [w] + ws) && RowAfter([w] + ws).Some? && RowAfter([w] + ws).value.inbox == w.inbox
  {
    var all := [w] + ws;
    assert forall i | 0 <= i < |all| :: all[i] in ws;
    assert Public(all) by {
      forall v | v in ws
        ensures !v.KeyShareWire?
      {
        var i :| 0 <= i < |ws| && ws[i] == v;
      }
    }
    var i := TopOf(all);
    assert all[0] == w;
  }

  lemma SameMessagesPublic(a: seq<Wire>, b: seq<Wire>)
    requires SameMessages(a, b) && Public(a)
    ensures Public(b)
  {
    forall i | 0 <= i < |b|
      ensures !b[i].KeyShareWire?
    {
      assert b[i] in a;
    }
  }

  /** Replicas that saw the same messages agree on epoch and inbox when one inbox is named at the greatest epoch. */
  lemma ReplicasAgree(me: string, you: string, a: seq<Wire>, b: seq<Wire>)
    requires Public(a) && a != [] && SameMessages(a, b)
    requires forall v, w | AtTop(a, v) && AtTop(a, w) :: v.inbox == w.inbox
    ensures var x, y := DeliverAll(Replica(None, None), me, a).meta, DeliverAll(Replica(None, None), you, b).meta;
      x.Some? && y.Some? && x.value.epoch == y.value.epoch && x.value.inbox == y.value.inbox
  {
    assert a[0] in b;
    SameMessagesPublic(a, b);
    AnyDevice(me, None, a);
    AnyDevice(you, None, b);
    var i := TopOf(a);
    var j := TopOf(b);
    assert AtTop(a, b[j]);
  }

  /** All orders of some public messages agree on epoch and inbox if and only if one inbox is named at the greatest epoch. */
  lemma InboxOrderFreeIff(a: seq<Wire>)
    requires Public(a) && a != []
    ensures (forall b | SameMessages(a, b) :: RowAfter(b).Some? && RowAfter(a).Some?
               && RowAfter(b).value.epoch == RowAfter(a).value.epoch && RowAfter(b).value.inbox == RowAfter(a).value.inbox)
       <==> (forall v, w | AtTop(a, v) && AtTop(a, w) :: v.inbox == w.inbox)
  {
    if forall v, w | AtTop(a, v) && AtTop(a, w) :: v.inbox == w.inbox {
      forall b | SameMessages(a, b)
        ensures RowAfter(b).Some? && RowAfter(a).Some?
        ensures RowAfter(b).value.epoch == RowAfter(a).value.epoch && RowAfter(b).value.inbox == RowAfter(a).value.inbox
      {
        ReplicasAgree("", "", a, b);
      }
    } else {
      var v, w :| AtTop(a, v) && AtTop(a, w) && v.inbox != w.inbox;
      FirstDecidesInbox(a, v);
      FirstDecidesInbox(a, w);
    }
  }

  // ---- Holder lists ----------------------------------------------------------------------

  /** Message i is a list of holders for the inbox that wins at the greatest epoch, and no later one is. */
  predicate LastTopList(ws: seq<Wire>, inbox: string, i: nat)
    requires i < |ws|
  {
    && AtTop(ws, ws[i]) && IsList(ws[i], inbox)
    && forall j | i < j < |ws| && ws[j].epoch == ws[i].epoch :: !IsList(ws[j], inbox)
  }

  predicate IsList(w: Wire, inbox: string) {
    w.MetaWire? && w.holders != [] && w.inbox == inbox
  }

  /** The holders are those of the last non-empty list delivered for the winning inbox at the greatest epoch. */
  lemma {:induction false} LastListWins(ws: seq<Wire>, i: nat)
    requires Public(ws) && i < |ws| && RowAfter(ws).Some? && LastTopList(ws, RowAfter(ws).value.inbox, i)
    ensures RowAfter(ws).value.epoch == ws[i].epoch && RowAfter(ws).value.holders == ws[i].holders
  {
    var n := |ws| - 1;
    var front := ws[..n];
    var top := TopOf(ws);
    if i == n {
    } else {
      var earlier := TopOf(front);
      assert front[i] == ws[i] && ws[i] in front;
      assert front[earlier] == ws[earlier];
      assert RowAfter(front).value.epoch == ws[i].epoch;
      assert RowAfter(front).value.inbox == RowAfter(ws).value.inbox;
      forall v | v in front
        ensures v in ws
      {
        var j :| 0 <= j < |front| && front[j] == v;
        assert ws[j] == v;
      }
      LastListWins(front, i);
    }
  }

  // ---- The whole row ---------------------------------------------------------------------

  predicate HasList(w: Wire) {
    w.MetaWire? && w.holders != []
  }

  ghost predicate OneInboxAtTop(ws: seq<Wire>) {
    forall v, w | AtTop(ws, v) && AtTop(ws, w) :: v.inbox == w.inbox
  }

  /**
   * A message may go with list l: an earlier epoch, or l's own with its inbox, no later time, no
   * other list, and, for an announcement that lists nobody, its very time.
   */
  predicate Fits(l: Wire, w: Wire) {
    && w.epoch <= l.epoch
    && (w.epoch == l.epoch ==>
          && w.inbox == l.inbox && !w.KeyShareWire? && !l.KeyShareWire? && w.updatedAt <= l.updatedAt
          && (HasList(w) ==> HasList(l) && w.holders == l.holders)
          && (w.MetaWire? && w.holders == [] ==> w.updatedAt == l.updatedAt))
  }

  /** A list at the greatest epoch that every message goes with. */
  predicate Settles(ws: seq<Wire>, l: Wire) {
    l in ws && HasList(l) && forall w | w in ws :: Fits(l, w)
  }

  predicate Listless(ws: seq<Wire>) {
    forall w | w in ws :: !HasList(w)
  }

  /** How the row stands while messages that fit l arrive. */
  lemma {:induction false} SettledRow(ws: seq<Wire>, l: Wire)
    requires Public(ws) && HasList(l) && forall i | 0 <= i < |ws| :: Fits(l, ws[i])
    ensures var row := RowAfter(ws);
      && (row.Some? ==> row.value.epoch <= l.epoch)
      && (row.Some? && row.value.epoch == l.epoch ==> row.value.inbox == l.inbox && row.value.updatedAt <= l.updatedAt)
      && (l in ws ==> row == Some(Meta(l.inbox, l.holders, l.epoch, l.updatedAt)))
  {
    if ws == [] {
    } else {
      var n := |ws| - 1;
      assert ws == ws[..n] + [ws[n]];
      SettledRow(ws[..n], l);
    }
  }

  /** The same while no message lists anybody; `latest` bounds the times at the greatest epoch. */
  lemma {:induction false} ListlessRow(ws: seq<Wire>, top: Wire)
    requires Public(ws) && Listless(ws)
    requires forall i | 0 <= i < |ws| ::
      ws[i].epoch <= top.epoch && (ws[i].epoch == top.epoch ==> ws[i].inbox == top.inbox && !top.KeyShareWire? && ws[i].updatedAt <= top.updatedAt)
    ensures var row := RowAfter(ws);
      && (row.Some? ==> row.value.epoch <= top.epoch && row.value.holders == [])
      && (row.Some? && row.value.epoch == top.epoch ==> row.value.inbox == top.inbox && !top.KeyShareWire? && row.value.updatedAt <= top.updatedAt)
      && (top in ws && !top.KeyShareWire? ==> row == Some(Meta(top.inbox, [], top.epoch, top.updatedAt)))
  {
    if ws == [] {
    } else {
      var n := |ws| - 1;
      assert ws == ws[..n] + [ws[n]];
      assert forall w | w in ws[..n] :: w in ws;
      ListlessRow(ws[..n], top);
      assert ws[n] in ws;
    }
  }

  /** The latest of the messages that satisfy `p`. */
  lemma {:induction false} Latest(ws: seq<Wire>, p: Wire -> bool) returns (l: Wire)
    requires Public(ws) && exists w :: w in ws && p(w)
    ensures l in ws && p(l) && !l.KeyShareWire?
    ensures forall i | 0 <= i < |ws| && p(ws[i]) :: ws[i].updatedAt <= l.updatedAt
  {
    var n := |ws| - 1;
    var front := ws[..n];
    assert ws == front + [ws[n]];
    if exists w :: w in front && p(w) {
      var k := Latest(front, p);
      l := if p(ws[n]) && ws[n].updatedAt > k.updatedAt then ws[n] else k;
      forall i | 0 <= i < |ws| && p(ws[i])
        ensures ws[i].updatedAt <= l.updatedAt
      {
        assert i < n ==> front[i] == ws[i];
      }
    } else {
      var w :| w in ws && p(w);
      assert w == ws[n];
      l := ws[n];
      forall i | 0 <= i < n
        ensures !p(ws[i])
      {
        assert front[i] in front;
      }
    }
  }

  function Filter(ws: seq<Wire>, keep: Wire -> bool): seq<Wire> {
    if ws == [] then []
    else Filter(ws[..|ws| - 1], keep) + if keep(ws[|ws| - 1]) then [ws[|ws| - 1]] else []
  }

  lemma {:induction false} Filtered(ws: seq<Wire>, keep: Wire -> bool)
    ensures forall w :: w in Filter(ws, keep) <==> w in ws && keep(w)
  {
    if ws == [] {
    } else {
      var n := |ws| - 1;
      assert ws == ws[..n] + [ws[n]];
      Filtered(ws[..n], keep);
    }
  }

  lemma PublicMembers(ws: seq<Wire>)
    ensures Public(ws) <==> forall w | w in ws :: !w.KeyShareWire?
  {
  }

  /** Begun by a message of the greatest epoch, no lists there: nobody is ever listed. */
  lemma {:induction false} BegunWithoutList(w: Wire, ws: seq<Wire>)
    requires Public(ws) && !w.KeyShareWire? && !HasList(w)
    requires forall i | 0 <= i < |ws| :: ws[i].epoch <= w.epoch && (ws[i].epoch == w.epoch ==> !HasList(ws[i]))
    ensures var row := RowAfter([w] + ws); row.Some? && row.value.epoch == w.epoch && row.value.inbox == w.inbox && row.value.holders == []
  {
    if ws == [] {
      assert [w] + ws == [w] && [w][..0] == [];
      assert RowAfter([]) == None;
    } else {
      var n := |ws| - 1;
      BegunWithoutList(w, ws[..n]);
      assert ([w] + ws)[..n + 1] == [w] + ws[..n];
    }
  }

  /** Begun by a list: somebody is always listed. */
  lemma {:induction false} BegunWithList(v: Wire, ws: seq<Wire>)
    requires Public(ws) && HasList(v)
    ensures RowAfter([v] + ws).Some? && RowAfter([v] + ws).value.holders != []
  {
    if ws == [] {
      assert [v] + ws == [v] && [v][..0] == [];
      assert RowAfter([]) == None;
    } else {
      var n := |ws| - 1;
      BegunWithList(v, ws[..n]);
      assert ([v] + ws)[..n + 1] == [v] + ws[..n];
    }
  }

  /** Lists of one row, the latest at `limit`, delivered when nobody is listed. */
  lemma {:induction false} ListsAfterNone(xs: seq<Wire>, ys: seq<Wire>, l: Wire)
    requires Public(xs) && HasList(l) && RowAfter(xs).Some?
    requires RowAfter(xs).value.epoch == l.epoch && RowAfter(xs).value.inbox == l.inbox && RowAfter(xs).value.holders == []
    requires forall i | 0 <= i < |ys| ::
      && HasList(ys[i]) && ys[i].epoch == l.epoch && ys[i].inbox == l.inbox
      && ys[i].holders == l.holders && ys[i].updatedAt <= l.updatedAt
    ensures ys != [] ==>
      && RowAfter(xs + ys).Some? && RowAfter(xs + ys).value.updatedAt <= l.updatedAt
      && RowAfter(xs + ys).value.holders == l.holders && RowAfter(xs + ys).value.epoch == l.epoch && RowAfter(xs + ys).value.inbox == l.inbox
  {
    if ys == [] {
    } else {
      var n := |ys| - 1;
      ListsAfterNone(xs, ys[..n], l);
      assert (xs + ys)[..|xs + ys| - 1] == xs + ys[..n];
      assert xs + [] == xs;
    }
  }

  /** With a list at the greatest epoch the row ends up with holders; its time is of that epoch. */
  lemma RowAtTop(ws: seq<Wire>, l: Wire)
    requires Public(ws) && OneInboxAtTop(ws) && AtTop(ws, l) && HasList(l)
    ensures var row := RowAfter(ws); row.Some? && row.value.epoch == l.epoch && row.value.inbox == l.inbox && row.value.holders != []
  {
    var t := TopOf(ws);
    var i := LastTop(ws, l);
    LastListWins(ws, i);
  }

  /** The last of the lists at the greatest epoch. */
  lemma LastTop(ws: seq<Wire>, l: Wire) returns (i: nat)
    requires Public(ws) && OneInboxAtTop(ws) && AtTop(ws, l) && HasList(l)
    ensures i < |ws| && LastTopList(ws, l.inbox, i)
  {
    i := LastListUpTo(ws, l.epoch, |ws|);
    assert ws[i] in ws && AtTop(ws, ws[i]);
    forall j | i < j < |ws| && ws[j].epoch == ws[i].epoch
      ensures !IsList(ws[j], l.inbox)
    {
      assert ws[j] in ws;
    }
  }

  lemma {:induction false} LastListUpTo(ws: seq<Wire>, epoch: int, n: nat) returns (i: nat)
    requires n <= |ws| && exists j :: 0 <= j < n && ws[j].epoch == epoch && HasList(ws[j])
    ensures i < n && ws[i].epoch == epoch && HasList(ws[i])
    ensures forall j | i < j < n && ws[j].epoch == epoch :: !HasList(ws[j])
  {
    if ws[n - 1].epoch == epoch && HasList(ws[n - 1]) {
      i := n - 1;
    } else {
      i := LastListUpTo(ws, epoch, n - 1);
    }
  }

  /** A row's time is that of a message of its epoch. */
  lemma {:induction false} RowTimeBound(ws: seq<Wire>, top: Wire)
    requires Public(ws) && !top.KeyShareWire?
    requires forall i | 0 <= i < |ws| :: ws[i].epoch <= top.epoch && (ws[i].epoch == top.epoch ==> ws[i].updatedAt <= top.updatedAt)
    ensures var row := RowAfter(ws);
      row.Some? ==> row.value.epoch <= top.epoch && (row.value.epoch == top.epoch ==> row.value.updatedAt <= top.updatedAt)
  {
    if ws == [] {
    } else {
      RowTimeBound(ws[..|ws| - 1], top);
    }
  }

  // ---- Orders that disagree --------------------------------------------------------------

  /** A list at the greatest epoch, delivered after everything else, decides the holders. */
  lemma LastDecidesHolders(ws: seq<Wire>, w: Wire)
    requires Public(ws) && AtTop(ws, w) && OneInboxAtTop(ws) && HasList(w)
    ensures SameMessages(ws, ws + [w]) && RowAfter(ws + [w]).Some? && RowAfter(ws + [w]).value.holders == w.holders
  {
    var all := ws + [w];
    assert SameMessages(ws, all);
    SameMessagesPublic(ws, all);
    var top := TopOf(all);
    assert AtTop(ws, all[top]);
    LastListWins(all, |ws|);
  }

  /** A list below the greatest epoch survives only if it comes before that epoch does. */
  lemma ListsBelowDisagree(a: seq<Wire>, v: Wire, w: Wire)
    requires Public(a) && v in a && HasList(v) && AtTop(a, w) && forall x | AtTop(a, x) :: !HasList(x)
    ensures SameMessages(a, [v] + a) && SameMessages(a, [w] + a) && RowAfter([v] + a) != RowAfter([w] + a)
  {
    PublicMembers(a);
    forall i | 0 <= i < |a|
      ensures a[i].epoch <= w.epoch && (a[i].epoch == w.epoch ==> !HasList(a[i]))
    {
      assert a[i] in a && (a[i].epoch == w.epoch ==> AtTop(a, a[i]));
    }
    BegunWithList(v, a);
    BegunWithoutList(w, a);
  }

  /** A message later than every list of the greatest epoch leaves its time when it comes last, and not when it comes first. */
  lemma LaterMessageDisagrees(a: seq<Wire>, w: Wire, l: Wire) returns (b: seq<Wire>)
    requires Public(a) && OneInboxAtTop(a) && AtTop(a, w) && AtTop(a, l) && HasList(l)
    requires forall v | AtTop(a, v) :: v.updatedAt <= w.updatedAt && (HasList(v) ==> v.holders == l.holders && v.updatedAt <= l.updatedAt)
    requires l.updatedAt < w.updatedAt
    ensures SameMessages(a, a + [w]) && SameMessages(a, b) && RowAfter(a + [w]) != RowAfter(b)
  {
    PublicMembers(a);
    forall i | 0 <= i < |a|
      ensures a[i].epoch <= w.epoch && (a[i].epoch == w.epoch ==> a[i].updatedAt <= w.updatedAt && AtTop(a, a[i]))
    {
      assert a[i] in a;
    }
    RowTimeBound(a, w);
    RowAtTop(a, l);
    assert (a + [w])[..|a|] == a;
    assert RowAfter(a + [w]).value.updatedAt == w.updatedAt;
    b := ListsLast(a, w, l);
  }

  lemma ListsLast(a: seq<Wire>, w: Wire, l: Wire) returns (b: seq<Wire>)
    requires Public(a) && OneInboxAtTop(a) && AtTop(a, w) && AtTop(a, l) && HasList(l) && !HasList(w)
    requires forall v | AtTop(a, v) && HasList(v) :: v.holders == l.holders && v.updatedAt <= l.updatedAt
    ensures SameMessages(a, b) && RowAfter(b).Some? && RowAfter(b).value.updatedAt <= l.updatedAt
  {
    var isList := (v: Wire) => HasList(v) && v.epoch == l.epoch;
    var rest, lists := Filter(a, v => !isList(v)), Filter(a, isList);
    Filtered(a, v => !isList(v));
    Filtered(a, isList);
    PublicMembers(a);
    PublicMembers(rest);
    PublicMembers([w] + rest);
    forall i | 0 <= i < |rest|
      ensures rest[i].epoch <= w.epoch && (rest[i].epoch == w.epoch ==> !HasList(rest[i]))
    {
      assert rest[i] in rest;
    }
    BegunWithoutList(w, rest);
    forall i | 0 <= i < |lists|
      ensures HasList(lists[i]) && lists[i].epoch == l.epoch && AtTop(a, lists[i])
    {
      assert lists[i] in lists;
    }
    assert l in lists;
    ListsAfterNone([w] + rest, lists, l);
    b := [w] + rest + lists;
  }

  /** An announcement that lists nobody lowers the row's time when it comes last. */
  lemma EarlierEmptyDisagrees(a: seq<Wire>, e: Wire, l: Wire)
    requires Public(a) && OneInboxAtTop(a) && AtTop(a, e) && AtTop(a, l) && HasList(l) && e.MetaWire? && e.holders == []
    requires forall v | AtTop(a, v) :: v.updatedAt <= l.updatedAt
    requires e.updatedAt < l.updatedAt
    ensures SameMessages(a, a + [e]) && SameMessages(a, a + [l]) && RowAfter(a + [e]) != RowAfter(a + [l])
  {
    PublicMembers(a);
    forall i | 0 <= i < |a|
      ensures a[i].epoch <= l.epoch && (a[i].epoch == l.epoch ==> a[i].updatedAt <= l.updatedAt)
    {
      assert a[i] in a && (a[i].epoch == l.epoch ==> AtTop(a, a[i]));
    }
    RowTimeBound(a, l);
    RowAtTop(a, l);
    assert (a + [e])[..|a|] == a && (a + [l])[..|a|] == a;
  }

  /** Messages without a settling list, though there are lists, have two orders that disagree. */
  lemma UnsettledDisagrees(a: seq<Wire>) returns (x: seq<Wire>, y: seq<Wire>)
    requires Public(a) && a != [] && OneInboxAtTop(a) && !Listless(a) && !exists l :: Settles(a, l)
    ensures SameMessages(a, x) && SameMessages(a, y) && RowAfter(x) != RowAfter(y)
  {
    var t := TopOf(a);
    var epoch := a[t].epoch;
    if exists l :: AtTop(a, l) && HasList(l) {
      var k :| AtTop(a, k) && HasList(k);
      var l := Latest(a, (v: Wire) => HasList(v) && v.epoch == epoch);
      if v, w :| AtTop(a, v) && AtTop(a, w) && HasList(v) && HasList(w) && v.holders != w.holders {
        LastDecidesHolders(a, v);
        LastDecidesHolders(a, w);
        x, y := a + [v], a + [w];
      } else {
        var w := Latest(a, (v: Wire) => v.epoch == epoch);
        TopTimes(a, epoch, l, w);
        if l.updatedAt < w.updatedAt {
          y := LaterMessageDisagrees(a, w, l);
          x := a + [w];
        } else {
          var e := MisfitIsEmpty(a, l);
          EarlierEmptyDisagrees(a, e, l);
          x, y := a + [e], a + [l];
        }
      }
    } else {
      var v :| v in a && HasList(v);
      ListsBelowDisagree(a, v, a[t]);
      x, y := [v] + a, [a[t]] + a;
    }
  }

  lemma TopTimes(a: seq<Wire>, epoch: int, l: Wire, w: Wire)
    requires l in a && w in a && l.epoch == epoch && w.epoch == epoch && (forall v | v in a :: v.epoch <= epoch) && Public(a)
    requires forall i | 0 <= i < |a| && a[i].epoch == epoch :: a[i].updatedAt <= w.updatedAt && (HasList(a[i]) ==> a[i].updatedAt <= l.updatedAt)
    ensures AtTop(a, l) && AtTop(a, w)
    ensures forall v | AtTop(a, v) :: !v.KeyShareWire? && v.updatedAt <= w.updatedAt && (HasList(v) ==> v.updatedAt <= l.updatedAt)
  {
  }

  lemma MisfitIsEmpty(a: seq<Wire>, l: Wire) returns (e: Wire)
    requires Public(a) && OneInboxAtTop(a) && AtTop(a, l) && HasList(l) && !Settles(a, l)
    requires forall v | AtTop(a, v) :: !v.KeyShareWire? && v.updatedAt <= l.updatedAt && (HasList(v) ==> v.holders == l.holders)
    ensures AtTop(a, e) && e.MetaWire? && e.holders == [] && e.updatedAt < l.updatedAt
  {
    e :| e in a && !Fits(l, e);
    assert AtTop(a, e);
  }

  lemma SettledOrdersAgree(a: seq<Wire>, b: seq<Wire>)
    requires Public(a) && a != [] && OneInboxAtTop(a) && SameMessages(a, b) && (Listless(a) || exists l :: Settles(a, l))
    ensures RowAfter(b) == RowAfter(a)
  {
    SameMessagesPublic(a, b);
    assert forall i | 0 <= i < |a| :: a[i] in a;
    assert forall i | 0 <= i < |b| :: b[i] in a;
    if l :| Settles(a, l) {
      SettledRow(a, l);
      SettledRow(b, l);
    } else {
      var t := TopOf(a);
      var w := Latest(a, (v: Wire) => v.epoch == a[t].epoch);
      TopTimesOf(a, w);
      ListlessRow(a, w);
      ListlessRow(b, w);
    }
  }

  lemma TopTimesOf(a: seq<Wire>, w: Wire)
    requires Public(a) && w in a && OneInboxAtTop(a) && (forall v | v in a :: v.epoch <= w.epoch)
    requires forall i | 0 <= i < |a| && a[i].epoch == w.epoch :: !w.KeyShareWire? && a[i].updatedAt <= w.updatedAt
    ensures !w.KeyShareWire?
    ensures forall v | v in a && v.epoch == w.epoch :: v.inbox == w.inbox && !v.KeyShareWire? && v.updatedAt <= w.updatedAt
  {
  }

  /**
   * Rows are not last-writer-wins. All orders of some public messages end in the same row if and
   * only if those at the greatest epoch name one inbox and, unless nobody is listed anywhere, one
   * of them is a list that settles the rest: no other list, nothing later, and no announcement
   * without holders at another time. That list is the row.
   */
  lemma RowOrderFreeIff(a: seq<Wire>)
    requires Public(a) && a != []
    ensures (forall b | SameMessages(a, b) :: RowAfter(b) == RowAfter(a))
       <==> OneInboxAtTop(a) && (Listless(a) || exists l :: Settles(a, l))
    ensures forall l | Settles(a, l) :: RowAfter(a) == Some(Meta(l.inbox, l.holders, l.epoch, l.updatedAt))
  {
    if v, w :| AtTop(a, v) && AtTop(a, w) && v.inbox != w.inbox {
      FirstDecidesInbox(a, v);
      FirstDecidesInbox(a, w);
      assert RowAfter([v] + a) != RowAfter([w] + a);
    } else if !Listless(a) && !exists l :: Settles(a, l) {
      var x, y := UnsettledDisagrees(a);
      assert RowAfter(x) != RowAfter(a) || RowAfter(y) != RowAfter(a);
    } else {
      forall b | SameMessages(a, b)
        ensures RowAfter(b) == RowAfter(a)
      {
        SettledOrdersAgree(a, b);
      }
    }
    forall l | Settles(a, l)
      ensures RowAfter(a) == Some(Meta(l.inbox, l.holders, l.epoch, l.updatedAt))
    {
      assert forall i | 0 <= i < |a| :: a[i] in a;
      SettledRow(a, l);
    }
  }
}
