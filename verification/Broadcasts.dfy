/** The cached broadcast board: newest row per author and subject, tombstones, expiry and pruning. */
module Broadcasts {
  import opened Wrappers
  import opened Sorting

  datatype Key = Key(author: string, subjectId: string)

  datatype Row = Row(key: Key, subject: string, durationHours: nat, expiresAt: int, createdAt: int, cancelled: bool)

  /** Cached rows by event id. */
  type Board = map<string, Row>

  predicate Live(r: Row, now: int) {
    r.expiresAt > now
  }

  function LiveIds(b: Board, now: int): set<string> {
    set id | id in b && Live(b[id], now)
  }

  /** A live row no live row of its key is newer than. */
  predicate Newest(b: Board, now: int, id: string) {
    && id in LiveIds(b, now)
    && forall other | other in LiveIds(b, now) && b[other].key == b[id].key :: b[other].createdAt <= b[id].createdAt
  }

  /** No two live rows of one key were created at the same second. */
  predicate DistinctTimes(b: Board, now: int) {
    forall x, y | x in LiveIds(b, now) && y in LiveIds(b, now) && x != y && b[x].key == b[y].key :: b[x].createdAt != b[y].createdAt
  }

  /** What the feed shows before it is truncated: the newest row of each key, unless that is a tombstone. */
  function Active(b: Board, now: int): set<string> {
    set id | id in LiveIds(b, now) && Newest(b, now, id) && !b[id].cancelled
  }

  /** A broadcast of a subject that is not itself a tombstone. */
  predicate Retractable(r: Row, key: Key, subject: string) {
    r.key == key && r.subject == subject && !r.cancelled
  }

  function Upsert(b: Board, id: string, r: Row): Board {
    if id in b then b[id := b[id].(expiresAt := r.expiresAt, cancelled := r.cancelled)] else b[id := r]
  }

  function Prune(b: Board, now: int): Board {
    map id | id in b && b[id].expiresAt > now :: b[id]
  }

  class BroadcastBoard {
    var rows: Board

    constructor ()
      ensures rows == map[]
    {
      rows := map[];
    }

    /** A known event id keeps its author, subject and creation time; its other columns are replaced. */
    method UpsertRow(id: string, r: Row)
      modifies this
      ensures rows == Upsert(old(rows), id, r)
    {
      if id in rows {
        rows := rows[id := rows[id].(expiresAt := r.expiresAt, cancelled := r.cancelled)];
      } else {
        rows := rows[id := r];
      }
    }

    method PruneExpired(now: int)
      modifies this
      ensures rows == Prune(old(rows), now)
    {
      rows := map id | id in rows && rows[id].expiresAt > now :: rows[id];
    }

    /** Live rows ordered by creation, newest first; ties in whatever order the engine yields. */
    method QueryLive(now: int) returns (ids: seq<string>)
      ensures forall id :: id in ids <==> id in LiveIds(rows, now)
      ensures forall id :: id in ids <==> id in rows && rows[id].expiresAt > now
      ensures forall i | 0 <= i < |ids| :: ids[i] in rows
      ensures forall i, j | 0 <= i < j < |ids| :: ids[i] != ids[j] && rows[ids[i]].createdAt >= rows[ids[j]].createdAt
    {
      var unsorted := ToSeq(LiveIds(rows, now));
      ids := SortNewestFirst(rows, unsorted);
    }

    /** Folds the live rows into the best one per key, replacing only by a strictly newer row. */
    method BestPerKey(now: int) returns (best: map<Key, string>)
      ensures forall k | k in best :: Newest(rows, now, best[k]) && rows[best[k]].key == k
      ensures forall id | id in LiveIds(rows, now) :: rows[id].key in best
    {
      var ids := QueryLive(now);
      best := map[];
      for i := 0 to |ids|
        invariant forall k | k in best :: best[k] in ids && rows[best[k]].key == k
        invariant forall j | 0 <= j < i :: rows[ids[j]].key in best && rows[ids[j]].createdAt <= rows[best[rows[ids[j]].key]].createdAt
      {
        assert ids[i] in ids;
        var k := rows[ids[i]].key;
        if k in best {
          if rows[ids[i]].createdAt > rows[best[k]].createdAt {
            best := best[k := ids[i]];
          }
        } else {
          best := best[k := ids[i]];
        }
      }
      forall k, other | k in best && other in LiveIds(rows, now) && rows[other].key == k
        ensures rows[other].createdAt <= rows[best[k]].createdAt
      {
        assert other in ids;
      }
      forall id | id in LiveIds(rows, now)
        ensures rows[id].key in best
      {
        assert id in ids;
      }
    }

    /**
     * The feed: one newest row per key, never a tombstone, newest first, at most `limit`. Nothing
     * kept is older than anything dropped, and with distinct times nothing else is ever dropped.
     */
    method ListActive(now: int, limit: nat) returns (out: seq<string>)
      ensures |out| <= limit
      ensures forall i | 0 <= i < |out| :: out[i] in rows && out[i] in Active(rows, now)
      ensures forall i, j | 0 <= i < j < |out| :: rows[out[i]].key != rows[out[j]].key && rows[out[i]].createdAt >= rows[out[j]].createdAt
      ensures forall i | 0 <= i < |out| ::
        && rows[out[i]].expiresAt > now && !rows[out[i]].cancelled
        && forall other | other in rows && rows[other].expiresAt > now && rows[other].key == rows[out[i]].key ::
             rows[other].createdAt <= rows[out[i]].createdAt
      ensures DistinctTimes(rows, now) ==> forall id | id in Active(rows, now) ::
        id in out || (|out| == limit && forall i | 0 <= i < |out| :: rows[out[i]].createdAt >= rows[id].createdAt)
    {
      var best := BestPerKey(now);
      var kept := set k | k in best && !rows[best[k]].cancelled :: best[k];
      var unsorted := ToSeq(kept);
      var sorted := SortNewestFirst(rows, unsorted);
      forall i | 0 <= i < |sorted|
        ensures sorted[i] in Active(rows, now) && rows[sorted[i]].key in best && best[rows[sorted[i]].key] == sorted[i]
      {
        assert sorted[i] in sorted;
      }
      out := if |sorted| <= limit then sorted else sorted[..limit];
      if DistinctTimes(rows, now) {
        forall id | id in Active(rows, now)
          ensures id in sorted
        {
          var b := best[rows[id].key];
          assert b == id;
          assert id in kept;
        }
      }
    }

    /** The retraction's search for something to retract: the newest live row of the subject that is not a tombstone. */
    method FindActive(key: Key, subject: string, now: int) returns (found: Option<string>)
      ensures found.None? <==> forall id | id in LiveIds(rows, now) :: !Retractable(rows[id], key, subject)
      ensures found.Some? ==>
        && found.value in LiveIds(rows, now) && Retractable(rows[found.value], key, subject)
        && forall id | id in LiveIds(rows, now) && Retractable(rows[id], key, subject) :: rows[id].createdAt <= rows[found.value].createdAt
    {
      var ids := QueryLive(now);
      var i := 0;
      while i < |ids|
        invariant 0 <= i <= |ids|
        invariant forall j | 0 <= j < i :: !Retractable(rows[ids[j]], key, subject)
      {
        var r := rows[ids[i]];
        if Retractable(r, key, subject) {
          assert ids[i] in ids;
          return Some(ids[i]);
        }
        i := i + 1;
      }
      return None;
    }

    /**
     * Retracts the newest live broadcast of a subject that is not a tombstone, if there is one, by
     * a tombstone with a fresh expiry of the same duration, then prunes.
     */
    method Cancel(key: Key, subject: string, now: int, cancelNow: int, tombstone: string, signedAt: int, pruneNow: int)
      returns (published: bool, ghost retracted: string)
      modifies this
      ensures !published ==> rows == old(rows) && forall id | id in rows && rows[id].expiresAt > now ::
        rows[id].key != key || rows[id].subject != subject || rows[id].cancelled
      ensures published ==>
        && retracted in old(rows) && old(rows)[retracted].expiresAt > now
        && old(rows)[retracted].key == key && old(rows)[retracted].subject == subject && !old(rows)[retracted].cancelled
      ensures published ==> forall id | id in rows :: rows[id].expiresAt > pruneNow
      ensures published ==> rows == Retracted(old(rows), retracted, cancelNow, tombstone, signedAt, pruneNow)
    {
      retracted := "";
      var found := FindActive(key, subject, now);
      if found.None? {
        return false, retracted;
      }
      retracted := found.value;
      UpsertRow(tombstone, Tombstone(rows[found.value], cancelNow, signedAt));
      PruneExpired(pruneNow);
      published := true;
    }
  }

  function Tombstone(r: Row, cancelNow: int, signedAt: int): Row {
    r.(expiresAt := cancelNow + r.durationHours * 3600, createdAt := signedAt, cancelled := true)
  }

  /** The tombstone of a row: the same broadcast, cancelled, for as long again from now. */
  lemma TombstoneIs(r: Row, cancelNow: int, signedAt: int)
    ensures Tombstone(r, cancelNow, signedAt)
      == Row(r.key, r.subject, r.durationHours, cancelNow + r.durationHours * 60 * 60, signedAt, true)
  {
  }

  method ToSeq(s: set<string>) returns (ids: seq<string>)
    ensures forall id :: id in ids <==> id in s
    ensures forall i, j | 0 <= i < j < |ids| :: ids[i] != ids[j]
  {
    ids := [];
    var rest := s;
    while rest != {}
      invariant rest <= s && forall id :: id in ids <==> id in s - rest
      invariant forall i, j | 0 <= i < j < |ids| :: ids[i] != ids[j]
      decreases rest
    {
      var id :| id in rest;
      assert id !in ids;
      ids := ids + [id];
      rest := rest - {id};
    }
  }

  /** The stable sort by creation, newest first. */
  method SortNewestFirst(b: Board, ids: seq<string>) returns (r: seq<string>)
    requires forall id | id in ids :: id in b
    requires forall i, j | 0 <= i < j < |ids| :: ids[i] != ids[j]
    ensures forall id :: id in r <==> id in ids
    ensures forall i | 0 <= i < |r| :: r[i] in b
    ensures forall i, j | 0 <= i < j < |r| :: r[i] != r[j] && b[r[i]].createdAt >= b[r[j]].createdAt
  {
    var key := (id: string) => if id in b then 0 - b[id].createdAt else 0;
    r := StableSort(ids, key);
    NewestFirstSorts(b, ids, key);
  }

  lemma NewestFirstSorts(b: Board, ids: seq<string>, key: string -> int)
    requires forall id | id in ids :: id in b
    requires forall i, j | 0 <= i < j < |ids| :: ids[i] != ids[j]
    requires forall id | id in b :: key(id) == 0 - b[id].createdAt
    ensures var r := StableSort(ids, key);
      && (forall id :: id in r <==> id in ids)
      && (forall i | 0 <= i < |r| :: r[i] in b)
      && forall i, j | 0 <= i < j < |r| :: r[i] != r[j] && b[r[i]].createdAt >= b[r[j]].createdAt
  {
    var r := StableSort(ids, key);
    SortSorts(ids, key);
    SortPermutes(ids, key);
    forall id
      ensures id in r <==> id in ids
    {
      SortedHasSameElements(ids, key, id);
    }
    NoRepeats(ids, r);
    forall i | 0 <= i < |r|
      ensures r[i] in b
    {
      assert r[i] in r;
    }
  }

  lemma NoRepeats(a: seq<string>, b: seq<string>)
    requires multiset(a) == multiset(b)
    requires forall i, j | 0 <= i < j < |a| :: a[i] != a[j]
    ensures forall i, j | 0 <= i < j < |b| :: b[i] != b[j]
  {
    forall i, j | 0 <= i < j < |b|
      ensures b[i] != b[j]
    {
      CountedOnce(a, b[j]);
      assert b == b[..j] + [b[j]] + b[j + 1..];
      assert b[i] in b[..j];
      assert multiset(b) == multiset(b[..j]) + multiset{b[j]} + multiset(b[j + 1..]);
    }
  }

  // ---- A retracted broadcast stays hidden ------------------------------------------------

  /** A strictly newer row of the same key lasts at least as long. */
  predicate Shadowed(b: Board, r: Row) {
    exists id :: id in b && b[id].key == r.key && b[id].createdAt > r.createdAt && b[id].expiresAt >= r.expiresAt
  }

  /** Every live broadcast of the key is shadowed. */
  predicate Covered(b: Board, key: Key, now: int) {
    forall id | id in LiveIds(b, now) && b[id].key == key && !b[id].cancelled :: Shadowed(b, b[id])
  }

  /** No row of the key can be in the feed. */
  predicate Hidden(b: Board, key: Key, now: int) {
    forall id | id in Active(b, now) :: b[id].key != key
  }

  lemma CoveredIsHidden(b: Board, key: Key, now: int)
    requires Covered(b, key, now)
    ensures Hidden(b, key, now)
  {
  }

  lemma TimeKeepsCovered(b: Board, key: Key, now: int, later: int)
    requires Covered(b, key, now) && now <= later
    ensures Covered(b, key, later) && Covered(Prune(b, later), key, later)
  {
    forall x | x in LiveIds(b, later) && b[x].key == key && !b[x].cancelled
      ensures Shadowed(b, b[x]) && Shadowed(Prune(b, later), b[x])
    {
      assert x in LiveIds(b, now);
      var y :| y in b && b[y].key == key && b[y].createdAt > b[x].createdAt && b[y].expiresAt >= b[x].expiresAt;
      assert y in Prune(b, later);
    }
  }

  /**
   * Left to expiry and pruning, a key stays out of the feed for good if and only if each of its
   * live broadcasts is shadowed: a tombstone hides only what it outlives.
   */
  lemma HiddenForGoodIff(b: Board, key: Key, now: int)
    ensures Covered(b, key, now) <==> forall t | t >= now :: Hidden(Prune(b, t), key, t)
  {
    if Covered(b, key, now) {
      forall t | t >= now
        ensures Hidden(Prune(b, t), key, t)
      {
        TimeKeepsCovered(b, key, now, t);
        CoveredIsHidden(Prune(b, t), key, t);
      }
    } else {
      var id :| id in LiveIds(b, now) && b[id].key == key && !b[id].cancelled && !Shadowed(b, b[id]);
      var t := b[id].expiresAt - 1;
      forall other | other in LiveIds(Prune(b, t), t) && b[other].key == key
        ensures b[other].createdAt <= b[id].createdAt
      {
        assert b[other].expiresAt >= b[id].expiresAt;
      }
      assert id in Active(Prune(b, t), t);
      assert !Hidden(Prune(b, t), key, t);
    }
  }

  /** The board a retraction leaves. */
  function Retracted(b: Board, found: string, cancelNow: int, id: string, signedAt: int, pruneNow: int): Board
    requires found in b
  {
    Prune(Upsert(b, id, Tombstone(b[found], cancelNow, signedAt)), pruneNow)
  }

  /** What must hold before the call: each broadcast of the key still live is shadowed, or older than the tombstone and outlived by it. */
  predicate Retires(b: Board, found: string, cancelNow: int, signedAt: int, pruneNow: int)
    requires found in b
  {
    forall x | x in LiveIds(b, pruneNow) && b[x].key == b[found].key && !b[x].cancelled ::
      || Shadowed(b, b[x])
      || (b[x].createdAt < signedAt && b[x].expiresAt <= cancelNow + b[found].durationHours * 3600)
  }

  /**
   * A retraction hides its key for good if and only if each live broadcast of the key was
   * shadowed already, or is older than the tombstone and expires no later than it.
   */
  lemma RetractionHidesIff(b: Board, found: string, cancelNow: int, id: string, signedAt: int, pruneNow: int)
    requires found in b && (id in b ==> b[id] == Tombstone(b[found], cancelNow, signedAt))
    ensures (forall t | t >= pruneNow :: Hidden(Prune(Retracted(b, found, cancelNow, id, signedAt, pruneNow), t), b[found].key, t))
       <==> Retires(b, found, cancelNow, signedAt, pruneNow)
  {
    var after := Retracted(b, found, cancelNow, id, signedAt, pruneNow);
    var tomb := Tombstone(b[found], cancelNow, signedAt);
    HiddenForGoodIff(after, b[found].key, pruneNow);
    forall x | x in LiveIds(b, pruneNow) && b[x].key == b[found].key && !b[x].cancelled
      ensures x in LiveIds(after, pruneNow) && after[x] == b[x]
      ensures Shadowed(after, b[x]) <==> Shadowed(b, b[x]) || (b[x].createdAt < signedAt && b[x].expiresAt <= tomb.expiresAt)
    {
      ShadowedAfter(b, id, tomb, pruneNow, b[x]);
    }
  }

  lemma ShadowedAfter(b: Board, id: string, tomb: Row, now: int, r: Row)
    requires (id in b ==> b[id] == tomb) && r.key == tomb.key && Live(r, now)
    ensures Shadowed(Prune(Upsert(b, id, tomb), now), r) <==>
      Shadowed(b, r) || (r.createdAt < tomb.createdAt && r.expiresAt <= tomb.expiresAt)
  {
    var after := Prune(Upsert(b, id, tomb), now);
    if Shadowed(b, r) {
      var y :| y in b && b[y].key == r.key && b[y].createdAt > r.createdAt && b[y].expiresAt >= r.expiresAt;
      assert y in after && after[y] == b[y];
    }
    if r.createdAt < tomb.createdAt && r.expiresAt <= tomb.expiresAt {
      assert id in after && after[id] == tomb;
    }
  }

  /**
   * Two broadcasts of one key, one of 720 hours and then one of 24: retracting leaves a
   * tombstone of 24 hours, and when it has expired the long broadcast is in the feed again.
   */
  lemma LongerBroadcastResurfaces(key: Key)
    ensures var long, short := Row(key, "user", 720, 720 * 3600, 0, false), Row(key, "user", 24, 10 + 24 * 3600, 10, false);
      var b: Board := map["long" := long, "short" := short];
      var after := Retracted(b, "short", 20, "tombstone", 20, 20);
      var later := 20 + 24 * 3600;
      && "short" in Active(b, 20) && Hidden(after, key, 20)
      && "long" in Active(Prune(after, later), later)
  {
    var long, short := Row(key, "user", 720, 720 * 3600, 0, false), Row(key, "user", 24, 10 + 24 * 3600, 10, false);
    var b: Board := map["long" := long, "short" := short];
    var after := Retracted(b, "short", 20, "tombstone", 20, 20);
    assert after.Keys == {"long", "short", "tombstone"};
    var later := 20 + 24 * 3600;
    assert Prune(after, later).Keys == {"long"};
    assert "tombstone" in LiveIds(after, 20);
  }

  /** A tombstone signed in the broadcast's own second does not retire it: both are newest. */
  lemma SameSecondIsNotRetired(b: Board, found: string, now: int, cancelNow: int, id: string, pruneNow: int)
    requires found in Active(b, now) && now <= pruneNow < b[found].expiresAt && id !in b
    ensures !Retires(b, found, cancelNow, b[found].createdAt, pruneNow)
    ensures found in Active(Retracted(b, found, cancelNow, id, b[found].createdAt, pruneNow), pruneNow)
  {
  }

  // ---- Whole histories -------------------------------------------------------------------

  datatype Event =
    | Ingest(id: string, row: Row)
    | PruneAt

  function After(b: Board, e: Event, now: int): Board {
    match e
    case Ingest(id, row) => Upsert(b, id, row)
    case PruneAt => Prune(b, now)
  }

  ghost predicate History(boards: seq<Board>, events: seq<Event>, times: seq<int>) {
    && |boards| == |events| + 1 == |times|
    && (forall i | 0 <= i < |events| :: boards[i + 1] == After(boards[i], events[i], times[i + 1]))
    && forall i, j | 0 <= i < j < |times| :: times[i] <= times[j]
  }

  /** An event id names one row, so ingesting a known event again brings the row it has. */
  ghost predicate IdsAreStable(boards: seq<Board>, events: seq<Event>)
    requires |boards| == |events| + 1
  {
    forall i | 0 <= i < |events| && events[i].Ingest? && events[i].id in boards[i] :: events[i].row == boards[i][events[i].id]
  }

  /** Ingesting an event not cached keeps a hidden key hidden exactly unless it is a live broadcast nothing shadows. */
  lemma IngestKeepsCoveredIff(b: Board, key: Key, now: int, id: string, row: Row)
    requires Covered(b, key, now) && id !in b
    ensures Covered(Upsert(b, id, row), key, now) <==> (row.key == key && !row.cancelled && Live(row, now) ==> Shadowed(b, row))
  {
    var after := Upsert(b, id, row);
    forall r: Row | Shadowed(b, r)
      ensures Shadowed(after, r)
    {
      var y :| y in b && b[y].key == r.key && b[y].createdAt > r.createdAt && b[y].expiresAt >= r.expiresAt;
      assert y in after && after[y] == b[y];
    }
    if Shadowed(after, row) {
      var y :| y in after && after[y].key == row.key && after[y].createdAt > row.createdAt && after[y].expiresAt >= row.expiresAt;
      assert y in b && b[y] == after[y];
    }
    assert row.key == key && !row.cancelled && Live(row, now) ==> id in LiveIds(after, now);
    forall x | x in LiveIds(after, now) && after[x].key == key && !after[x].cancelled && x != id
      ensures Shadowed(after, after[x])
    {
      assert x in LiveIds(b, now);
    }
  }

  /** The tombstone is in the board until it expires. */
  predicate TombstoneHeld(b: Board, id: string, tomb: Row, now: int) {
    (now < tomb.expiresAt ==> id in b) && (id in b ==> b[id] == tomb)
  }

  /** Not news about the key: another key, or a broadcast older than the tombstone that expires no later. */
  predicate OldNews(e: Event, key: Key, id: string, tomb: Row) {
    e.Ingest? ==>
      && (e.id == id ==> e.row == tomb)
      && (e.row.key == key && e.id != id ==> e.row.createdAt < tomb.createdAt && e.row.expiresAt <= tomb.expiresAt)
  }

  lemma EventKeepsCovered(b: Board, e: Event, now: int, later: int, key: Key, id: string, tomb: Row)
    requires Covered(b, key, now) && TombstoneHeld(b, id, tomb, now) && now <= later && OldNews(e, key, id, tomb)
    requires tomb.key == key && (e.Ingest? && e.id in b ==> e.row == b[e.id])
    requires tomb.cancelled
    ensures Covered(After(b, e, later), key, later) && TombstoneHeld(After(b, e, later), id, tomb, later)
  {
    TimeKeepsCovered(b, key, now, later);
    if e.Ingest? && e.id !in b {
      if e.row.key == key && e.id != id && Live(e.row, later) {
        assert b[id] == tomb && Shadowed(b, e.row);
      }
      IngestKeepsCoveredIff(b, key, later, e.id, e.row);
    } else if e.Ingest? {
      assert After(b, e, later) == b;
    }
  }

  /**
   * From a retraction that retires its key, the key stays out of the feed at all later times:
   * through expiry, pruning, and any replay of broadcasts older than the tombstone that it outlives.
   */
  lemma {:induction false} RetractedStaysHidden(boards: seq<Board>, events: seq<Event>, times: seq<int>, b: Board,
      found: string, cancelNow: int, id: string, signedAt: int, n: nat)
    requires History(boards, events, times) && IdsAreStable(boards, events) && n < |boards|
    requires found in b && (id in b ==> b[id] == Tombstone(b[found], cancelNow, signedAt))
    requires boards[0] == Retracted(b, found, cancelNow, id, signedAt, times[0])
    requires Retires(b, found, cancelNow, signedAt, times[0])
    requires forall i | 0 <= i < |events| :: OldNews(events[i], b[found].key, id, Tombstone(b[found], cancelNow, signedAt))
    ensures Covered(boards[n], b[found].key, times[n]) && TombstoneHeld(boards[n], id, Tombstone(b[found], cancelNow, signedAt), times[n])
    ensures Hidden(boards[n], b[found].key, times[n])
  {
    var key, tomb := b[found].key, Tombstone(b[found], cancelNow, signedAt);
    if n == 0 {
      RetractionHidesIff(b, found, cancelNow, id, signedAt, times[0]);
      HiddenForGoodIff(boards[0], key, times[0]);
    } else {
      RetractedStaysHidden(boards, events, times, b, found, cancelNow, id, signedAt, n - 1);
      EventKeepsCovered(boards[n - 1], events[n - 1], times[n - 1], times[n], key, id, tomb);
    }
    CoveredIsHidden(boards[n], key, times[n]);
  }

  /** Retracting the only broadcast of a key, published here earlier and signed before the tombstone, retires it. */
  lemma OnlyBroadcastIsRetired(b: Board, found: string, publishedAt: int, cancelNow: int, signedAt: int, pruneNow: int)
    requires found in b && b[found].expiresAt == publishedAt + b[found].durationHours * 3600
    requires publishedAt <= cancelNow && b[found].createdAt < signedAt
    requires forall x | x in LiveIds(b, pruneNow) && b[x].key == b[found].key && !b[x].cancelled :: x == found
    ensures Retires(b, found, cancelNow, signedAt, pruneNow)
  {
  }

  // ---- Two devices -----------------------------------------------------------------------

  datatype Received = Received(id: string, row: Row)

  function IngestAll(received: seq<Received>): Board {
    if received == [] then map[]
    else Upsert(IngestAll(received[..|received| - 1]), received[|received| - 1].id, received[|received| - 1].row)
  }

  /** The same events, in any order and with any repeats. */
  ghost predicate SameReceived(a: seq<Received>, b: seq<Received>) {
    forall e :: e in a <==> e in b
  }

  ghost predicate IdNamesOneRow(received: seq<Received>) {
    forall e, f | e in received && f in received && e.id == f.id :: e.row == f.row
  }

  lemma {:induction false} BoardHolds(received: seq<Received>)
    requires IdNamesOneRow(received)
    ensures forall id :: id in IngestAll(received) <==> exists e :: e in received && e.id == id
    ensures forall e | e in received :: IngestAll(received)[e.id] == e.row
  {
    if received == [] {
    } else {
      var n := |received| - 1;
      assert received == received[..n] + [received[n]];
      BoardHolds(received[..n]);
    }
  }

  lemma SameReceivedSameBoard(a: seq<Received>, b: seq<Received>)
    requires SameReceived(a, b) && IdNamesOneRow(a)
    ensures IngestAll(a) == IngestAll(b)
  {
    BoardHolds(a);
    BoardHolds(b);
    forall id
      ensures (id in IngestAll(a) <==> id in IngestAll(b)) && (id in IngestAll(a) ==> IngestAll(a)[id] == IngestAll(b)[id])
    {
      if id in IngestAll(a) {
        var e :| e in a && e.id == id;
      }
    }
  }

  /** What a first event fixes: all but its expiry and its cancellation. */
  lemma {:induction false} FirstFixes(e: Received, rest: seq<Received>)
    ensures e.id in IngestAll([e] + rest)
    ensures var r := IngestAll([e] + rest)[e.id]; r.(expiresAt := e.row.expiresAt, cancelled := e.row.cancelled) == e.row
  {
    if rest == [] {
      assert [e] + rest == [e] && [e][..0] == [];
    } else {
      var n := |rest| - 1;
      FirstFixes(e, rest[..n]);
      assert ([e] + rest)[..n + 1] == [e] + rest[..n];
    }
  }

  lemma LastFixes(front: seq<Received>, e: Received)
    ensures e.id in IngestAll(front + [e])
    ensures IngestAll(front + [e])[e.id].expiresAt == e.row.expiresAt && IngestAll(front + [e])[e.id].cancelled == e.row.cancelled
  {
  }

  /**
   * Devices that received the same events hold the same board, in whatever order and with
   * whatever repeats they came, if and only if an event id names one row, as a hash does.
   */
  lemma IngestOrderFreeIff(a: seq<Received>)
    ensures (forall b | SameReceived(a, b) :: IngestAll(b) == IngestAll(a)) <==> IdNamesOneRow(a)
  {
    if IdNamesOneRow(a) {
      forall b | SameReceived(a, b)
        ensures IngestAll(b) == IngestAll(a)
      {
        SameReceivedSameBoard(a, b);
      }
    } else {
      var e, f :| e in a && f in a && e.id == f.id && e.row != f.row;
      TwoRowsDisagree(a, e, f);
    }
  }

  lemma TwoRowsDisagree(a: seq<Received>, e: Received, f: Received)
    requires e in a && f in a && e.id == f.id && e.row != f.row
    ensures !forall b | SameReceived(a, b) :: IngestAll(b) == IngestAll(a)
  {
    FirstFixes(e, a);
    FirstFixes(f, a);
    LastFixes(a, e);
    LastFixes(a, f);
    hide IngestAll;
    assert SameReceived(a, [e] + a) && SameReceived(a, [f] + a) && SameReceived(a, a + [e]) && SameReceived(a, a + [f]);
    assert IngestAll([e] + a) != IngestAll([f] + a) || IngestAll(a + [e]) != IngestAll(a + [f]);
  }
}
