/**
 * The key migration as it runs, on a database object whose durable writes can fail.
 *
 * `writesLeft` is how many more durable writes the device will complete before it loses
 * power. A write that fails leaves the database as it was and is propagated, so letting
 * `writesLeft` range over all naturals cuts an attempt off before every one of its writes.
 */
module KeyMigration {
  import opened Wrappers
  import opened RekeySpec

  /** What an unlock hands back. */
  datatype Unlock =
    | Opened(plain: string)
    | MigrationFailed(why: Outcome)
    | NoSalt
    | NoPkey
    | SeedFallback

  /** The secrets of an account: its keys and seed, imported accounts, inbox and bot secrets, direct messages and their edits. */
  predicate IsSecret(k: RowKey, kind: nat) {
    || (k.table == Settings && (k.id == "pkey" || k.id == "evm_pkey" || k.id == "seed"))
    || k.table == EvmAccounts || k.table == JoinInboxSecret || k.table == SquadBotSecret || k.table == Messages
    || (k.table == Events && (kind == 14 || kind == 16))
  }

  /** A secret column with something in it; the inbox and bot secrets are visited whatever they hold. */
  predicate IsFilledSecret(k: RowKey, row: Row) {
    IsSecret(k, row.kind) && (k.table == JoinInboxSecret || k.table == SquadBotSecret || (row.cell != Null && row.cell != Text("")))
  }

  /** The scan visits exactly the filled secrets, and refuses an account with more than 10,000 of them. */
  lemma ScanVisitsSecrets(rows: Rows)
    ensures ScannedIn(rows, 0, TABLES) == set k | k in rows && IsFilledSecret(k, rows[k])
    ensures MIGRATION_ROW_LIMIT == 10_000
  {
  }

  /** A row after a completed migration. */
  function SecretMoved(k: RowKey, row: Row, legacy: Key, newKey: Key): Row {
    if IsSecret(k, row.kind) && row.cell.Sealed? && row.cell.key == legacy then row.(cell := Sealed(newKey, row.cell.plain)) else row
  }

  lemma RekeyMovesSecrets(rows: Rows, legacy: Key, newKey: Key)
    requires legacy != newKey
    ensures forall k | k in rows :: var after := Rekey(rows, LegacyIn(rows, 0, TABLES, legacy, newKey), newKey);
      k in after && after[k] == SecretMoved(k, rows[k], legacy, newKey)
  {
    forall k | k in rows && rows[k].cell.Sealed?
      ensures 0 <= Rank(k.table) < TABLES && (Scanned(k, rows[k]) <==> IsSecret(k, rows[k].kind))
    {
    }
  }

  lemma ScannedUpTo(rows: Rows, n: nat)
    ensures |ScannedIn(rows, 0, n + 1)| == |ScannedIn(rows, 0, n)| + |ScannedIn(rows, n, n + 1)|
  {
    assert ScannedIn(rows, 0, n + 1) == ScannedIn(rows, 0, n) + ScannedIn(rows, n, n + 1);
    assert ScannedIn(rows, 0, n) !! ScannedIn(rows, n, n + 1);
  }

  /** Re-keying the first n tables and then the next is re-keying both sets of rows at once. */
  lemma RekeyThenNextTable(rows: Rows, n: nat, done: set<RowKey>, more: set<RowKey>, legacy: Key, newKey: Key)
    requires done <= LegacyIn(rows, 0, n, legacy, newKey)
    requires more <= LegacyIn(Rekey(rows, done, newKey), n, n + 1, legacy, newKey)
    ensures LegacyIn(Rekey(rows, done, newKey), n, n + 1, legacy, newKey) == LegacyIn(rows, n, n + 1, legacy, newKey)
    ensures UnreadableIn(Rekey(rows, done, newKey), n, n + 1, legacy, newKey) == UnreadableIn(rows, n, n + 1, legacy, newKey)
    ensures Rekey(Rekey(rows, done, newKey), more, newKey) == Rekey(rows, done + more, newKey)
    ensures done !! more && |done + more| == |done| + |more|
    ensures done + more <= LegacyIn(rows, 0, n + 1, legacy, newKey)
  {
    RekeySelects(rows, done, legacy, newKey, n, n, n + 1);
    assert LegacyIn(rows, n, n + 1, legacy, newKey) - done == LegacyIn(rows, n, n + 1, legacy, newKey);
    RekeyTwice(rows, done, more, newKey);
  }

  lemma RekeyTwice(rows: Rows, done: set<RowKey>, more: set<RowKey>, newKey: Key)
    ensures Rekey(Rekey(rows, done, newKey), more, newKey) == Rekey(rows, done + more, newKey)
  {
  }

  lemma RekeyOneMore(rows: Rows, done: set<RowKey>, k: RowKey, newKey: Key)
    requires k in rows && k !in done && rows[k].cell.Sealed?
    ensures Rekey(rows, done, newKey)[k := rows[k].(cell := Encrypt(rows[k].cell.plain, newKey))] == Rekey(rows, done + {k}, newKey)
  {
  }

  lemma RekeyNothing(rows: Rows, legacy: Key, newKey: Key)
    ensures Rekey(rows, {}, newKey) == rows
    ensures LegacyIn(rows, 0, 0, legacy, newKey) == {} && UnreadableIn(rows, 0, 0, legacy, newKey) == {}
  {
  }

  lemma AbsentTable(rows: Rows, t: TableName, legacy: Key, newKey: Key)
    requires forall k | k in rows :: k.table != t
    ensures LegacyIn(rows, Rank(t), Rank(t) + 1, legacy, newKey) == {}
    ensures UnreadableIn(rows, Rank(t), Rank(t) + 1, legacy, newKey) == {}
  {
  }

  lemma RekeyLeavesOthers(rows: Rows, done: set<RowKey>, k: RowKey, newKey: Key)
    requires k in rows && k !in done
    ensures Rekey(rows, done, newKey).Keys == rows.Keys && Rekey(rows, done, newKey)[k] == rows[k]
  {
  }

  /** A selected row is already new, still legacy, or unreadable. */
  lemma ClassifyRow(rows: Rows, k: RowKey, n: nat, legacy: Key, newKey: Key)
    requires k in ScannedIn(rows, n, n + 1)
    ensures k in LegacyIn(rows, n, n + 1, legacy, newKey) <==> Decrypt(rows[k].cell, newKey).None? && Decrypt(rows[k].cell, legacy).Some?
    ensures k in UnreadableIn(rows, n, n + 1, legacy, newKey) <==>
      Decrypt(rows[k].cell, newKey).None? && Decrypt(rows[k].cell, legacy).None?
  {
  }

  lemma ScanComplete(rows: Rows, ids: seq<RowKey>, cells: seq<Cell>, done: set<RowKey>, n: nat, legacy: Key, newKey: Key)
    requires |ids| == |cells| && forall k :: k in ids <==> k in ScannedIn(rows, n, n + 1)
    requires forall j | 0 <= j < |ids| :: ids[j] in rows && cells[j] == rows[ids[j]].cell
    requires done <= LegacyIn(rows, n, n + 1, legacy, newKey)
    requires forall j | 0 <= j < |ids| :: ids[j] in done || Decrypt(cells[j], newKey).Some?
    ensures done == LegacyIn(rows, n, n + 1, legacy, newKey)
    ensures UnreadableIn(rows, n, n + 1, legacy, newKey) == {}
  {
    forall k | k in ScannedIn(rows, n, n + 1)
      ensures k in done || Decrypt(rows[k].cell, newKey).Some?
    {
      assert k in ids;
    }
  }

  lemma LegacyUpTo(rows: Rows, n: nat, legacy: Key, newKey: Key)
    ensures LegacyIn(rows, 0, n + 1, legacy, newKey) == LegacyIn(rows, 0, n, legacy, newKey) + LegacyIn(rows, n, n + 1, legacy, newKey)
    ensures UnreadableIn(rows, 0, n + 1, legacy, newKey) ==
      UnreadableIn(rows, 0, n, legacy, newKey) + UnreadableIn(rows, n, n + 1, legacy, newKey)
    ensures n < TABLES ==> LegacyIn(rows, 0, n + 1, legacy, newKey) <= LegacyIn(rows, 0, TABLES, legacy, newKey)
    ensures n < TABLES ==> UnreadableIn(rows, 0, n + 1, legacy, newKey) <= UnreadableIn(rows, 0, TABLES, legacy, newKey)
  {
  }

  /** Ends that come before the salt is stored. */
  lemma WithoutSalt(s: Store, pin: Pin, salt: Salt)
    requires s.salt.Some? ==> s.salt.value == salt
    ensures StateAt(s, pin, salt, Untouched) == s && WritesMade(s, pin, salt, Untouched) == 0
    ensures SentinelSource(s).None? ==> Ends(s, pin, salt, Untouched, NoSentinel)
    ensures SentinelSource(s).Some? && s.salt.None? ==> Ends(s, pin, salt, Untouched, PowerCut)
  {
  }

  /** Storing the salt first changes neither where an attempt can end nor what it leaves, and costs one write. */
  lemma AfterSalt(s: Store, pin: Pin, salt: Salt, stage: Stage, r: Outcome)
    requires s.salt.Some? ==> s.salt.value == salt
    requires !stage.Untouched? && Ends(s.(salt := Some(salt)), pin, salt, stage, r)
    ensures Ends(s, pin, salt, stage, r)
    ensures StateAt(s, pin, salt, stage) == StateAt(s.(salt := Some(salt)), pin, salt, stage)
    ensures WritesMade(s, pin, salt, stage) == WritesMade(s.(salt := Some(salt)), pin, salt, stage) + if s.salt.None? then 1 else 0
  {
  }

  class Account {
    var rows: Rows
    var present: set<TableName>
    var version: Option<nat>
    var salt: Option<Salt>
    var sentinel: Option<Cell>
    var inProgress: bool
    var session: Option<Key>
    var writesLeft: nat

    /** Settings always exist; a table that does not exist holds no rows. */
    ghost predicate Valid()
      reads this
    {
      Settings in present && forall k | k in rows :: k.table in present
    }

    ghost function Snapshot(): Store
      reads this
    {
      Store(rows, version, salt, sentinel, inProgress)
    }

    constructor (rows: Rows, present: set<TableName>, version: Option<nat>, salt: Option<Salt>,
        sentinel: Option<Cell>, inProgress: bool, writesLeft: nat)
      requires Settings in present && forall k | k in rows :: k.table in present
      ensures Valid() && Snapshot() == Store(rows, version, salt, sentinel, inProgress) && session == None && this.writesLeft == writesLeft
    {
      this.rows, this.present, this.version, this.salt := rows, present, version, salt;
      this.sentinel, this.inProgress, this.session, this.writesLeft := sentinel, inProgress, None, writesLeft;
    }

    /** The rows a table's SELECT returns, in whatever order the engine yields them. */
    method Query(t: TableName) returns (ids: seq<RowKey>, cells: seq<Cell>)
      ensures |ids| == |cells|
      ensures forall k :: k in ids <==> k in ScannedIn(rows, Rank(t), Rank(t) + 1)
      ensures forall i, j | 0 <= i < j < |ids| :: ids[i] != ids[j]
      ensures forall i | 0 <= i < |ids| :: ids[i] in rows && cells[i] == rows[ids[i]].cell
    {
      var all := ScannedIn(rows, Rank(t), Rank(t) + 1);
      var rest := all;
      ids, cells := [], [];
      while rest != {}
        invariant rest <= all && |ids| == |cells|
        invariant forall k :: k in ids <==> k in all - rest
        invariant forall i, j | 0 <= i < j < |ids| :: ids[i] != ids[j]
        invariant forall i | 0 <= i < |ids| :: ids[i] in rows && cells[i] == rows[ids[i]].cell
        decreases rest
      {
        var k :| k in rest;
        assert k !in ids;
        ids, cells := ids + [k], cells + [rows[k].cell];
        rest := rest - {k};
      }
    }

    /** UPDATE of one encrypted column, in a transaction of its own. */
    method UpdateSingleRow(k: RowKey, cell: Cell) returns (ok: bool)
      requires k in rows
      modifies this`rows, this`writesLeft
      ensures ok <==> old(writesLeft) > 0
      ensures ok ==> rows == old(rows)[k := old(rows)[k].(cell := cell)] && writesLeft == old(writesLeft) - 1
      ensures !ok ==> rows == old(rows) && writesLeft == old(writesLeft)
    {
      ok := writesLeft > 0;
      if ok {
        rows := rows[k := rows[k].(cell := cell)];
        writesLeft := writesLeft - 1;
      }
    }

    /** Counts the rows the scan will visit; agrees with the scan because it selects by the same rule. */
    method CountEncryptedRows() returns (count: nat)
      requires Valid()
      ensures count == |ScannedIn(rows, 0, TABLES)|
      ensures count == |set k | k in rows && IsFilledSecret(k, rows[k])|
    {
      ScanVisitsSecrets(rows);
      assert ScannedIn(rows, 0, 0) == {};
      ScannedUpTo(rows, 0);
      count := |ScannedIn(rows, 0, 1)|;
      count := CountNext(EvmAccounts, count);
      count := CountNext(JoinInboxSecret, count);
      count := CountNext(SquadBotSecret, count);
      count := CountNext(Events, count);
      count := CountNext(Messages, count);
    }

    /** Adds one table's SELECT COUNT, if the table exists. */
    method CountNext(t: TableName, count: nat) returns (total: nat)
      requires Valid() && count == |ScannedIn(rows, 0, Rank(t))|
      ensures total == |ScannedIn(rows, 0, Rank(t) + 1)|
    {
      ScannedUpTo(rows, Rank(t));
      if t !in present {
        assert ScannedIn(rows, Rank(t), Rank(t) + 1) == {};
        return count;
      }
      total := count + |ScannedIn(rows, Rank(t), Rank(t) + 1)|;
    }

    /** The body of the scan: skip a row the new key opens, otherwise seal it again; None on success. */
    method MigrateRow(k: RowKey, cell: Cell, legacy: Key, newKey: Key, n: nat, ghost start: Rows, ghost done: set<RowKey>)
      returns (failure: Option<Outcome>, rewritten: bool)
      requires Valid() && legacy != newKey && rows == Rekey(start, done, newKey)
      requires k in ScannedIn(start, n, n + 1) && cell == start[k].cell && k !in done
      modifies this`rows, this`writesLeft
      ensures Valid() && rows == Rekey(start, if rewritten then done + {k} else done, newKey)
      ensures writesLeft == if rewritten then old(writesLeft) - 1 else old(writesLeft)
      ensures rewritten ==> k in LegacyIn(start, n, n + 1, legacy, newKey) && failure.None?
      ensures failure.None? ==> rewritten || Decrypt(cell, newKey).Some?
      ensures failure.Some? ==>
        || (failure.value == BadRow(k) && k in UnreadableIn(start, n, n + 1, legacy, newKey))
        || (failure.value == PowerCut && writesLeft == 0 && k in LegacyIn(start, n, n + 1, legacy, newKey))
    {
      RekeyLeavesOthers(start, done, k, newKey);
      ClassifyRow(start, k, n, legacy, newKey);
      hide RekeySpec.Rekey, RekeySpec.ScannedIn, RekeySpec.LegacyIn, RekeySpec.UnreadableIn;
      if Decrypt(cell, newKey).Some? {
        return None, false;
      }
      var plain := Decrypt(cell, legacy);
      if plain.None? {
        return Some(BadRow(k)), false;
      }
      var ok := UpdateSingleRow(k, Encrypt(plain.value, newKey));
      if !ok {
        return Some(PowerCut), false;
      }
      RekeyOneMore(start, done, k, newKey);
      return None, true;
    }

    /**
     * Re-encrypts one table row by row. However it ends, the rows `done` and no others carry
     * the new key, one durable write each; it completes exactly when no legacy row is left.
     */
    method MigrateTableRows(t: TableName, legacy: Key, newKey: Key) returns (r: Outcome, ghost done: set<RowKey>)
      requires Valid() && legacy != newKey
      modifies this`rows, this`writesLeft
      ensures Valid() && rows == Rekey(old(rows), done, newKey)
      ensures done <= LegacyIn(old(rows), Rank(t), Rank(t) + 1, legacy, newKey)
      ensures writesLeft + |done| == old(writesLeft)
      ensures match r
              case Done(count) =>
                && count == |done| && done == LegacyIn(old(rows), Rank(t), Rank(t) + 1, legacy, newKey)
                && UnreadableIn(old(rows), Rank(t), Rank(t) + 1, legacy, newKey) == {}
              case BadRow(k) => k in UnreadableIn(old(rows), Rank(t), Rank(t) + 1, legacy, newKey)
              case PowerCut => writesLeft == 0 && done < LegacyIn(old(rows), Rank(t), Rank(t) + 1, legacy, newKey)
              case _ => false
    {
      ghost var start := rows;
      var ids, cells := Query(t);
      RekeyNothing(start, legacy, newKey);
      hide RekeySpec.Rekey, RekeySpec.ScannedIn, RekeySpec.LegacyIn, RekeySpec.UnreadableIn;
      done := {};
      var reencrypted := 0;
      var i := 0;
      while i < |ids|
        invariant 0 <= i <= |ids| && Valid()
        invariant done <= LegacyIn(start, Rank(t), Rank(t) + 1, legacy, newKey)
        invariant |done| == reencrypted && writesLeft + reencrypted == old(writesLeft)
        invariant rows == Rekey(start, done, newKey)
        invariant forall j | 0 <= j < i :: ids[j] in done || Decrypt(cells[j], newKey).Some?
        invariant forall j | i <= j < |ids| :: ids[j] !in done
      {
        assert ids[i] in ids;
        var failure, rewritten := MigrateRow(ids[i], cells[i], legacy, newKey, Rank(t), start, done);
        if failure.Some? {
          return failure.value, done;
        }
        if rewritten {
          done := done + {ids[i]};
          reencrypted := reencrypted + 1;
        }
        i := i + 1;
      }
      ScanComplete(start, ids, cells, done, Rank(t), legacy, newKey);
      r := Done(reencrypted);
    }

    /** One more table of the scan, after the first `Rank(t)` tables. */
    method MigrateNextTable(t: TableName, legacy: Key, newKey: Key, soFar: nat, ghost start: Rows, ghost done: set<RowKey>)
      returns (r: Outcome, ghost done': set<RowKey>)
      requires Valid() && legacy != newKey
      requires done == LegacyIn(start, 0, Rank(t), legacy, newKey) && UnreadableIn(start, 0, Rank(t), legacy, newKey) == {}
      requires rows == Rekey(start, done, newKey) && soFar == |done|
      modifies this`rows, this`writesLeft
      ensures Valid() && rows == Rekey(start, done', newKey)
      ensures done' <= LegacyIn(start, 0, TABLES, legacy, newKey)
      ensures writesLeft + |done'| == old(writesLeft) + |done|
      ensures match r
              case Done(count) =>
                && count == |done'| && done' == LegacyIn(start, 0, Rank(t) + 1, legacy, newKey)
                && UnreadableIn(start, 0, Rank(t) + 1, legacy, newKey) == {}
              case BadRow(k) => k in UnreadableIn(start, 0, TABLES, legacy, newKey)
              case PowerCut => writesLeft == 0
              case _ => false
    {
      hide RekeySpec.Rekey, RekeySpec.ScannedIn, RekeySpec.LegacyIn, RekeySpec.UnreadableIn;
      LegacyUpTo(start, Rank(t), legacy, newKey);
      RekeyKeepsReading(start, done, legacy, newKey, Rank(t));
      if t !in present {
        AbsentTable(start, t, legacy, newKey);
        return Done(soFar), done;
      }
      ghost var more;
      r, more := MigrateTableRows(t, legacy, newKey);
      RekeyThenNextTable(start, Rank(t), done, more, legacy, newKey);
      done' := done + more;
      if r.Done? {
        r := Done(soFar + r.count);
      }
    }

    method MigrateAllTables(legacy: Key, newKey: Key) returns (r: Outcome, ghost done: set<RowKey>)
      requires Valid() && legacy != newKey
      modifies this`rows, this`writesLeft
      ensures Valid() && rows == Rekey(old(rows), done, newKey)
      ensures done <= LegacyIn(old(rows), 0, TABLES, legacy, newKey)
      ensures writesLeft + |done| == old(writesLeft)
      ensures done != {} ==> |ScannedIn(old(rows), 0, TABLES)| <= MIGRATION_ROW_LIMIT
      ensures match r
              case TooManyRows(n) => n == |ScannedIn(old(rows), 0, TABLES)| && n > MIGRATION_ROW_LIMIT && done == {}
              case Done(count) =>
                && count == |done| && done == LegacyIn(old(rows), 0, TABLES, legacy, newKey)
                && UnreadableIn(old(rows), 0, TABLES, legacy, newKey) == {} && |ScannedIn(old(rows), 0, TABLES)| <= MIGRATION_ROW_LIMIT
              case BadRow(k) => k in UnreadableIn(old(rows), 0, TABLES, legacy, newKey)
                && |ScannedIn(old(rows), 0, TABLES)| <= MIGRATION_ROW_LIMIT
              case PowerCut => writesLeft == 0
              case _ => false
      ensures r.Done? ==> forall k | k in old(rows) ::
        k in rows && rows[k] == SecretMoved(k, old(rows)[k], legacy, newKey)
    {
      ghost var start := rows;
      RekeyNothing(start, legacy, newKey);
      hide RekeySpec.Rekey, RekeySpec.ScannedIn, RekeySpec.LegacyIn, RekeySpec.UnreadableIn;
      var total := CountEncryptedRows();
      if total > MIGRATION_ROW_LIMIT {
        return TooManyRows(total), {};
      }
      r, done := MigrateNextTable(Settings, legacy, newKey, 0, start, {});
      if !r.Done? { return; }
      r, done := MigrateNextTable(EvmAccounts, legacy, newKey, r.count, start, done);
      if !r.Done? { return; }
      r, done := MigrateNextTable(JoinInboxSecret, legacy, newKey, r.count, start, done);
      if !r.Done? { return; }
      r, done := MigrateNextTable(SquadBotSecret, legacy, newKey, r.count, start, done);
      if !r.Done? { return; }
      r, done := MigrateNextTable(Events, legacy, newKey, r.count, start, done);
      if !r.Done? { return; }
      r, done := MigrateNextTable(Messages, legacy, newKey, r.count, start, done);
      if r.Done? {
        RekeyMovesSecrets(start, legacy, newKey);
      }
    }

    method StoreSalt(s: Salt) returns (ok: bool)
      modifies this`salt, this`writesLeft
      ensures ok <==> old(writesLeft) > 0
      ensures writesLeft == if ok then old(writesLeft) - 1 else 0
      ensures salt == if ok then Some(s) else old(salt)
    {
      ok := writesLeft > 0;
      if ok { salt := Some(s); writesLeft := writesLeft - 1; }
    }

    method SetInProgress(flag: bool) returns (ok: bool)
      modifies this`inProgress, this`writesLeft
      ensures ok <==> old(writesLeft) > 0
      ensures writesLeft == if ok then old(writesLeft) - 1 else 0
      ensures inProgress == if ok then flag else old(inProgress)
    {
      ok := writesLeft > 0;
      if ok { inProgress := flag; writesLeft := writesLeft - 1; }
    }

    method SetVersion(v: nat) returns (ok: bool)
      modifies this`version, this`writesLeft
      ensures ok <==> old(writesLeft) > 0
      ensures writesLeft == if ok then old(writesLeft) - 1 else 0
      ensures version == if ok then Some(v) else old(version)
    {
      ok := writesLeft > 0;
      if ok { version := Some(v); writesLeft := writesLeft - 1; }
    }

    method SetSentinel(cell: Cell) returns (ok: bool)
      modifies this`sentinel, this`writesLeft
      ensures ok <==> old(writesLeft) > 0
      ensures writesLeft == if ok then old(writesLeft) - 1 else 0
      ensures sentinel == if ok then Some(cell) else old(sentinel)
    {
      ok := writesLeft > 0;
      if ok { sentinel := Some(cell); writesLeft := writesLeft - 1; }
    }

    /** Validates the PIN, raises the flag, re-keys every row, then moves version, sentinel and flag. */
    method MigrateAccountEncryption(pin: Pin, newSalt: Salt, source: Cell) returns (r: Outcome, ghost stage: Stage)
      requires Valid() && salt == Some(newSalt) && SentinelSource(Snapshot()) == Some(source)
      modifies this
      ensures Valid() && present == old(present) && session == old(session)
      ensures Ends(old(Snapshot()), pin, newSalt, stage, r) && !stage.Untouched?
      ensures Snapshot() == StateAt(old(Snapshot()), pin, newSalt, stage)
      ensures writesLeft + WritesMade(old(Snapshot()), pin, newSalt, stage) == old(writesLeft)
      ensures r == PowerCut ==> writesLeft == 0
    {
      ghost var s := Snapshot();
      var legacy, newKey := Legacy(pin), Derived(pin, newSalt);
      var plain := OpenSentinel(source, legacy, newKey);
      if plain.None? {
        return WrongPin, SaltStored;
      }
      var ok := SetInProgress(true);
      if !ok {
        return PowerCut, SaltStored;
      }
      ghost var done;
      r, done := MigrateAllTables(legacy, newKey);
      stage := FlagRaised(done);
      if !r.Done? {
        return;
      }
      var count := r.count;
      ok := SetVersion(2);
      if !ok {
        return PowerCut, stage;
      }
      ok := SetSentinel(Encrypt(plain.value, newKey));
      if !ok {
        return PowerCut, VersionWritten;
      }
      ok := SetInProgress(false);
      if !ok {
        return PowerCut, SentinelWritten;
      }
      return Done(count), Finished;
    }

    /** One attempt with one PIN; `generated` is the salt drawn when none is stored yet. */
    method MigrateKeyDerivation(pin: Pin, generated: Salt) returns (r: Outcome, ghost stage: Stage)
      requires Valid()
      modifies this
      ensures Valid() && present == old(present) && session == old(session)
      ensures Ends(old(Snapshot()), pin, old(salt).GetOr(generated), stage, r)
      ensures Snapshot() == StateAt(old(Snapshot()), pin, old(salt).GetOr(generated), stage)
      ensures writesLeft + WritesMade(old(Snapshot()), pin, old(salt).GetOr(generated), stage) == old(writesLeft)
      ensures r == PowerCut ==> writesLeft == 0
    {
      hide RekeySpec.Ends, RekeySpec.StateAt, RekeySpec.WritesMade;
      ghost var s := Snapshot();
      WithoutSalt(s, pin, salt.GetOr(generated));
      var source := sentinel;
      if source.None? && PKEY in rows && rows[PKEY].cell != Null {
        source := Some(rows[PKEY].cell);
      }
      if source.None? {
        return NoSentinel, Untouched;
      }
      var theSalt := salt.GetOr(generated);
      if salt.None? {
        var ok := StoreSalt(theSalt);
        if !ok {
          return PowerCut, Untouched;
        }
      }
      r, stage := MigrateAccountEncryption(pin, theSalt, source.value);
      AfterSalt(s, pin, theSalt, stage, r);
    }

    /**
     * Unlocking: repair an account that is not fully migrated, then open the stored pkey.
     * `ciphertext` is the pkey the caller read before unlocking.
     */
    method DecryptWithPassword(ciphertext: Cell, pin: Pin, generated: Salt) returns (r: Unlock)
      requires Valid()
      modifies this
      ensures Valid()
      ensures UnlockEnds(old(Snapshot()), ciphertext, pin, generated, old(writesLeft), Snapshot(), r)
      ensures session == SessionAfter(old(session), pin, salt, r)
    {
      hide RekeySpec.Ends, RekeySpec.StateAt, RekeySpec.WritesMade;
      var migrationRan := version.GetOr(1) != 2 || inProgress;
      if migrationRan {
        ghost var s, budget := Snapshot(), writesLeft;
        ghost var stage;
        var outcome;
        outcome, stage := MigrateKeyDerivation(pin, generated);
        assert AttemptWithin(s, pin, generated, budget, Snapshot(), outcome);
        if !outcome.Done? {
          return MigrationFailed(outcome);
        }
      }
      if salt.None? {
        return NoSalt;
      }
      session := Some(Derived(pin, salt.value));
      var target := ciphertext;
      if migrationRan {
        if PKEY !in rows || rows[PKEY].cell == Null {
          return NoPkey;
        }
        target := rows[PKEY].cell;
      }
      var plain := Decrypt(target, Derived(pin, salt.value));
      if plain.Some? {
        return Opened(plain.value);
      }
      plain := Decrypt(target, Legacy(pin));
      if plain.Some? {
        return Opened(plain.value);
      }
      return SeedFallback;
    }

    /** Saves an event under the session key, if one is installed; INSERT OR IGNORE keeps a known id. */
    method SaveEvent(id: string, kind: nat, content: string) returns (ok: bool)
      requires Valid() && Events in present
      modifies this`rows, this`writesLeft
      ensures Valid()
      ensures ok <==> (Encrypts(kind) ==> session.Some?) && (old(writesLeft) > 0 || RowKey(Events, id) in old(rows))
      ensures rows == if ok then Saved(old(rows), session, id, kind, content) else old(rows)
    {
      var cell := Text(content);
      if Encrypts(kind) {
        if session.None? {
          return false;
        }
        cell := Encrypt(content, session.value);
      }
      var k := RowKey(Events, id);
      if k in rows {
        return true;
      }
      ok := writesLeft > 0;
      if ok {
        rows := rows[k := Row(kind, cell)];
        writesLeft := writesLeft - 1;
      }
    }
  }

  /** Fully migrated, as the unlock path judges it from the two markers. */
  predicate Migrated(s: Store) {
    s.version.GetOr(1) == 2 && !s.inProgress
  }

  function OpenPkey(s: Store, target: Option<Cell>, pin: Pin): Unlock {
    if s.salt.None? then NoSalt
    else if target.None? then NoPkey
    else
      var plain := OpenSentinel(target.value, Legacy(pin), Derived(pin, s.salt.value));
      if plain.Some? then Opened(plain.value) else SeedFallback
  }

  /** An attempt that has `writes` durable writes to spend: cut off exactly where they run out. */
  ghost predicate AttemptWithin(s: Store, pin: Pin, generated: Salt, writes: nat, s': Store, outcome: Outcome) {
    var salt := s.salt.GetOr(generated);
    exists stage ::
      && Ends(s, pin, salt, stage, outcome) && s' == StateAt(s, pin, salt, stage)
      && WritesMade(s, pin, salt, stage) <= writes
      && (outcome == PowerCut ==> WritesMade(s, pin, salt, stage) == writes)
  }

  ghost predicate UnlockEnds(s: Store, ciphertext: Cell, pin: Pin, generated: Salt, writes: nat, s': Store, r: Unlock) {
    if Migrated(s) then s' == s && r == OpenPkey(s, Some(ciphertext), pin)
    else exists outcome ::
      && AttemptWithin(s, pin, generated, writes, s', outcome)
      && r == if outcome.Done? then OpenPkey(s', StoredPkey(s'.rows), pin) else MigrationFailed(outcome)
  }

  /** The session key after an unlock: it is installed once the salt is known, before the pkey is tried. */
  function SessionAfter(session: Option<Key>, pin: Pin, salt: Option<Salt>, r: Unlock): Option<Key> {
    if r.MigrationFailed? || salt.None? then session else Some(Derived(pin, salt.value))
  }

  predicate Encrypts(kind: nat) {
    kind in {PRIVATE_DIRECT_MESSAGE, FILE_ATTACHMENT, MESSAGE_EDIT}
  }

  /** The rows after an event is saved: a known id stays as it is, and nothing is sealed without a session key. */
  function Saved(rows: Rows, session: Option<Key>, id: string, kind: nat, content: string): Rows {
    var k := RowKey(Events, id);
    if k in rows || (Encrypts(kind) && session.None?) then rows
    else rows[k := Row(kind, if Encrypts(kind) then Encrypt(content, session.value) else Text(content))]
  }

  /** A new direct message (14), caption (15) or edit (16) is stored sealed under the session key, anything else as it is. */
  lemma SavedAs(rows: Rows, key: Key, id: string, kind: nat, content: string)
    requires RowKey(Events, id) !in rows
    ensures Saved(rows, Some(key), id, kind, content)
      == rows[RowKey(Events, id) := Row(kind, if kind == 14 || kind == 15 || kind == 16 then Sealed(key, content) else Text(content))]
    ensures Saved(rows, None, id, kind, content) == if 14 <= kind <= 16 then rows else rows[RowKey(Events, id) := Row(kind, Text(content))]
  {
  }
}
