/**
 * What survives any number of unlock and migration attempts, with right and wrong PINs,
 * each stopped at any durable write.
 */
module MigrationRuns {
  import opened Wrappers
  import opened RekeySpec
  import opened KeyMigration

  /** Sealed under the legacy key of `pin`, or under its key for the salt on disk. */
  predicate Held(cell: Cell, pin: Pin, salt: Option<Salt>) {
    cell.Sealed? && (cell.key == Legacy(pin) || (salt.Some? && cell.key == Derived(pin, salt.value)))
  }

  predicate UnderNewKey(cell: Cell, pin: Pin, salt: Option<Salt>) {
    cell.Sealed? && salt.Some? && cell.key == Derived(pin, salt.value)
  }

  /**
   * An account owned by `pin` whose scanned rows hold the plaintexts `plains`. A fully
   * migrated one has every scanned row and its sentinel under the new key.
   */
  ghost predicate Recoverable(s: Store, pin: Pin, plains: map<RowKey, string>) {
    && plains.Keys == ScannedIn(s.rows, 0, TABLES) && PKEY in plains
    && (forall k | k in plains :: Held(s.rows[k].cell, pin, s.salt) && s.rows[k].cell.plain == plains[k])
    && (s.sentinel.Some? ==> Held(s.sentinel.value, pin, s.salt))
    && (Migrated(s) ==>
          && s.sentinel.Some? && UnderNewKey(s.sentinel.value, pin, s.salt)
          && forall k | k in plains :: UnderNewKey(s.rows[k].cell, pin, s.salt))
  }

  /** An account as it was before key derivation changed: everything under the legacy key, version 1 or unset. */
  ghost predicate LegacyAccount(s: Store, pin: Pin, plains: map<RowKey, string>) {
    && plains.Keys == ScannedIn(s.rows, 0, TABLES) && PKEY in plains
    && (forall k | k in plains :: s.rows[k].cell == Sealed(Legacy(pin), plains[k]))
    && (s.sentinel.Some? ==> s.sentinel.value.Sealed? && s.sentinel.value.key == Legacy(pin))
    && s.version.GetOr(1) != 2
  }

  lemma LegacyAccountIsRecoverable(s: Store, pin: Pin, plains: map<RowKey, string>)
    requires LegacyAccount(s, pin, plains)
    ensures Recoverable(s, pin, plains)
  {
  }

  lemma OwnerRowsAllReadable(s: Store, pin: Pin, plains: map<RowKey, string>, salt: Salt)
    requires Recoverable(s, pin, plains) && (s.salt.Some? ==> s.salt.value == salt)
    ensures UnreadableIn(s.rows, 0, TABLES, Legacy(pin), Derived(pin, salt)) == {}
    ensures LegacyIn(s.rows, 0, TABLES, Legacy(pin), Derived(pin, salt)) == set k | k in plains && s.rows[k].cell.key == Legacy(pin)
    ensures SentinelSource(s).Some? && OpenSentinel(SentinelSource(s).value, Legacy(pin), Derived(pin, salt)).Some?
  {
  }

  /** A wrong PIN reaches no row, marker or sentinel: at most it stores the missing salt. */
  lemma WrongPinOnlyStoresSalt(s: Store, pin: Pin, plains: map<RowKey, string>, wrong: Pin, s': Store, outcome: Outcome)
    requires Recoverable(s, pin, plains) && wrong != pin && Attempt(s, wrong, s', outcome)
    ensures outcome == WrongPin || outcome == PowerCut
    ensures s' == s.(salt := s'.salt) && (s.salt.Some? ==> s'.salt == s.salt)
  {
  }

  /** No migration, however it ends and whichever PIN drives it, replaces a stored salt. */
  lemma SaltIsNeverReplaced(s: Store, pin: Pin, s': Store, outcome: Outcome)
    requires Attempt(s, pin, s', outcome) && s.salt.Some?
    ensures s'.salt == s.salt
  {
  }

  /** Re-keying some of the owner's waiting rows, or all of them. */
  lemma RekeyKeepsHeld(s: Store, pin: Pin, plains: map<RowKey, string>, salt: Salt, done: set<RowKey>)
    requires Recoverable(s, pin, plains) && (s.salt.Some? ==> s.salt.value == salt)
    requires done <= LegacyIn(s.rows, 0, TABLES, Legacy(pin), Derived(pin, salt))
    ensures var rows := Rekey(s.rows, done, Derived(pin, salt));
      && plains.Keys == ScannedIn(rows, 0, TABLES) && plains.Keys <= rows.Keys
      && (forall k | k in plains :: Held(rows[k].cell, pin, Some(salt)) && rows[k].cell.plain == plains[k])
      && (done == LegacyIn(s.rows, 0, TABLES, Legacy(pin), Derived(pin, salt)) ==>
            forall k | k in plains :: UnderNewKey(rows[k].cell, pin, Some(salt)))
  {
  }

  lemma OwnerStageKeepsRecoverable(s: Store, pin: Pin, plains: map<RowKey, string>, salt: Salt, stage: Stage, outcome: Outcome)
    requires Recoverable(s, pin, plains) && Ends(s, pin, salt, stage, outcome)
    ensures Recoverable(StateAt(s, pin, salt, stage), pin, plains)
  {
    OwnerRowsAllReadable(s, pin, plains, salt);
    var todo := LegacyIn(s.rows, 0, TABLES, Legacy(pin), Derived(pin, salt));
    hide RekeySpec.Rekey, RekeySpec.ScannedIn, RekeySpec.LegacyIn, RekeySpec.UnreadableIn;
    RekeyKeepsHeld(s, pin, plains, salt, if stage.FlagRaised? then stage.done else todo);
  }

  /** However an attempt ends, and with whichever PIN, the account stays recoverable. */
  lemma {:induction false} AttemptKeepsRecoverable(s: Store, pin: Pin, plains: map<RowKey, string>, tried: Pin, s': Store, outcome: Outcome)
    requires Recoverable(s, pin, plains) && Attempt(s, tried, s', outcome)
    ensures Recoverable(s', pin, plains)
  {
    if tried != pin {
      WrongPinOnlyStoresSalt(s, pin, plains, tried, s', outcome);
    } else {
      hide Recoverable, RekeySpec.Ends, RekeySpec.StateAt;
      var salt, stage :| Ends(s, pin, salt, stage, outcome) && s' == StateAt(s, pin, salt, stage);
      OwnerStageKeepsRecoverable(s, pin, plains, salt, stage, outcome);
    }
  }

  /** A history of attempts: the states between them, the PIN tried and the outcome each time. */
  ghost predicate History(states: seq<Store>, pins: seq<Pin>, outcomes: seq<Outcome>) {
    && |states| == |pins| + 1 == |outcomes| + 1
    && forall i | 0 <= i < |pins| :: Attempt(states[i], pins[i], states[i + 1], outcomes[i])
  }

  /**
   * At every crash point of every history: all scanned rows still hold their plaintexts,
   * none lost, added or swapped, and the two markers never claim more than was done.
   */
  lemma {:induction false} HistoryKeepsRecoverable(states: seq<Store>, pins: seq<Pin>, outcomes: seq<Outcome>,
      pin: Pin, plains: map<RowKey, string>, n: nat)
    requires History(states, pins, outcomes) && n < |states|
    requires Recoverable(states[0], pin, plains)
    ensures Recoverable(states[n], pin, plains)
  {
    if n == 0 {
    } else {
      HistoryKeepsRecoverable(states, pins, outcomes, pin, plains, n - 1);
      AttemptKeepsRecoverable(states[n - 1], pin, plains, pins[n - 1], states[n], outcomes[n - 1]);
    }
  }

  lemma WithinIsAttempt(s: Store, pin: Pin, generated: Salt, writes: nat, s': Store, outcome: Outcome)
    requires AttemptWithin(s, pin, generated, writes, s', outcome)
    ensures Attempt(s, pin, s', outcome)
  {
    hide RekeySpec.Ends, RekeySpec.StateAt, RekeySpec.WritesMade;
  }

  /** The durable writes an attempt takes from here to its end. */
  function WritesNeeded(s: Store, pin: Pin): nat {
    |Waiting(s, pin)| + if s.salt.None? then 5 else 4
  }

  /** Every stage before the last has made fewer writes than the whole attempt takes. */
  lemma WritesUpTo(s: Store, pin: Pin, plains: map<RowKey, string>, salt: Salt, stage: Stage, outcome: Outcome)
    requires Recoverable(s, pin, plains) && Ends(s, pin, salt, stage, outcome)
    ensures WritesMade(s, pin, salt, Finished) == WritesNeeded(s, pin)
    ensures !stage.Finished? ==> WritesMade(s, pin, salt, stage) < WritesNeeded(s, pin)
  {
    WaitingIsLegacy(s, pin, plains, salt);
    hide RekeySpec.LegacyIn, RekeySpec.UnreadableIn, RekeySpec.ScannedIn, Waiting, Recoverable;
    if stage.FlagRaised? {
      SubsetIsSmaller(stage.done, LegacyIn(s.rows, 0, TABLES, Legacy(pin), Derived(pin, salt)));
    }
  }

  /**
   * The owner's attempt completes exactly when the rows are within the limit and its writes
   * suffice; otherwise it reports the row limit or was cut off.
   */
  lemma OwnerAttemptEnds(s: Store, pin: Pin, plains: map<RowKey, string>, generated: Salt, writes: nat, s': Store, outcome: Outcome)
    requires Recoverable(s, pin, plains) && AttemptWithin(s, pin, generated, writes, s', outcome)
    ensures outcome.Done? <==> |plains| <= MIGRATION_ROW_LIMIT && WritesNeeded(s, pin) <= writes
    ensures !outcome.Done? ==> outcome == PowerCut || outcome == TooManyRows(|plains|)
    ensures outcome.Done? ==> Migrated(s')
  {
    var salt := s.salt.GetOr(generated);
    var stage :|
      && Ends(s, pin, salt, stage, outcome) && s' == StateAt(s, pin, salt, stage)
      && WritesMade(s, pin, salt, stage) <= writes
      && (outcome == PowerCut ==> WritesMade(s, pin, salt, stage) == writes);
    OwnerRowsAllReadable(s, pin, plains, salt);
    WritesUpTo(s, pin, plains, salt, stage, outcome);
    assert plains.Keys == ScannedIn(s.rows, 0, TABLES) && |plains| == |plains.Keys|;
    hide Recoverable, WritesNeeded, RekeySpec.WritesMade, RekeySpec.Rekey, RekeySpec.ScannedIn, RekeySpec.LegacyIn, RekeySpec.UnreadableIn;
  }

  /**
   * The guarantee the migration exists for. After any history, an unlock with the right PIN
   * returns the original secret exactly when the account is already migrated, or is small
   * enough to migrate and the unlock may make the writes that takes; otherwise it reports the
   * row limit or was cut off.
   */
  lemma {:induction false} UnlockAfterAnyHistory(
      states: seq<Store>, pins: seq<Pin>, outcomes: seq<Outcome>, pin: Pin, plains: map<RowKey, string>,
      generated: Salt, writes: nat, s': Store, r: Unlock)
    requires History(states, pins, outcomes) && Recoverable(states[0], pin, plains)
    requires var last := states[|pins|]; PKEY in last.rows && UnlockEnds(last, last.rows[PKEY].cell, pin, generated, writes, s', r)
    ensures var last := states[|pins|];
      r == Opened(plains[PKEY]) <==> Migrated(last) || (|plains| <= MIGRATION_ROW_LIMIT && WritesNeeded(last, pin) <= writes)
    ensures r != Opened(plains[PKEY]) ==> r == MigrationFailed(TooManyRows(|plains|)) || r == MigrationFailed(PowerCut)
    ensures Recoverable(s', pin, plains) && (r.Opened? ==> Migrated(s'))
  {
    HistoryKeepsRecoverable(states, pins, outcomes, pin, plains, |pins|);
    OwnerUnlockEnds(states[|pins|], pin, plains, generated, writes, s', r);
  }

  lemma OwnerUnlockEnds(s: Store, pin: Pin, plains: map<RowKey, string>, generated: Salt, writes: nat, s': Store, r: Unlock)
    requires Recoverable(s, pin, plains) && PKEY in s.rows && UnlockEnds(s, s.rows[PKEY].cell, pin, generated, writes, s', r)
    ensures r == Opened(plains[PKEY]) <==> Migrated(s) || (|plains| <= MIGRATION_ROW_LIMIT && WritesNeeded(s, pin) <= writes)
    ensures r != Opened(plains[PKEY]) ==> r == MigrationFailed(TooManyRows(|plains|)) || r == MigrationFailed(PowerCut)
    ensures Recoverable(s', pin, plains) && (r.Opened? ==> r == Opened(plains[PKEY]) && Migrated(s'))
  {
    if Migrated(s) {
      MigratedOpens(s, pin, plains);
    } else {
      hide AttemptWithin, WritesNeeded;
      var outcome :| AttemptWithin(s, pin, generated, writes, s', outcome)
        && r == if outcome.Done? then OpenPkey(s', StoredPkey(s'.rows), pin) else MigrationFailed(outcome);
      WithinIsAttempt(s, pin, generated, writes, s', outcome);
      AttemptKeepsRecoverable(s, pin, plains, pin, s', outcome);
      OwnerAttemptEnds(s, pin, plains, generated, writes, s', outcome);
      hide RekeySpec.Attempt, Recoverable;
      if outcome.Done? {
        MigratedOpens(s', pin, plains);
      }
    }
  }

  lemma MigratedOpens(s: Store, pin: Pin, plains: map<RowKey, string>)
    requires Recoverable(s, pin, plains) && Migrated(s)
    ensures PKEY in s.rows && StoredPkey(s.rows) == Some(s.rows[PKEY].cell)
    ensures OpenPkey(s, Some(s.rows[PKEY].cell), pin) == Opened(plains[PKEY])
  {
  }

  /** After any history a wrong PIN opens neither the account nor, with any salt, a scanned row, the seed included. */
  lemma WrongPinNeverOpens(
      states: seq<Store>, pins: seq<Pin>, outcomes: seq<Outcome>, pin: Pin, plains: map<RowKey, string>,
      wrong: Pin, generated: Salt, writes: nat, s': Store, r: Unlock)
    requires History(states, pins, outcomes) && Recoverable(states[0], pin, plains) && wrong != pin
    requires var last := states[|pins|]; PKEY in last.rows && UnlockEnds(last, last.rows[PKEY].cell, wrong, generated, writes, s', r)
    ensures r.MigrationFailed? || r == SeedFallback
    ensures Recoverable(s', pin, plains)
    ensures forall k, salt | k in plains :: k in s'.rows && OpenSentinel(s'.rows[k].cell, Legacy(wrong), Derived(wrong, salt)).None?
  {
    HistoryKeepsRecoverable(states, pins, outcomes, pin, plains, |pins|);
    WrongUnlockEnds(states[|pins|], pin, plains, wrong, generated, writes, s', r);
    WrongPinOpensNoRow(s', pin, plains, wrong);
  }

  /** A wrong PIN gets as far as trying the pkey exactly when the account is migrated. */
  lemma WrongUnlockEnds(s: Store, pin: Pin, plains: map<RowKey, string>, wrong: Pin, generated: Salt, writes: nat, s': Store, r: Unlock)
    requires Recoverable(s, pin, plains) && wrong != pin
    requires PKEY in s.rows && UnlockEnds(s, s.rows[PKEY].cell, wrong, generated, writes, s', r)
    ensures if Migrated(s) then r == SeedFallback else r.MigrationFailed?
    ensures s' == s.(salt := s'.salt) && (s.salt.Some? ==> s'.salt == s.salt)
    ensures Recoverable(s', pin, plains)
  {
    assert PKEY in ScannedIn(s.rows, 0, TABLES);
    if Migrated(s) {
      MigratedOpens(s, pin, plains);
    } else {
      hide AttemptWithin;
      var outcome :| AttemptWithin(s, wrong, generated, writes, s', outcome)
        && r == if outcome.Done? then OpenPkey(s', StoredPkey(s'.rows), wrong) else MigrationFailed(outcome);
      WithinIsAttempt(s, wrong, generated, writes, s', outcome);
      AttemptKeepsRecoverable(s, pin, plains, wrong, s', outcome);
      WrongPinOnlyStoresSalt(s, pin, plains, wrong, s', outcome);
    }
  }

  lemma WrongPinOpensNoRow(s: Store, pin: Pin, plains: map<RowKey, string>, wrong: Pin)
    requires Recoverable(s, pin, plains) && wrong != pin
    ensures forall k, salt | k in plains :: k in s.rows && OpenSentinel(s.rows[k].cell, Legacy(wrong), Derived(wrong, salt)).None?
  {
  }

  // ---- Convergence -----------------------------------------------------------------------

  /** The rows of `s` still waiting for the new key. */
  function Waiting(s: Store, pin: Pin): set<RowKey> {
    set k | k in ScannedIn(s.rows, 0, TABLES) && s.rows[k].cell.Sealed? && s.rows[k].cell.key == Legacy(pin)
  }

  /**
   * The owner's attempts only ever take rows off the waiting list; a completed one reports
   * exactly how many were waiting and leaves none, and none re-encrypts more than the limit.
   */
  lemma AttemptDrainsWaiting(s: Store, pin: Pin, plains: map<RowKey, string>, s': Store, outcome: Outcome)
    requires Recoverable(s, pin, plains) && Attempt(s, pin, s', outcome)
    ensures Waiting(s', pin) <= Waiting(s, pin)
    ensures forall k | k in s.rows :: k in s'.rows && (s'.rows[k] != s.rows[k] <==> k in Waiting(s, pin) - Waiting(s', pin))
    ensures s'.rows.Keys == s.rows.Keys
    ensures outcome.Done? ==> outcome.count == |Waiting(s, pin)| && Waiting(s', pin) == {} && Migrated(s')
    ensures |Waiting(s, pin)| - |Waiting(s', pin)| <= MIGRATION_ROW_LIMIT
  {
    hide RekeySpec.Rekey, RekeySpec.ScannedIn, RekeySpec.LegacyIn, RekeySpec.UnreadableIn;
    var salt, stage :| Ends(s, pin, salt, stage, outcome) && s' == StateAt(s, pin, salt, stage);
    var legacy, newKey := Legacy(pin), Derived(pin, salt);
    OwnerRowsAllReadable(s, pin, plains, salt);
    WaitingIsLegacy(s, pin, plains, salt);
    var todo := LegacyIn(s.rows, 0, TABLES, legacy, newKey);
    var done := match stage case Untouched => {} case SaltStored => {} case FlagRaised(d) => d case _ => todo;
    RekeySelects(s.rows, done, legacy, newKey, TABLES, 0, TABLES);
    AttemptKeepsRecoverable(s, pin, plains, pin, s', outcome);
    DrainedExactly(s.rows, done, legacy, newKey);
    DrainedExactly(s.rows, {}, legacy, newKey);
    assert s'.rows == Rekey(s.rows, done, newKey);
    if s'.salt == Some(salt) {
      WaitingIsLegacy(s', pin, plains, salt);
    } else {
      assert s' == s && done == {};
    }
    assert Waiting(s', pin) == todo - done;
    SubsetIsSmaller(todo, ScannedIn(s.rows, 0, TABLES));
    SubsetIsSmaller(done, todo);
    assert |todo - done| == |todo| - |done|;
  }

  lemma WaitingIsLegacy(s: Store, pin: Pin, plains: map<RowKey, string>, salt: Salt)
    requires Recoverable(s, pin, plains) && (s.salt.Some? ==> s.salt.value == salt)
    ensures Waiting(s, pin) == LegacyIn(s.rows, 0, TABLES, Legacy(pin), Derived(pin, salt))
    ensures Waiting(s, pin) <= ScannedIn(s.rows, 0, TABLES)
  {
  }

  lemma DrainedExactly(rows: Rows, done: set<RowKey>, legacy: Key, newKey: Key)
    requires legacy != newKey && done <= LegacyIn(rows, 0, TABLES, legacy, newKey)
    ensures Rekey(rows, done, newKey).Keys == rows.Keys
    ensures forall k | k in rows :: Rekey(rows, done, newKey)[k] != rows[k] <==> k in done
    ensures done == {} ==> Rekey(rows, done, newKey) == rows
  {
  }

  lemma {:induction false} SubsetIsSmaller<T>(a: set<T>, b: set<T>)
    requires a <= b
    ensures |a| <= |b|
  {
    assert |b| == |a| + |b - a| by { assert b == a + (b - a); }
  }

  lemma WrongPinKeepsWaiting(s: Store, pin: Pin, plains: map<RowKey, string>, wrong: Pin, s': Store, outcome: Outcome)
    requires Recoverable(s, pin, plains) && wrong != pin && Attempt(s, wrong, s', outcome)
    ensures Waiting(s', pin) == Waiting(s, pin)
  {
    WrongPinOnlyStoresSalt(s, pin, plains, wrong, s', outcome);
    hide RekeySpec.Attempt, Recoverable;
  }

  /** Over a whole history the waiting rows only ever shrink, and none is left after a completed attempt. */
  lemma {:induction false} HistoryConverges(states: seq<Store>, pins: seq<Pin>, outcomes: seq<Outcome>, pin: Pin,
      plains: map<RowKey, string>, i: nat, j: nat)
    requires History(states, pins, outcomes) && Recoverable(states[0], pin, plains) && i <= j < |states|
    ensures Waiting(states[j], pin) <= Waiting(states[i], pin)
    ensures i < j && outcomes[i].Done? && pins[i] == pin ==> Waiting(states[j], pin) == {}
    decreases j - i
  {
    hide RekeySpec.Ends, RekeySpec.StateAt, RekeySpec.Attempt, Recoverable, Waiting;
    if i == j {
    } else {
      HistoryKeepsRecoverable(states, pins, outcomes, pin, plains, i);
      HistoryConverges(states, pins, outcomes, pin, plains, i + 1, j);
      if pins[i] == pin {
        AttemptDrainsWaiting(states[i], pin, plains, states[i + 1], outcomes[i]);
      } else {
        WrongPinKeepsWaiting(states[i], pin, plains, pins[i], states[i + 1], outcomes[i]);
      }
    }
  }

  /** Once an attempt has completed, every later completed one re-encrypts nothing. */
  lemma LaterAttemptsReencryptNothing(states: seq<Store>, pins: seq<Pin>, outcomes: seq<Outcome>, pin: Pin,
      plains: map<RowKey, string>, i: nat, j: nat)
    requires History(states, pins, outcomes) && Recoverable(states[0], pin, plains) && i < j < |pins|
    requires outcomes[i].Done? && outcomes[j].Done?
    ensures outcomes[j].count == 0
  {
    HistoryKeepsRecoverable(states, pins, outcomes, pin, plains, i);
    HistoryKeepsRecoverable(states, pins, outcomes, pin, plains, j);
    if pins[i] != pin {
      WrongPinOnlyStoresSalt(states[i], pin, plains, pins[i], states[i + 1], outcomes[i]);
    } else if pins[j] != pin {
      WrongPinOnlyStoresSalt(states[j], pin, plains, pins[j], states[j + 1], outcomes[j]);
    } else {
      HistoryConverges(states, pins, outcomes, pin, plains, i, j);
      AttemptDrainsWaiting(states[j], pin, plains, states[j + 1], outcomes[j]);
    }
  }

  // ---- Which rows move -------------------------------------------------------------------

  /** The secrets still under the legacy key. */
  function LegacySecrets(s: Store, pin: Pin): set<RowKey> {
    set k | k in s.rows && IsSecret(k, s.rows[k].kind) && s.rows[k].cell.Sealed? && s.rows[k].cell.key == Legacy(pin)
  }

  lemma LegacySecretsAreLegacy(s: Store, pin: Pin, newKey: Key)
    requires newKey != Legacy(pin)
    ensures LegacyIn(s.rows, 0, TABLES, Legacy(pin), newKey) == LegacySecrets(s, pin)
  {
    forall k | k in s.rows && s.rows[k].cell.Sealed?
      ensures 0 <= Rank(k.table) < TABLES && (Scanned(k, s.rows[k]) <==> IsSecret(k, s.rows[k].kind))
    {
    }
  }

  /**
   * A completed migration has moved every secret that was under the legacy key to the new key,
   * with its plaintext, and touched no other row. It reports how many it moved, at most 10,000.
   */
  lemma CompletedMigrationMovesSecrets(s: Store, pin: Pin, s': Store, n: nat, k: RowKey)
    requires Attempt(s, pin, s', Done(n)) && k in s.rows
    ensures s'.salt.Some? && s'.rows.Keys == s.rows.Keys
    ensures s'.rows[k] == SecretMoved(k, s.rows[k], Legacy(pin), Derived(pin, s'.salt.value))
    ensures n == |LegacySecrets(s, pin)| && n <= 10_000
  {
    var salt, stage :| Ends(s, pin, salt, stage, Done(n)) && s' == StateAt(s, pin, salt, stage);
    LegacySecretsAreLegacy(s, pin, Derived(pin, salt));
    LegacyAreScanned(s.rows, Legacy(pin), Derived(pin, salt));
    SubsetIsSmaller(LegacySecrets(s, pin), ScannedIn(s.rows, 0, TABLES));
    hide RekeySpec.ScannedIn, RekeySpec.LegacyIn, RekeySpec.UnreadableIn, IsSecret;
  }

  lemma LegacyAreScanned(rows: Rows, legacy: Key, newKey: Key)
    ensures LegacyIn(rows, 0, TABLES, legacy, newKey) <= ScannedIn(rows, 0, TABLES)
  {
  }

  // ---- Rows the scan does not select -----------------------------------------------------

  /**
   * A completed migration leaves every ciphertext of the account readable with the new key
   * exactly when those outside the scan already were.
   */
  lemma NewKeyOpensEverythingIff(s: Store, pin: Pin, plains: map<RowKey, string>, s': Store, outcome: Outcome)
    requires Recoverable(s, pin, plains) && Attempt(s, pin, s', outcome) && outcome.Done?
    ensures (forall k | k in s'.rows && s'.rows[k].cell.Sealed? :: UnderNewKey(s'.rows[k].cell, pin, s'.salt))
       <==> (forall k | k in s.rows && s.rows[k].cell.Sealed? && k !in plains :: UnderNewKey(s.rows[k].cell, pin, s'.salt))
  {
    AttemptKeepsRecoverable(s, pin, plains, pin, s', outcome);
    AttemptDrainsWaiting(s, pin, plains, s', outcome);
    assert s.rows.Keys == s'.rows.Keys by {
      var salt, stage :| Ends(s, pin, salt, stage, outcome) && s' == StateAt(s, pin, salt, stage);
    }
    forall k | k in s'.rows && k !in plains
      ensures s'.rows[k] == s.rows[k]
    {
      assert k !in Waiting(s, pin);
    }
  }
}
