/**
 * A device over any history of unlocks with right and wrong PINs, each cut off anywhere, saved
 * events and locks: under which keys its rows come to be sealed.
 */
module SessionHistory {
  import opened Wrappers
  import opened RekeySpec
  import opened KeyMigration
  import opened MigrationRuns

  datatype Device = Device(store: Store, session: Option<Key>)

  datatype Event =
    | Unlocked(pin: Pin, generated: Salt, writes: nat, result: Unlock)
    | SavedEvent(id: string, kind: nat, content: string)
    | Locked

  ghost predicate Step(d: Device, e: Event, d': Device) {
    match e
    case Unlocked(pin, generated, writes, r) =>
      && PKEY in d.store.rows && UnlockEnds(d.store, d.store.rows[PKEY].cell, pin, generated, writes, d'.store, r)
      && d'.session == SessionAfter(d.session, pin, d'.store.salt, r)
    case SavedEvent(id, kind, content) =>
      d' == d.(store := d.store.(rows := Saved(d.store.rows, d.session, id, kind, content)))
    case Locked => d' == d.(session := None)
  }

  ghost predicate DeviceHistory(devices: seq<Device>, events: seq<Event>) {
    && |devices| == |events| + 1
    && forall i | 0 <= i < |events| :: Step(devices[i], events[i], devices[i + 1])
  }

  // ---- Rows the scan does not select -----------------------------------------------------

  /** The rows of `rows` the scan does not select are all in `rows'`, as they were. */
  predicate OutsideKept(rows: Rows, rows': Rows) {
    forall k | k in rows && !Scanned(k, rows[k]) :: k in rows' && rows'[k] == rows[k]
  }

  lemma AttemptKeepsOutside(s: Store, pin: Pin, s': Store, outcome: Outcome)
    requires Attempt(s, pin, s', outcome)
    ensures OutsideKept(s.rows, s'.rows) && s'.rows.Keys == s.rows.Keys
    ensures forall k | k in s.rows :: Scanned(k, s'.rows[k]) == Scanned(k, s.rows[k])
  {
    var salt, stage :| Ends(s, pin, salt, stage, outcome) && s' == StateAt(s, pin, salt, stage);
    var done := StageRows(s, pin, salt, stage, outcome);
    RekeyKeepsOutside(s.rows, done, Legacy(pin), Derived(pin, salt));
  }

  lemma StageRows(s: Store, pin: Pin, salt: Salt, stage: Stage, outcome: Outcome) returns (done: set<RowKey>)
    requires Ends(s, pin, salt, stage, outcome)
    ensures done <= LegacyIn(s.rows, 0, TABLES, Legacy(pin), Derived(pin, salt))
    ensures StateAt(s, pin, salt, stage).rows == Rekey(s.rows, done, Derived(pin, salt))
  {
    RekeyNothing(s.rows, Legacy(pin), Derived(pin, salt));
    hide RekeySpec.Rekey, RekeySpec.LegacyIn, RekeySpec.UnreadableIn, RekeySpec.ScannedIn;
    done := match stage
      case Untouched => {}
      case SaltStored => {}
      case FlagRaised(some) => some
      case _ => LegacyIn(s.rows, 0, TABLES, Legacy(pin), Derived(pin, salt));
  }

  lemma RekeyKeepsOutside(rows: Rows, done: set<RowKey>, legacy: Key, newKey: Key)
    requires done <= LegacyIn(rows, 0, TABLES, legacy, newKey)
    ensures var rows' := Rekey(rows, done, newKey);
      && OutsideKept(rows, rows') && rows'.Keys == rows.Keys
      && forall k | k in rows :: Scanned(k, rows'[k]) == Scanned(k, rows[k])
  {
  }

  lemma StepKeepsOutside(d: Device, e: Event, d': Device)
    requires Step(d, e, d')
    ensures OutsideKept(d.store.rows, d'.store.rows)
    ensures forall k | k in d.store.rows :: k in d'.store.rows && Scanned(k, d'.store.rows[k]) == Scanned(k, d.store.rows[k])
    ensures forall k | k in d'.store.rows && k !in d.store.rows ::
      e.SavedEvent? && k == RowKey(Events, e.id) && d'.store.rows == Saved(d.store.rows, d.session, e.id, e.kind, e.content)
  {
    hide RekeySpec.Ends, RekeySpec.StateAt, RekeySpec.Attempt, AttemptWithin;
    if e.Unlocked? && !Migrated(d.store) {
      var outcome :| AttemptWithin(d.store, e.pin, e.generated, e.writes, d'.store, outcome)
        && e.result == if outcome.Done? then OpenPkey(d'.store, StoredPkey(d'.store.rows), e.pin) else MigrationFailed(outcome);
      WithinIsAttempt(d.store, e.pin, e.generated, e.writes, d'.store, outcome);
      AttemptKeepsOutside(d.store, e.pin, d'.store, outcome);
    }
  }

  /** Neither the session nor any row outside the scan holds a legacy key. */
  predicate NothingLegacyOutside(d: Device) {
    && (d.session.Some? ==> d.session.value.Derived?)
    && forall k | k in d.store.rows && !Scanned(k, d.store.rows[k]) && d.store.rows[k].cell.Sealed? ::
         d.store.rows[k].cell.key.Derived?
  }

  /**
   * The scan may pass over file captions: from an account that has none sealed, no history of
   * unlocks and saves, whichever PINs and wherever cut off, seals one under a legacy key.
   */
  lemma {:induction false} CaptionsNeverLegacy(devices: seq<Device>, events: seq<Event>, n: nat, k: RowKey)
    requires DeviceHistory(devices, events) && n < |devices| && NothingLegacyOutside(devices[0])
    ensures NothingLegacyOutside(devices[n])
    ensures var rows := devices[n].store.rows;
      k in rows && k.table == Events && rows[k].kind == FILE_ATTACHMENT && rows[k].cell.Sealed? ==> rows[k].cell.key.Derived?
  {
    if n == 0 {
    } else {
      CaptionsNeverLegacy(devices, events, n - 1, k);
      var d, e, d' := devices[n - 1], events[n - 1], devices[n];
      assert Step(d, e, d');
      StepKeepsOutside(d, e, d');
      hide UnlockEnds;
    }
  }

  // ---- Every row opens -------------------------------------------------------------------

  /** A session key was derived with the salt on disk, and from another PIN than the owner's only once the account is migrated. */
  predicate SessionFits(d: Device, pin: Pin) {
    d.session.Some? ==>
      && d.store.salt.Some? && d.session.value == Derived(d.session.value.pin, d.store.salt.value)
      && (d.session.value.pin == pin || Migrated(d.store))
  }

  /** The account is the owner's, and what lies outside the scan is under its new key. */
  ghost predicate Owned(d: Device, pin: Pin, plains: map<RowKey, string>) {
    && Recoverable(d.store, pin, plains) && SessionFits(d, pin)
    && forall k | k in d.store.rows && k !in plains && d.store.rows[k].cell.Sealed? :: UnderNewKey(d.store.rows[k].cell, pin, d.store.salt)
  }

  /** The account is migrated, but something in it is under another key. */
  ghost predicate Foreign(d: Device, pin: Pin) {
    && Migrated(d.store) && SessionFits(d, pin)
    && exists k :: k in d.store.rows && d.store.rows[k].cell.Sealed? && !UnderNewKey(d.store.rows[k].cell, pin, d.store.salt)
  }

  /** The event seals a text: it is saved in a session, for the first time. */
  predicate Seals(d: Device, e: Event) {
    e.SavedEvent? && Encrypts(e.kind) && d.session.Some? && RowKey(Events, e.id) !in d.store.rows
  }

  /** What the event seals, if anything, it seals under the account's own new key. */
  predicate SealsOwn(d: Device, e: Event, pin: Pin) {
    Seals(d, e) ==> d.store.salt.Some? && d.session.value == Derived(pin, d.store.salt.value)
  }

  lemma LegacyAccountIsOwned(s: Store, pin: Pin, plains: map<RowKey, string>)
    requires LegacyAccount(s, pin, plains)
    requires forall k | k in s.rows && !Scanned(k, s.rows[k]) :: !s.rows[k].cell.Sealed?
    ensures Owned(Device(s, None), pin, plains) && NothingLegacyOutside(Device(s, None))
  {
  }

  /** The plaintexts of the scanned rows after an event. */
  function PlainsAfter(plains: map<RowKey, string>, d: Device, e: Event): map<RowKey, string> {
    if e.SavedEvent? && e.kind in {PRIVATE_DIRECT_MESSAGE, MESSAGE_EDIT} && d.session.Some? && RowKey(Events, e.id) !in d.store.rows
    then plains[RowKey(Events, e.id) := e.content] else plains
  }

  function PlainsAt(plains: map<RowKey, string>, devices: seq<Device>, events: seq<Event>, n: nat): map<RowKey, string>
    requires n <= |events| && n <= |devices|
  {
    if n == 0 then plains else PlainsAfter(PlainsAt(plains, devices, events, n - 1), devices[n - 1], events[n - 1])
  }

  lemma OutsidePlains(s: Store, pin: Pin, plains: map<RowKey, string>)
    requires Recoverable(s, pin, plains)
    ensures forall k | k in s.rows && k !in plains :: !Scanned(k, s.rows[k])
  {
  }

  lemma UnlockKeepsOwned(d: Device, e: Event, d': Device, pin: Pin, plains: map<RowKey, string>)
    requires Owned(d, pin, plains) && e.Unlocked? && Step(d, e, d')
    ensures Owned(d', pin, plains)
  {
    hide Recoverable, UnlockEnds;
    StepKeepsOutside(d, e, d');
    OutsidePlains(d.store, pin, plains);
    UnlockKeepsSalt(d, e, d');
    if e.pin == pin {
      OwnerUnlockEnds(d.store, pin, plains, e.generated, e.writes, d'.store, e.result);
    } else {
      WrongUnlockEnds(d.store, pin, plains, e.pin, e.generated, e.writes, d'.store, e.result);
    }
    if Migrated(d.store) {
      MigratedStays(d, e, d');
    }
  }

  lemma MigratedStays(d: Device, e: Event, d': Device)
    requires Step(d, e, d') && Migrated(d.store)
    ensures Migrated(d'.store) && d'.store.salt == d.store.salt
    ensures !e.SavedEvent? ==> d'.store == d.store
  {
  }

  lemma UnlockKeepsSalt(d: Device, e: Event, d': Device)
    requires e.Unlocked? && Step(d, e, d')
    ensures d.store.salt.Some? ==> d'.store.salt == d.store.salt
  {
    hide RekeySpec.Ends, RekeySpec.StateAt, RekeySpec.Attempt, AttemptWithin;
    if !Migrated(d.store) && d.store.salt.Some? {
      var outcome :| AttemptWithin(d.store, e.pin, e.generated, e.writes, d'.store, outcome)
        && e.result == if outcome.Done? then OpenPkey(d'.store, StoredPkey(d'.store.rows), e.pin) else MigrationFailed(outcome);
      WithinIsAttempt(d.store, e.pin, e.generated, e.writes, d'.store, outcome);
      SaltIsNeverReplaced(d.store, e.pin, d'.store, outcome);
    }
  }

  lemma SaveKeepsOwned(d: Device, e: Event, d': Device, pin: Pin, plains: map<RowKey, string>)
    requires Owned(d, pin, plains) && e.SavedEvent? && Step(d, e, d') && SealsOwn(d, e, pin)
    ensures Owned(d', pin, PlainsAfter(plains, d, e))
  {
    var k, rows, rows' := RowKey(Events, e.id), d.store.rows, d'.store.rows;
    var plains' := PlainsAfter(plains, d, e);
    if k !in rows {
      assert k !in ScannedIn(rows, 0, TABLES);
      forall j
        ensures j in plains' <==> j in ScannedIn(rows', 0, TABLES)
      {
        assert j in plains <==> j in ScannedIn(rows, 0, TABLES);
      }
    }
  }

  /** One foreign text is enough, and it stays. */
  lemma SaveMakesForeign(d: Device, e: Event, d': Device, pin: Pin)
    requires SessionFits(d, pin) && Step(d, e, d') && Seals(d, e) && !SealsOwn(d, e, pin)
    ensures Foreign(d', pin)
  {
    var k := RowKey(Events, e.id);
    assert k in d'.store.rows && d'.store.rows[k].cell == Encrypt(e.content, d.session.value);
  }

  lemma ForeignStays(d: Device, e: Event, d': Device, pin: Pin)
    requires Foreign(d, pin) && Step(d, e, d')
    ensures Foreign(d', pin)
  {
    MigratedStays(d, e, d');
    StepKeepsOutside(d, e, d');
    var k :| k in d.store.rows && d.store.rows[k].cell.Sealed? && !UnderNewKey(d.store.rows[k].cell, pin, d.store.salt);
    assert d'.store.rows[k] == d.store.rows[k];
  }

  lemma OwnedStep(d: Device, e: Event, d': Device, pin: Pin, plains: map<RowKey, string>)
    requires Owned(d, pin, plains) && Step(d, e, d')
    ensures if SealsOwn(d, e, pin) then Owned(d', pin, PlainsAfter(plains, d, e)) else Foreign(d', pin)
  {
    hide Recoverable;
    if e.Unlocked? {
      UnlockKeepsOwned(d, e, d', pin, plains);
    } else if !SealsOwn(d, e, pin) {
      SaveMakesForeign(d, e, d', pin);
    } else if e.SavedEvent? {
      SaveKeepsOwned(d, e, d', pin, plains);
    }
  }

  /** Everything sealed so far was sealed under the account's own new key. */
  predicate AllSealedOwn(devices: seq<Device>, events: seq<Event>, pin: Pin, n: nat)
    requires n <= |events| && n <= |devices|
  {
    forall i | 0 <= i < n :: SealsOwn(devices[i], events[i], pin)
  }

  /**
   * From an account nobody migrated yet, or any recoverable one, over every history: as long as
   * texts are sealed under the account's own new key every saved text is recoverable, and in a
   * migrated account the new key opens every ciphertext, captions included, if and only if no
   * text was ever sealed under another.
   */
  lemma {:induction false} EverythingOpensIff(devices: seq<Device>, events: seq<Event>, pin: Pin, plains: map<RowKey, string>, n: nat)
    requires DeviceHistory(devices, events) && n < |devices| && Owned(devices[0], pin, plains)
    ensures if AllSealedOwn(devices, events, pin, n) then Owned(devices[n], pin, PlainsAt(plains, devices, events, n)) else Foreign(devices[n], pin)
    ensures var s := devices[n].store; Migrated(s) ==>
      ((forall k | k in s.rows && s.rows[k].cell.Sealed? :: UnderNewKey(s.rows[k].cell, pin, s.salt)) <==> AllSealedOwn(devices, events, pin, n))
  {
    if n == 0 {
    } else {
      EverythingOpensIff(devices, events, pin, plains, n - 1);
      var d, e, d' := devices[n - 1], events[n - 1], devices[n];
      assert Step(d, e, d');
      assert AllSealedOwn(devices, events, pin, n) <==> AllSealedOwn(devices, events, pin, n - 1) && SealsOwn(d, e, pin);
      hide SealsOwn, Step;
      if AllSealedOwn(devices, events, pin, n - 1) {
        OwnedStep(d, e, d', pin, PlainsAt(plains, devices, events, n - 1));
      } else {
        ForeignStays(d, e, d', pin);
      }
    }
  }

  /** A row outside the scan, a saved caption say, is the same row at every later point of the history. */
  lemma {:induction false} SavedCaptionStays(devices: seq<Device>, events: seq<Event>, k: RowKey, i: nat, n: nat)
    requires DeviceHistory(devices, events) && i <= n < |devices|
    requires k in devices[i].store.rows && !Scanned(k, devices[i].store.rows[k])
    ensures k in devices[n].store.rows && devices[n].store.rows[k] == devices[i].store.rows[k]
  {
    if n == i {
    } else {
      SavedCaptionStays(devices, events, k, i, n - 1);
      StepKeepsOutside(devices[n - 1], events[n - 1], devices[n]);
    }
  }

  // ---- The key an unlock installs --------------------------------------------------------

  /**
   * The session key is installed before the pkey is tried. So an unlock that gets that far
   * leaves a key that does not open the account exactly when the PIN is wrong and the account is
   * already migrated; one that does not get that far leaves the session as it was.
   */
  lemma UnlockInstallsForeignKeyIff(d: Device, e: Event, d': Device, pin: Pin, plains: map<RowKey, string>)
    requires Recoverable(d.store, pin, plains) && e.Unlocked? && Step(d, e, d')
    ensures PKEY in d'.store.rows
    ensures var opens := d'.session.Some? && Decrypt(d'.store.rows[PKEY].cell, d'.session.value).Some?;
      if e.result.MigrationFailed? then d'.session == d.session
      else d'.session.Some? && (opens <==> e.result.Opened?) && (!opens <==> e.pin != pin && Migrated(d.store))
  {
    assert PKEY in ScannedIn(d.store.rows, 0, TABLES);
    if e.pin == pin {
      OwnerUnlockEnds(d.store, pin, plains, e.generated, e.writes, d'.store, e.result);
      assert PKEY in ScannedIn(d'.store.rows, 0, TABLES);
    } else {
      WrongUnlockEnds(d.store, pin, plains, e.pin, e.generated, e.writes, d'.store, e.result);
    }
    hide UnlockEnds, RekeySpec.ScannedIn;
  }

  /** A newly saved text leaves the account readable with the new key exactly when the session key is that key. */
  lemma SaveKeepsReadableIff(d: Device, pin: Pin, id: string, kind: nat, content: string)
    requires Encrypts(kind) && d.session.Some? && d.store.salt.Some? && RowKey(Events, id) !in d.store.rows
    requires forall k | k in d.store.rows && d.store.rows[k].cell.Sealed? :: UnderNewKey(d.store.rows[k].cell, pin, d.store.salt)
    ensures (forall k | k in Saved(d.store.rows, d.session, id, kind, content) && Saved(d.store.rows, d.session, id, kind, content)[k].cell.Sealed? ::
               UnderNewKey(Saved(d.store.rows, d.session, id, kind, content)[k].cell, pin, d.store.salt))
       <==> d.session.value == Derived(pin, d.store.salt.value)
  {
    var rows := Saved(d.store.rows, d.session, id, kind, content);
    assert rows[RowKey(Events, id)].cell == Encrypt(content, d.session.value);
  }
}
