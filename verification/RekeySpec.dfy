/**
 * What one attempt to move an account from its legacy key to its salt-derived key may do
 * to the database, cut off after any durable write, and what every run of attempts keeps.
 *
 * The cipher is ideal: a sealed cell opens under exactly the key that sealed it, and keys
 * derived from different PINs, or from different salts, or by the two derivations, differ.
 */
module RekeySpec {
  import opened Wrappers

  type Pin = string
  type Salt = nat

  datatype Key = Legacy(pin: Pin) | Derived(pin: Pin, salt: Salt)

  /** A column value: SQL NULL, text nobody sealed, or a ciphertext. */
  datatype Cell = Null | Text(raw: string) | Sealed(key: Key, plain: string)

  function Encrypt(plain: string, key: Key): Cell {
    Sealed(key, plain)
  }

  function Decrypt(cell: Cell, key: Key): Option<string> {
    if cell.Sealed? && cell.key == key then Some(cell.plain) else None
  }

  datatype TableName = Settings | EvmAccounts | JoinInboxSecret | SquadBotSecret | Events | Messages

  datatype RowKey = RowKey(table: TableName, id: string)

  datatype Row = Row(kind: nat, cell: Cell)

  type Rows = map<RowKey, Row>

  const PRIVATE_DIRECT_MESSAGE: nat := 14
  const FILE_ATTACHMENT: nat := 15
  const MESSAGE_EDIT: nat := 16
  const MIGRATION_ROW_LIMIT: nat := 10_000
  const PKEY := RowKey(Settings, "pkey")

  predicate NonEmpty(cell: Cell) {
    cell != Null && cell != Text("")
  }

  /** The WHERE clause with which both the count and the scan select rows. */
  predicate Scanned(k: RowKey, row: Row) {
    match k.table
    case Settings => k.id in {"pkey", "evm_pkey", "seed"} && NonEmpty(row.cell)
    case EvmAccounts => NonEmpty(row.cell)
    case JoinInboxSecret => true
    case SquadBotSecret => true
    case Events => row.kind in {PRIVATE_DIRECT_MESSAGE, MESSAGE_EDIT} && NonEmpty(row.cell)
    case Messages => NonEmpty(row.cell)
  }

  /** The position at which the scan visits a table. */
  function Rank(t: TableName): nat {
    match t
    case Settings => 0
    case EvmAccounts => 1
    case JoinInboxSecret => 2
    case SquadBotSecret => 3
    case Events => 4
    case Messages => 5
  }

  const TABLES: nat := 6

  /** The rows the scan selects in the tables it visits from position `lo` up to `hi`. */
  function ScannedIn(rows: Rows, lo: nat, hi: nat): set<RowKey> {
    set k | k in rows && lo <= Rank(k.table) < hi && Scanned(k, rows[k])
  }

  /** Selected rows that only the legacy key opens. */
  function LegacyIn(rows: Rows, lo: nat, hi: nat, legacy: Key, newKey: Key): set<RowKey> {
    set k | k in rows && lo <= Rank(k.table) < hi && Scanned(k, rows[k])
      && Decrypt(rows[k].cell, newKey).None? && Decrypt(rows[k].cell, legacy).Some?
  }

  /** Selected rows that neither key opens. */
  function UnreadableIn(rows: Rows, lo: nat, hi: nat, legacy: Key, newKey: Key): set<RowKey> {
    set k | k in rows && lo <= Rank(k.table) < hi && Scanned(k, rows[k])
      && Decrypt(rows[k].cell, newKey).None? && Decrypt(rows[k].cell, legacy).None?
  }

  /** The table contents once exactly the rows `done` have been sealed again under `newKey`. */
  function Rekey(rows: Rows, done: set<RowKey>, newKey: Key): Rows {
    map k | k in rows :: if k in done && rows[k].cell.Sealed? then rows[k].(cell := Encrypt(rows[k].cell.plain, newKey)) else rows[k]
  }

  datatype Store = Store(
    rows: Rows,
    version: Option<nat>,
    salt: Option<Salt>,
    sentinel: Option<Cell>,
    inProgress: bool)

  /** The stored pkey text; an SQL NULL reads as absent. */
  function StoredPkey(rows: Rows): Option<Cell> {
    if PKEY in rows && rows[PKEY].cell != Null then Some(rows[PKEY].cell) else None
  }

  function SentinelSource(s: Store): Option<Cell> {
    if s.sentinel.Some? then s.sentinel else StoredPkey(s.rows)
  }

  function OpenSentinel(cell: Cell, legacy: Key, newKey: Key): Option<string> {
    if Decrypt(cell, newKey).Some? then Decrypt(cell, newKey) else Decrypt(cell, legacy)
  }

  datatype Outcome =
    | Done(count: nat)
    | PowerCut
    | NoSentinel
    | WrongPin
    | TooManyRows(total: nat)
    | BadRow(key: RowKey)

  /** How far the durable writes of an attempt got. */
  datatype Stage =
    | Untouched
    | SaltStored
    | FlagRaised(done: set<RowKey>)
    | VersionWritten
    | SentinelWritten
    | Finished

  /** The database an attempt leaves when its durable writes stop at `stage`. */
  function StateAt(s: Store, pin: Pin, salt: Salt, stage: Stage): Store {
    var newKey := Derived(pin, salt);
    var salted := s.(salt := Some(salt));
    var rekeyed := Rekey(s.rows, LegacyIn(s.rows, 0, TABLES, Legacy(pin), newKey), newKey);
    var plain := if SentinelSource(s).Some? then OpenSentinel(SentinelSource(s).value, Legacy(pin), newKey).GetOr("") else "";
    match stage
    case Untouched => s
    case SaltStored => salted
    case FlagRaised(done) => salted.(inProgress := true, rows := Rekey(s.rows, done, newKey))
    case VersionWritten => salted.(inProgress := true, rows := rekeyed, version := Some(2))
    case SentinelWritten =>
      salted.(inProgress := true, rows := rekeyed, version := Some(2), sentinel := Some(Encrypt(plain, newKey)))
    case Finished =>
      salted.(inProgress := false, rows := rekeyed, version := Some(2), sentinel := Some(Encrypt(plain, newKey)))
  }

  /** The durable writes an attempt has made when it stops at `stage`. */
  function WritesMade(s: Store, pin: Pin, salt: Salt, stage: Stage): nat {
    var todo := |LegacyIn(s.rows, 0, TABLES, Legacy(pin), Derived(pin, salt))|;
    (if s.salt.None? && !stage.Untouched? then 1 else 0)
    + match stage
      case Untouched => 0
      case SaltStored => 0
      case FlagRaised(done) => 1 + |done|
      case VersionWritten => 2 + todo
      case SentinelWritten => 3 + todo
      case Finished => 4 + todo
  }

  /** Which outcomes an attempt with this PIN can end with, and at which stage each leaves the database. */
  predicate Ends(s: Store, pin: Pin, salt: Salt, stage: Stage, outcome: Outcome) {
    var newKey, legacy := Derived(pin, salt), Legacy(pin);
    var todo := LegacyIn(s.rows, 0, TABLES, legacy, newKey);
    var bad := UnreadableIn(s.rows, 0, TABLES, legacy, newKey);
    var total := |ScannedIn(s.rows, 0, TABLES)|;
    var source := SentinelSource(s);
    var admitted := source.Some? && OpenSentinel(source.value, legacy, newKey).Some?;
    && (stage.FlagRaised? ==> admitted && stage.done <= todo && (stage.done != {} ==> total <= MIGRATION_ROW_LIMIT))
    && (stage.VersionWritten? || stage.SentinelWritten? || stage.Finished? ==> admitted && bad == {} && total <= MIGRATION_ROW_LIMIT)
    && (s.salt.Some? ==> s.salt.value == salt)
    && match outcome
       case NoSentinel => stage.Untouched? && source.None?
       case WrongPin => stage.SaltStored? && source.Some? && !admitted
       case TooManyRows(n) => stage == FlagRaised({}) && n == total && n > MIGRATION_ROW_LIMIT
       case BadRow(k) => stage.FlagRaised? && k in bad && total <= MIGRATION_ROW_LIMIT
       case PowerCut => source.Some? && !stage.Finished? && (stage.Untouched? ==> s.salt.None?) && (stage.SaltStored? ==> admitted)
       case Done(count) => stage.Finished? && count == |todo|
  }

  /** One attempt, run with some PIN to some end: completed, refused, or cut off at any write. */
  ghost predicate Attempt(s: Store, pin: Pin, s': Store, outcome: Outcome) {
    exists salt, stage :: Ends(s, pin, salt, stage, outcome) && s' == StateAt(s, pin, salt, stage)
  }

  // ---- What a single attempt does to rows ------------------------------------------------

  /** Re-keying loses, adds and swaps nothing: every row still reads as the plaintext it held. */
  lemma RekeyKeepsReading(rows: Rows, done: set<RowKey>, legacy: Key, newKey: Key, n: nat)
    requires done <= LegacyIn(rows, 0, n, legacy, newKey)
    ensures Rekey(rows, done, newKey).Keys == rows.Keys
    ensures forall k | k in rows ::
      OpenSentinel(Rekey(rows, done, newKey)[k].cell, legacy, newKey) == OpenSentinel(rows[k].cell, legacy, newKey)
    ensures forall k | k in rows && k !in done :: Rekey(rows, done, newKey)[k] == rows[k]
  {
  }

  /** Which rows are selected, and which of them still wait for the new key, after re-keying. */
  lemma RekeySelects(rows: Rows, done: set<RowKey>, legacy: Key, newKey: Key, n: nat, lo: nat, hi: nat)
    requires done <= LegacyIn(rows, 0, n, legacy, newKey)
    ensures ScannedIn(Rekey(rows, done, newKey), lo, hi) == ScannedIn(rows, lo, hi)
    ensures LegacyIn(Rekey(rows, done, newKey), lo, hi, legacy, newKey) == LegacyIn(rows, lo, hi, legacy, newKey) - done
    ensures UnreadableIn(Rekey(rows, done, newKey), lo, hi, legacy, newKey) == UnreadableIn(rows, lo, hi, legacy, newKey)
  {
  }
}
