/**
  Backup and restore (cmd/web/backup.go, cmd/web/restore.go): the archive printer, the two gates
  that read an archive before anything is changed, and the replay inside one transaction.

  A row is a map from column name to that column's JSON text. The archive is its decoded lines.
*/
module Archive {
  import opened Wrappers

  /** The tables of the schema: first the backup allowlist in its written order, then the
      tables that are classified as never carried. Any other name is `Unlisted`. */
  datatype Table =
    | Account | InstanceConfig | RetentionSettings | Seed | Exclusion | ColdScanScope | ZoneFile | AdmittedName
    | SourceState | Vantage | Scan | Dispatch | Batch | EdgeFanoutObservation | CertificateMaterial
    | Observation | Span | SeedWithdrawal | VergeCoreFrequencyEdit | SignalInstance | Annotation
    | ProposerLookup | Proposal | IntegrationState | Channel | Delivery | Message | MessageRead | ReportSchedule
    | ReportDelivery | ReportNotification | PersonalToken | SsoProvider | SsoIdentity | Act
    | Session | PasswordReset | RecoveryCode | Invite | Heartbeat | CtThrottle | CtLogCursor
    | CtReliabilitySample | SourceHealth | QueueJob | Transcript
    | Unlisted(name: string)

  /** The allowlist in its written order, parents of a foreign key before its children. */
  const BACKUP_TABLES_1: seq<Table> := [Account, InstanceConfig, RetentionSettings, Seed, Exclusion]
  const BACKUP_TABLES_2: seq<Table> := [ColdScanScope, ZoneFile, AdmittedName, SourceState, Vantage]
  const BACKUP_TABLES_3: seq<Table> := [Scan, Dispatch, Batch, EdgeFanoutObservation, CertificateMaterial]
  const BACKUP_TABLES_4: seq<Table> := [Observation, Span, SeedWithdrawal, VergeCoreFrequencyEdit, SignalInstance]
  const BACKUP_TABLES_5: seq<Table> := [Annotation, ProposerLookup, Proposal, IntegrationState, Channel]
  const BACKUP_TABLES_6: seq<Table> := [Delivery, Message, MessageRead, ReportSchedule, ReportDelivery]
  const BACKUP_TABLES_7: seq<Table> := [ReportNotification, PersonalToken, SsoProvider, SsoIdentity, Act]
  const BACKUP_TABLES: seq<Table> := BACKUP_TABLES_1 + BACKUP_TABLES_2 + BACKUP_TABLES_3 + BACKUP_TABLES_4 + BACKUP_TABLES_5
                                     + BACKUP_TABLES_6 + BACKUP_TABLES_7

  const BACKUP_FORMAT := "verge-backup"
  const BACKUP_FORMAT_VERSION := 1

  type Row = map<string, string>

  datatype RowData = Columns(columns: Row) | NotAnObject

  datatype ManifestData = ManifestData(format: string, version: int, schemaVersion: int, tables: seq<Table>)

  datatype Line =
    | Manifest(manifest: ManifestData)
    | TableHeader(table: Table)
    | RowLine(table: Table, data: RowData)
    | OtherLine
    | Blank
    | Malformed

  datatype Error =
    | BadManifest
    | BadFormat
    | UnknownTable
    | MalformedLine
    | RedactFailed
    | InsertFailed
    | StoreFailed

  type Db = map<Table, seq<Row>>

  function RowsOf(db: Db, t: Table): seq<Row> {
    if t in db then db[t] else []
  }

  // ---------------------------------------------------------------- redaction

  /** The columns a backup never carries in the clear, with the text put in their place. */
  function RedactedColumns(t: Table): Row {
    match t
    case Account => map["totp_secret" := "null", "totp_enabled" := "false"]
    case Channel => map["secret" := "null"]
    case SsoProvider => map["client_secret" := "null"]
    case _ => map[]
  }

  function Overwrite(row: Row, cols: Row): Row {
    map c | c in row :: if c in cols then cols[c] else row[c]
  }

  function Redact(t: Table, row: Row): Row {
    Overwrite(row, RedactedColumns(t))
  }

  function RedactData(t: Table, data: RowData): Result<RowData, Error> {
    if |RedactedColumns(t)| == 0 then Ok(data)
    else match data
      case NotAnObject => Err(RedactFailed)
      case Columns(row) => Ok(Columns(Redact(t, row)))
  }

  /** The columns that hold a reversible secret or switch one on. */
  predicate IsSecret(t: Table, c: string) {
    match t
    case Account => c == "totp_secret" || c == "totp_enabled"
    case Channel => c == "secret"
    case SsoProvider => c == "client_secret"
    case _ => false
  }

  predicate CarriesNoSecret(t: Table, row: Row) {
    && (t == Account && "totp_secret" in row ==> row["totp_secret"] == "null")
    && (t == Account && "totp_enabled" in row ==> row["totp_enabled"] == "false")
    && (t == Channel && "secret" in row ==> row["secret"] == "null")
    && (t == SsoProvider && "client_secret" in row ==> row["client_secret"] == "null")
  }

  /** `redacted` is `row` with its secrets blanked and nothing else changed. */
  ghost predicate IsRedactionOf(t: Table, row: Row, redacted: Row) {
    && redacted.Keys == row.Keys
    && CarriesNoSecret(t, redacted)
    && forall c :: c in row && !IsSecret(t, c) ==> redacted[c] == row[c]
  }

  lemma AccountSecretsBlanked(row: Row)
    ensures IsRedactionOf(Account, row, Redact(Account, row))
  {
    assert RedactedColumns(Account).Keys == {"totp_secret", "totp_enabled"};
  }

  lemma ChannelSecretBlanked(row: Row)
    ensures IsRedactionOf(Channel, row, Redact(Channel, row))
  {
    assert RedactedColumns(Channel).Keys == {"secret"};
  }

  lemma SsoProviderSecretBlanked(row: Row)
    ensures IsRedactionOf(SsoProvider, row, Redact(SsoProvider, row))
  {
    assert RedactedColumns(SsoProvider).Keys == {"client_secret"};
  }

  lemma NoSecretNothingBlanked(t: Table, row: Row)
    requires t !in {Account, Channel, SsoProvider}
    ensures Redact(t, row) == row
  {
    assert RedactedColumns(t).Keys == {};
  }

  lemma RedactBlanksSecrets(t: Table, row: Row)
    ensures IsRedactionOf(t, row, Redact(t, row))
    ensures t !in {Account, Channel, SsoProvider} ==> Redact(t, row) == row
  {
    match t
    case Account => AccountSecretsBlanked(row);
    case Channel => ChannelSecretBlanked(row);
    case SsoProvider => SsoProviderSecretBlanked(row);
    case _ => NoSecretNothingBlanked(t, row);
  }

  /** The overwriting loop visits the columns in an order it does not fix. */
  method OverwriteColumns(row: Row, cols: Row) returns (obj: Row)
    ensures obj == Overwrite(row, cols)
  {
    obj := row;
    var todo := cols.Keys;
    while todo != {}
      invariant todo <= cols.Keys
      invariant obj.Keys == row.Keys
      invariant forall c :: c in obj ==> obj[c] == if c in cols && c !in todo then cols[c] else row[c]
      decreases todo
    {
      var c :| c in todo;
      if c in obj {
        obj := obj[c := cols[c]];
      }
      todo := todo - {c};
    }
  }

  method RedactBackupRow(t: Table, data: RowData) returns (r: Result<RowData, Error>)
    ensures r == RedactData(t, data)
    ensures match data
            case Columns(row) => r.Ok? && r.value.Columns? && IsRedactionOf(t, row, r.value.columns)
            case NotAnObject => r == if t in {Account, Channel, SsoProvider} then Err(RedactFailed) else Ok(data)
  {
    if data.Columns? {
      RedactBlanksSecrets(t, data.columns);
      RedactColumnsIsRedact(t, data.columns);
    }
    SecretTables(t);
    var cols := RedactedColumns(t);
    if |cols| == 0 {
      return Ok(data);
    }
    if data.NotAnObject? {
      return Err(RedactFailed);
    }
    var obj := OverwriteColumns(data.columns, cols);
    r := Ok(Columns(obj));
  }

  lemma SecretTables(t: Table)
    ensures |RedactedColumns(t)| == 0 <==> t !in {Account, Channel, SsoProvider}
  {
  }

  /** Redaction changes a row exactly when it carries a secret in the clear, so twice is once. */
  lemma RedactIsIdempotent(t: Table, row: Row)
    ensures Redact(t, row) == row <==> CarriesNoSecret(t, row)
    ensures Redact(t, Redact(t, row)) == Redact(t, row)
  {
    RedactBlanksSecrets(t, row);
    RedactBlanksSecrets(t, Redact(t, row));
    if CarriesNoSecret(t, row) {
      forall c | c in row
        ensures Redact(t, row)[c] == row[c]
      {
      }
      assert Redact(t, row) == row;
    }
  }

  // ---------------------------------------------------------------- the printer

  function RedactedRows(t: Table, rows: seq<Row>): seq<Row> {
    if rows == [] then [] else RedactedRows(t, rows[..|rows| - 1]) + [Redact(t, rows[|rows| - 1])]
  }

  function RowLines(t: Table, rows: seq<Row>): seq<Line> {
    if rows == [] then [] else RowLines(t, rows[..|rows| - 1]) + [RowLine(t, Columns(rows[|rows| - 1]))]
  }

  lemma RowLinesSnoc(t: Table, rows: seq<Row>, row: Row)
    ensures RowLines(t, rows + [row]) == RowLines(t, rows) + [RowLine(t, Columns(row))]
  {
    assert (rows + [row])[..|rows|] == rows;
  }

  /** Row by row, `redacted` is `rows` without its secrets. */
  ghost predicate AreRedactionsOf(t: Table, rows: seq<Row>, redacted: seq<Row>) {
    && |redacted| == |rows|
    && (forall i :: 0 <= i < |rows| ==> IsRedactionOf(t, rows[i], redacted[i]))
    && (t !in {Account, Channel, SsoProvider} ==> redacted == rows)
  }

  lemma {:induction false} RedactedRowsBlankSecrets(t: Table, rows: seq<Row>)
    ensures AreRedactionsOf(t, rows, RedactedRows(t, rows))
  {
    if rows != [] {
      var n := |rows| - 1;
      RedactedRowsBlankSecrets(t, rows[..n]);
      RedactBlanksSecrets(t, rows[n]);
      assert rows == rows[..n] + [rows[n]];
      forall i | 0 <= i < |rows|
        ensures IsRedactionOf(t, rows[i], RedactedRows(t, rows)[i])
      {
        if i < n {
          assert IsRedactionOf(t, rows[..n][i], RedactedRows(t, rows[..n])[i]);
        }
      }
    }
  }

  /** What the archive prints of one table: its header, then one line for each of its rows, in
      order, with the secrets blanked. */
  ghost predicate PrintsTable(lines: seq<Line>, t: Table, rows: seq<Row>) {
    && |lines| == 1 + |rows|
    && lines[0] == TableHeader(t)
    && forall i :: 0 <= i < |rows| ==> PrintsRow(lines[1 + i], t, rows[i])
  }

  ghost predicate PrintsRow(line: Line, t: Table, row: Row) {
    line.RowLine? && line.table == t && line.data.Columns? && IsRedactionOf(t, row, line.data.columns)
  }

  /** One table's lines after the other's, in the order the manifest names them. */
  ghost predicate PrintsTables(lines: seq<Line>, tables: seq<Table>, db: Db)
    decreases |tables|
  {
    if tables == [] then lines == []
    else
      var last := tables[|tables| - 1];
      var cut := |lines| - 1 - |RowsOf(db, last)|;
      && 0 <= cut
      && PrintsTables(lines[..cut], tables[..|tables| - 1], db)
      && PrintsTable(lines[cut..], last, RowsOf(db, last))
  }

  lemma {:induction false} RowLinesAt(t: Table, rows: seq<Row>)
    ensures |RowLines(t, rows)| == |rows|
    ensures forall i :: 0 <= i < |rows| ==> RowLines(t, rows)[i] == RowLine(t, Columns(rows[i]))
  {
    if rows != [] {
      RowLinesAt(t, rows[..|rows| - 1]);
    }
  }

  lemma SectionPrintsTable(t: Table, db: Db)
    ensures PrintsTable(Section(t, db), t, RowsOf(db, t))
  {
    var rows := RowsOf(db, t);
    var redacted := RedactedRows(t, rows);
    RedactedRowsBlankSecrets(t, rows);
    RowLinesAt(t, redacted);
    forall i | 0 <= i < |rows|
      ensures PrintsRow(Section(t, db)[1 + i], t, rows[i])
    {
      assert Section(t, db)[1 + i] == RowLines(t, redacted)[i];
    }
  }

  lemma {:induction false} BodyPrintsTables(tables: seq<Table>, db: Db)
    ensures PrintsTables(BodyLines(tables, db), tables, db)
  {
    if tables != [] {
      var prev, last := tables[..|tables| - 1], tables[|tables| - 1];
      BodyPrintsTables(prev, db);
      SectionPrintsTable(last, db);
      var before, section := BodyLines(prev, db), Section(last, db);
      var body := before + section;
      assert body[..|before|] == before && body[|before|..] == section;
      assert |body| - 1 - |RowsOf(db, last)| == |before|;
    }
  }

  /** No line of the archive carries a secret in the clear. */
  ghost predicate LineCarriesNoSecret(line: Line) {
    line.RowLine? ==> line.data.Columns? && CarriesNoSecret(line.table, line.data.columns)
  }

  lemma {:induction false} PrintedCarriesNoSecret(lines: seq<Line>, tables: seq<Table>, db: Db, i: nat)
    requires PrintsTables(lines, tables, db) && i < |lines|
    ensures LineCarriesNoSecret(lines[i])
    decreases |tables|
  {
    if tables != [] {
      var last := tables[|tables| - 1];
      var cut := |lines| - 1 - |RowsOf(db, last)|;
      if i < cut {
        PrintedCarriesNoSecret(lines[..cut], tables[..|tables| - 1], db, i);
      } else if i > cut {
        assert PrintsRow(lines[cut..][1 + (i - cut - 1)], last, RowsOf(db, last)[i - cut - 1]);
      } else {
        assert lines[cut..][0] == lines[i];
      }
    }
  }

  /** A table's section of the archive: its header, then its redacted rows. */
  function Section(t: Table, db: Db): seq<Line> {
    [TableHeader(t)] + RowLines(t, RedactedRows(t, RowsOf(db, t)))
  }

  function BodyLines(tables: seq<Table>, db: Db): seq<Line> {
    if tables == [] then []
    else
      BodyLines(tables[..|tables| - 1], db) + Section(tables[|tables| - 1], db)
  }

  function Backup(tables: seq<Table>, db: Db, schemaVersion: int): seq<Line> {
    [Manifest(ManifestData(BACKUP_FORMAT, BACKUP_FORMAT_VERSION, schemaVersion, tables))] + BodyLines(tables, db)
  }

  method DumpBackupTable(t: Table, rows: seq<Row>) returns (lines: seq<Line>)
    ensures lines == RowLines(t, RedactedRows(t, rows))
    ensures PrintsTable([TableHeader(t)] + lines, t, rows)
  {
    lines := [];
    for i := 0 to |rows|
      invariant lines == RowLines(t, RedactedRows(t, rows[..i]))
    {
      var redacted := RedactBackupRow(t, Columns(rows[i]));
      RedactColumnsIsRedact(t, rows[i]);
      assert rows[..i + 1][..i] == rows[..i];
      RowLinesSnoc(t, RedactedRows(t, rows[..i]), Redact(t, rows[i]));
      lines := lines + [RowLine(t, redacted.value)];
    }
    assert rows[..|rows|] == rows;
    SectionPrintsTable(t, map[t := rows]);
  }

  lemma RedactColumnsIsRedact(t: Table, row: Row)
    ensures RedactData(t, Columns(row)) == Ok(Columns(Redact(t, row)))
  {
    if |RedactedColumns(t)| == 0 {
      assert Redact(t, row) == row;
    }
  }

  method StreamBackup(tables: seq<Table>, db: Db, schemaVersion: int) returns (lines: seq<Line>)
    ensures lines == Backup(tables, db, schemaVersion)
    ensures IsArchiveOf(lines, tables, db, schemaVersion)
  {
    lines := [Manifest(ManifestData(BACKUP_FORMAT, BACKUP_FORMAT_VERSION, schemaVersion, tables))];
    ghost var head := lines;
    assert head == head + BodyLines(tables[..0], db);
    for i := 0 to |tables|
      invariant lines == head + BodyLines(tables[..i], db)
    {
      BodyLinesSnoc(tables, db, i);
      lines := lines + [TableHeader(tables[i])];
      var dumped := DumpBackupTable(tables[i], RowsOf(db, tables[i]));
      AppendSection(head, BodyLines(tables[..i], db), TableHeader(tables[i]), dumped);
      lines := lines + dumped;
    }
    assert tables[..|tables|] == tables;
    assert lines == Backup(tables, db, schemaVersion);
    BackupIsArchive(tables, db, schemaVersion);
  }

  /** An archive of a database: the manifest, the tables it names, and not one secret. */
  ghost predicate IsArchiveOf(lines: seq<Line>, tables: seq<Table>, db: Db, schemaVersion: int) {
    && |lines| > 0
    && lines[0] == Manifest(ManifestData("verge-backup", 1, schemaVersion, tables))
    && PrintsTables(lines[1..], tables, db)
    && forall i :: 0 <= i < |lines| ==> LineCarriesNoSecret(lines[i])
  }

  lemma BackupIsArchive(tables: seq<Table>, db: Db, schemaVersion: int)
    ensures IsArchiveOf(Backup(tables, db, schemaVersion), tables, db, schemaVersion)
  {
    var lines, body := Backup(tables, db, schemaVersion), BodyLines(tables, db);
    assert lines[1..] == body;
    BodyPrintsTables(tables, db);
    forall i | 0 <= i < |lines|
      ensures LineCarriesNoSecret(lines[i])
    {
      if i > 0 {
        PrintedCarriesNoSecret(body, tables, db, i - 1);
      }
    }
  }

  lemma AppendSection(head: seq<Line>, body: seq<Line>, header: Line, rows: seq<Line>)
    ensures head + body + [header] + rows == head + (body + ([header] + rows))
  {
  }

  lemma BodyLinesSnoc(tables: seq<Table>, db: Db, i: nat)
    requires i < |tables|
    ensures BodyLines(tables[..i + 1], db) == BodyLines(tables[..i], db) + Section(tables[i], db)
  {
    assert tables[..i + 1][..i] == tables[..i];
  }

  // ---------------------------------------------------------------- the gates

  predicate ManifestFits(m: ManifestData) {
    m.format == BACKUP_FORMAT && m.version == BACKUP_FORMAT_VERSION
  }

  function ManifestGate(allowed: seq<Table>, archive: seq<Line>): Result<ManifestData, Error> {
    if archive == [] || archive[0].Blank? || archive[0].Malformed? then Err(BadManifest)
    else if !archive[0].Manifest? || !ManifestFits(archive[0].manifest) then Err(BadFormat)
    else if exists t :: t in archive[0].manifest.tables && t !in allowed then Err(UnknownTable)
    else Ok(archive[0].manifest)
  }

  predicate RowAllowed(allowed: seq<Table>, line: Line) {
    !line.Malformed? && (line.RowLine? ==> line.table in allowed)
  }

  function RowGateError(line: Line): Error {
    if line.Malformed? then MalformedLine else UnknownTable
  }

  /** The first line the row pre-scan refuses decides its error. */
  function RowGate(allowed: seq<Table>, lines: seq<Line>): Option<Error> {
    if lines == [] then None
    else
      var before := RowGate(allowed, lines[..|lines| - 1]);
      if before.Some? || RowAllowed(allowed, lines[|lines| - 1]) then before
      else Some(RowGateError(lines[|lines| - 1]))
  }

  function Gate(allowed: seq<Table>, archive: seq<Line>): Result<ManifestData, Error> {
    match ManifestGate(allowed, archive)
    case Err(e) => Err(e)
    case Ok(m) =>
      match RowGate(allowed, archive)
      case Some(e) => Err(e)
      case None => Ok(m)
  }

  method BackupAllowed(allowed: seq<Table>, t: Table) returns (ok: bool)
    ensures ok <==> t in allowed
  {
    for i := 0 to |allowed|
      invariant forall k :: 0 <= k < i ==> allowed[k] != t
    {
      if allowed[i] == t {
        return true;
      }
    }
    return false;
  }

  method CheckManifest(allowed: seq<Table>, archive: seq<Line>) returns (r: Result<ManifestData, Error>)
    ensures r == ManifestGate(allowed, archive)
  {
    if |archive| == 0 {
      return Err(BadManifest);
    }
    var first := archive[0];
    if first.Blank? || first.Malformed? {
      return Err(BadManifest);
    }
    if !first.Manifest? || first.manifest.format != BACKUP_FORMAT || first.manifest.version != BACKUP_FORMAT_VERSION {
      return Err(BadFormat);
    }
    var named := first.manifest.tables;
    for i := 0 to |named|
      invariant forall k :: 0 <= k < i ==> named[k] in allowed
    {
      var ok := BackupAllowed(allowed, named[i]);
      if !ok {
        return Err(UnknownTable);
      }
    }
    r := Ok(first.manifest);
  }

  lemma RowGateSnoc(allowed: seq<Table>, lines: seq<Line>, i: nat)
    requires i < |lines|
    ensures RowGate(allowed, lines[..i + 1]) ==
            if RowGate(allowed, lines[..i]).Some? || RowAllowed(allowed, lines[i]) then RowGate(allowed, lines[..i])
            else Some(RowGateError(lines[i]))
  {
    assert lines[..i + 1][..i] == lines[..i];
  }

  lemma {:induction false} RowGateStops(allowed: seq<Table>, lines: seq<Line>, i: nat)
    requires i <= |lines| && RowGate(allowed, lines[..i]).Some?
    ensures RowGate(allowed, lines) == RowGate(allowed, lines[..i])
    decreases |lines| - i
  {
    if i < |lines| {
      RowGateSnoc(allowed, lines, i);
      RowGateStops(allowed, lines, i + 1);
    } else {
      assert lines[..i] == lines;
    }
  }

  method CheckArchiveRowTables(allowed: seq<Table>, archive: seq<Line>) returns (err: Option<Error>)
    ensures err == RowGate(allowed, archive)
  {
    for i := 0 to |archive|
      invariant RowGate(allowed, archive[..i]) == None
    {
      RowGateSnoc(allowed, archive, i);
      var line := archive[i];
      if line.Blank? {
        continue;
      }
      if line.Malformed? {
        RowGateStops(allowed, archive, i + 1);
        return Some(MalformedLine);
      }
      if !line.RowLine? {
        continue;
      }
      var ok := BackupAllowed(allowed, line.table);
      if !ok {
        RowGateStops(allowed, archive, i + 1);
        return Some(UnknownTable);
      }
    }
    assert archive[..|archive|] == archive;
    return None;
  }

  /** The pre-scan passes exactly the archives with no malformed line and no row of a table outside
      the allowlist. */
  lemma {:induction false} RowGatePassesExactly(allowed: seq<Table>, lines: seq<Line>)
    ensures RowGate(allowed, lines).None? <==> forall i :: 0 <= i < |lines| ==> RowAllowed(allowed, lines[i])
  {
    if lines != [] {
      var prev := lines[..|lines| - 1];
      RowGatePassesExactly(allowed, prev);
      assert forall i :: 0 <= i < |prev| ==> prev[i] == lines[i];
    }
  }

  /** The line is the first one that the pre-scan refuses. */
  ghost predicate IsFirstRefused(allowed: seq<Table>, lines: seq<Line>, i: nat) {
    i < |lines| && !RowAllowed(allowed, lines[i]) && forall k :: 0 <= k < i ==> RowAllowed(allowed, lines[k])
  }

  /** The error is that of the first line refused: malformed, or else a row of a table that is not
      allowed. */
  lemma {:induction false} FirstRefusedLineDecides(allowed: seq<Table>, lines: seq<Line>)
    ensures match RowGate(allowed, lines)
            case None => true
            case Some(e) => exists i: nat ::
              IsFirstRefused(allowed, lines, i) && e == if lines[i] == Malformed then MalformedLine else UnknownTable
  {
    if lines != [] {
      var n := |lines| - 1;
      var prev := lines[..n];
      FirstRefusedLineDecides(allowed, prev);
      RowGatePassesExactly(allowed, prev);
      if RowGate(allowed, prev).Some? {
        var i: nat :| IsFirstRefused(allowed, prev, i)
                 && RowGate(allowed, prev).value == if prev[i] == Malformed then MalformedLine else UnknownTable;
        assert IsFirstRefused(allowed, lines, i);
      } else if !RowAllowed(allowed, lines[n]) {
        assert IsFirstRefused(allowed, lines, n);
      }
    }
  }

  // ---------------------------------------------------------------- upload preflight

  /** The upload preflight runs the manifest gate and refuses malformed lines, and nothing else. */
  ghost predicate PreflightPasses(allowed: seq<Table>, archive: seq<Line>) {
    ManifestGate(allowed, archive).Ok? && forall i :: 0 <= i < |archive| ==> !archive[i].Malformed?
  }

  /** What the operator is shown before confirming. */
  datatype Preflight = Preflight(manifest: ManifestData, subjects: nat)

  /** The subject of an open span row; `openSubject` decodes the row's data, None for a row that does not
      decode or is closed. */
  function OpenSubject(openSubject: RowData -> Option<string>, line: Line): Option<string> {
    if line.RowLine? && line.table == Span then openSubject(line.data) else None
  }

  function OpenSubjects(openSubject: RowData -> Option<string>, lines: seq<Line>): set<string> {
    set line | line in lines && OpenSubject(openSubject, line).Some? :: OpenSubject(openSubject, line).value
  }

  /** The subjects are those of the archive's open span rows. */
  ghost predicate AreOpenSubjects(openSubject: RowData -> Option<string>, lines: seq<Line>, subjects: set<string>) {
    forall s :: s in subjects <==> HasOpenSpan(openSubject, lines, s)
  }

  ghost predicate HasOpenSpan(openSubject: RowData -> Option<string>, lines: seq<Line>, subject: string) {
    exists data :: RowLine(Span, data) in lines && openSubject(data) == Some(subject)
  }

  lemma OpenSubjectsAre(openSubject: RowData -> Option<string>, lines: seq<Line>)
    ensures AreOpenSubjects(openSubject, lines, OpenSubjects(openSubject, lines))
  {
    forall s
      ensures s in OpenSubjects(openSubject, lines) <==> HasOpenSpan(openSubject, lines, s)
    {
      if s in OpenSubjects(openSubject, lines) {
        var line :| line in lines && OpenSubject(openSubject, line) == Some(s);
        assert line == RowLine(Span, line.data);
      }
      if HasOpenSpan(openSubject, lines, s) {
        var data :| RowLine(Span, data) in lines && openSubject(data) == Some(s);
        assert OpenSubject(openSubject, RowLine(Span, data)) == Some(s);
      }
    }
  }

  lemma OpenSubjectsGrow(openSubject: RowData -> Option<string>, lines: seq<Line>, i: nat)
    requires i < |lines|
    ensures OpenSubjects(openSubject, lines[..i + 1]) == OpenSubjects(openSubject, lines[..i])
            + var subject := OpenSubject(openSubject, lines[i]); if subject.Some? then {subject.value} else {}
  {
    assert lines[..i + 1] == lines[..i] + [lines[i]];
  }

  method PreflightArchive(allowed: seq<Table>, archive: seq<Line>, openSubject: RowData -> Option<string>)
    returns (r: Result<Preflight, Error>)
    ensures r.Ok? <==> PreflightPasses(allowed, archive)
    ensures r.Ok? ==> r.value == Preflight(archive[0].manifest, |OpenSubjects(openSubject, archive[1..])|)
    ensures r.Ok? ==> exists subjects :: AreOpenSubjects(openSubject, archive[1..], subjects) && r.value.subjects == |subjects|
    ensures r.Err? ==> r.error == if ManifestGate(allowed, archive).Err? then ManifestGate(allowed, archive).error else MalformedLine
  {
    var m := CheckManifest(allowed, archive);
    if m.Err? {
      return Err(m.error);
    }
    var subjects: set<string> := {};
    var body := archive[1..];
    for i := 0 to |body|
      invariant forall k :: 0 <= k < i ==> !body[k].Malformed?
      invariant subjects == OpenSubjects(openSubject, body[..i])
    {
      OpenSubjectsGrow(openSubject, body, i);
      if body[i].Blank? {
        continue;
      }
      if body[i].Malformed? {
        assert archive[i + 1].Malformed?;
        return Err(MalformedLine);
      }
      if !body[i].RowLine? || body[i].table != Span {
        continue;
      }
      var subject := openSubject(body[i].data);
      if subject.Some? {
        subjects := subjects + {subject.value};
      }
    }
    assert body[..|body|] == body;
    OpenSubjectsAre(openSubject, body);
    r := Ok(Preflight(m.value, |subjects|));
  }

  /** Staging never refuses what applying would accept, and it accepts exactly one kind of archive
      that applying refuses: one with a row of a table outside the allowlist. */
  lemma PreflightAgainstGate(allowed: seq<Table>, archive: seq<Line>)
    ensures Gate(allowed, archive).Ok? ==> PreflightPasses(allowed, archive)
    ensures PreflightPasses(allowed, archive) ==>
              (Gate(allowed, archive).Err? <==>
               exists i :: 0 <= i < |archive| && archive[i].RowLine? && archive[i].table !in allowed)
  {
    RowGatePassesExactly(allowed, archive);
    if PreflightPasses(allowed, archive) {
      if i :| 0 <= i < |archive| && archive[i].RowLine? && archive[i].table !in allowed {
        assert !RowAllowed(allowed, archive[i]);
      }
      if i :| 0 <= i < |archive| && !RowAllowed(allowed, archive[i]) {
        assert archive[i].RowLine? && archive[i].table !in allowed;
      }
    }
  }

  // ---------------------------------------------------------------- the replay

  /** The parts of the database a restore depends on but does not decide: the columns of each table,
      what TRUNCATE ... CASCADE clears beyond the named tables, which inserts are accepted, and what the
      closing statements make of the vantage and span rows (prober keys reset; each vantage that was
      available marked unavailable, which closes its open spans and opens outage Gaps). */
  datatype Postgres = Postgres(columns: Table -> set<string>,
                               cascade: set<Table> -> set<Table>,
                               accepts: (Db, Table, Row) -> bool,
                               darken: (seq<Row>, seq<Row>) -> (seq<Row>, seq<Row>))

  /** The truncated tables: those the manifest names, and `act` even when it does not. */
  function TruncateTables(m: ManifestData): seq<Table> {
    if Act in m.tables then m.tables else m.tables + [Act]
  }

  function Cleared(pg: Postgres, m: ManifestData): set<Table> {
    if m.tables == [] then {}
    else
      var named := set t | t in TruncateTables(m);
      named + pg.cascade(named)
  }

  function Truncate(db: Db, cleared: set<Table>): Db {
    db - cleared
  }

  /** jsonb_populate_record: exactly the table's columns, null where the archive has none. */
  function Populate(columns: set<string>, row: Row): Row {
    map c | c in columns :: if c in row then row[c] else "null"
  }

  function InsertLine(pg: Postgres, allowed: seq<Table>, db: Db, line: Line): Result<Db, Error> {
    match line
    case Malformed => Err(MalformedLine)
    case RowLine(t, data) =>
      if t !in allowed then Err(UnknownTable)
      else (
        match RedactData(t, data)
        case Err(e) => Err(e)
        case Ok(redacted) =>
          if redacted.NotAnObject? then Err(InsertFailed)
          else
            var row := Populate(pg.columns(t), redacted.columns);
            if pg.accepts(db, t, row) then Ok(db[t := RowsOf(db, t) + [row]]) else Err(InsertFailed)
      )
    case _ => Ok(db)
  }

  function Replay(pg: Postgres, allowed: seq<Table>, db: Db, lines: seq<Line>): Result<Db, Error> {
    if lines == [] then Ok(db)
    else
      match Replay(pg, allowed, db, lines[..|lines| - 1])
      case Err(e) => Err(e)
      case Ok(before) => InsertLine(pg, allowed, before, lines[|lines| - 1])
  }

  /** What follows the replay loop: the fleet darkened, sessions lapsed, the restore's own Act. */
  function Conclude(pg: Postgres, db: Db, actRow: Row): Db {
    var darkened := pg.darken(RowsOf(db, Vantage), RowsOf(db, Span));
    db[Vantage := darkened.0][Span := darkened.1]
      [Session := []]
      [Act := RowsOf(db, Act) + [actRow]]
  }

  /** Faults outside the archive: the transaction may not begin, a closing statement or the commit
      may fail. */
  datatype Faults = Faults(beginOk: bool, closingOk: bool, commitOk: bool)

  function Restored(pg: Postgres, allowed: seq<Table>, db: Db, archive: seq<Line>, faults: Faults, actRow: Row): Result<Db, Error> {
    match Gate(allowed, archive)
    case Err(e) => Err(e)
    case Ok(m) =>
      if !faults.beginOk then Err(StoreFailed)
      else
        match Replay(pg, allowed, Truncate(db, Cleared(pg, m)), archive[1..])
        case Err(e) => Err(e)
        case Ok(replayed) =>
          if faults.closingOk && faults.commitOk then Ok(Conclude(pg, replayed, actRow)) else Err(StoreFailed)
  }

  lemma ReplaySnoc(pg: Postgres, allowed: seq<Table>, db: Db, lines: seq<Line>, i: nat)
    requires i < |lines|
    ensures Replay(pg, allowed, db, lines[..i + 1]) ==
            match Replay(pg, allowed, db, lines[..i])
            case Err(e) => Err(e)
            case Ok(before) => InsertLine(pg, allowed, before, lines[i])
  {
    assert lines[..i + 1][..i] == lines[..i];
  }

  lemma {:induction false} ReplayStops(pg: Postgres, allowed: seq<Table>, db: Db, lines: seq<Line>, i: nat)
    requires i <= |lines| && Replay(pg, allowed, db, lines[..i]).Err?
    ensures Replay(pg, allowed, db, lines) == Replay(pg, allowed, db, lines[..i])
    decreases |lines| - i
  {
    if i < |lines| {
      ReplaySnoc(pg, allowed, db, lines, i);
      ReplayStops(pg, allowed, db, lines, i + 1);
    } else {
      assert lines[..i] == lines;
    }
  }

  /** The instance's store. A transaction works on its own copy, which a commit makes the store. */
  class Store {
    const pg: Postgres
    var db: Db

    constructor (pg: Postgres, db: Db)
      ensures this.pg == pg && this.db == db
    {
      this.pg := pg;
      this.db := db;
    }

    method ReplayArchive(tx: Db, allowed: seq<Table>, m: ManifestData, lines: seq<Line>) returns (r: Result<Db, Error>)
      ensures r == Replay(pg, allowed, Truncate(tx, Cleared(pg, m)), lines)
    {
      var current := tx;
      if |m.tables| > 0 {
        var named := m.tables;
        if Act !in named {
          named := named + [Act];
        }
        current := current - ((set t | t in named) + pg.cascade(set t | t in named));
      }
      assert current == Truncate(tx, Cleared(pg, m));
      ghost var truncated := current;
      for i := 0 to |lines|
        invariant Replay(pg, allowed, truncated, lines[..i]) == Ok(current)
      {
        ReplaySnoc(pg, allowed, truncated, lines, i);
        var line := lines[i];
        if line.Blank? {
          continue;
        }
        var step := ReplayLine(current, allowed, line);
        if step.Err? {
          ReplayStops(pg, allowed, truncated, lines, i + 1);
          return step;
        }
        current := step.value;
      }
      assert lines[..|lines|] == lines;
      r := Ok(current);
    }

    /** The body of the replay loop for a line that is not blank. */
    method ReplayLine(current: Db, allowed: seq<Table>, line: Line) returns (r: Result<Db, Error>)
      requires !line.Blank?
      ensures r == InsertLine(pg, allowed, current, line)
    {
      if line.Malformed? {
        return Err(MalformedLine);
      }
      if !line.RowLine? {
        return Ok(current);
      }
      var ok := BackupAllowed(allowed, line.table);
      if !ok {
        return Err(UnknownTable);
      }
      var redacted := RedactBackupRow(line.table, line.data);
      if redacted.Err? {
        return Err(redacted.error);
      }
      if redacted.value.NotAnObject? {
        return Err(InsertFailed);
      }
      var row := Populate(pg.columns(line.table), redacted.value.columns);
      if !pg.accepts(current, line.table, row) {
        return Err(InsertFailed);
      }
      r := Ok(current[line.table := RowsOf(current, line.table) + [row]]);
    }

    /** A refused or failed restore leaves the store as it was; a restore that commits leaves it as
        `Restored` says. */
    method ApplyRestore(allowed: seq<Table>, archive: seq<Line>, faults: Faults, actRow: Row) returns (err: Option<Error>)
      modifies this`db
      ensures match Restored(pg, allowed, old(db), archive, faults, actRow)
              case Ok(after) => err == None && db == after
              case Err(e) => err == Some(e) && db == old(db)
    {
      var m := CheckManifest(allowed, archive);
      if m.Err? {
        return Some(m.error);
      }
      var refused := CheckArchiveRowTables(allowed, archive);
      if refused.Some? {
        return refused;
      }
      if !faults.beginOk {
        return Some(StoreFailed);
      }
      var replayed := ReplayArchive(db, allowed, m.value, archive[1..]);
      if replayed.Err? {
        return Some(replayed.error);
      }
      if !faults.closingOk || !faults.commitOk {
        return Some(StoreFailed);
      }
      db := Conclude(pg, replayed.value, actRow);
      err := None;
    }
  }

  // ---------------------------------------------------------------- what a restore leaves

  /** What one archive line adds to one table. */
  function RowOfLine(pg: Postgres, t: Table, line: Line): seq<Row> {
    if line.RowLine? && line.table == t && line.data.Columns?
    then [Populate(pg.columns(t), Redact(t, line.data.columns))]
    else []
  }

  /** The rows an archive holds for one table, as the replay inserts them. */
  function RowsFor(pg: Postgres, t: Table, lines: seq<Line>): seq<Row> {
    if lines == [] then []
    else RowsFor(pg, t, lines[..|lines| - 1]) + RowOfLine(pg, t, lines[|lines| - 1])
  }

  lemma RedactDataColumns(t: Table, data: RowData)
    requires RedactData(t, data).Ok?
    ensures RedactData(t, data).value.Columns? ==>
              data.Columns? && RedactData(t, data).value.columns == Redact(t, data.columns)
    ensures data.Columns? ==> RedactData(t, data).value.Columns?
  {
    if data.Columns? {
      RedactColumnsIsRedact(t, data.columns);
    }
  }

  lemma InsertLineAppends(pg: Postgres, allowed: seq<Table>, db: Db, line: Line, t: Table)
    requires InsertLine(pg, allowed, db, line).Ok?
    ensures RowsOf(InsertLine(pg, allowed, db, line).value, t) == RowsOf(db, t) + RowOfLine(pg, t, line)
  {
    if line.RowLine? {
      RedactDataColumns(line.table, line.data);
      if line.table == t {
        assert RowOfLine(pg, t, line) == [Populate(pg.columns(t), Redact(t, line.data.columns))];
      }
    }
  }

  /** A replay that gets through every line has appended, to each table, exactly the archive's rows
      for it in archive order, redacted again whatever the archive held. */
  lemma {:induction false} ReplayAppendsArchiveRows(pg: Postgres, allowed: seq<Table>, db: Db, lines: seq<Line>, t: Table)
    requires Replay(pg, allowed, db, lines).Ok?
    ensures RowsOf(Replay(pg, allowed, db, lines).value, t) == RowsOf(db, t) + RowsFor(pg, t, lines)
  {
    if lines != [] {
      var prev := lines[..|lines| - 1];
      ReplayAppendsArchiveRows(pg, allowed, db, prev, t);
      InsertLineAppends(pg, allowed, Replay(pg, allowed, db, prev).value, lines[|lines| - 1], t);
    }
  }

  /** Once the gates have passed, the replay loop's own checks for a malformed line and for an
      unknown table can never fire. */
  lemma {:induction false} GatesMakeLoopChecksUnreachable(pg: Postgres, allowed: seq<Table>, db: Db, lines: seq<Line>)
    requires forall i :: 0 <= i < |lines| ==> RowAllowed(allowed, lines[i])
    ensures Replay(pg, allowed, db, lines).Err? ==> Replay(pg, allowed, db, lines).error in {RedactFailed, InsertFailed}
  {
    if lines != [] {
      var prev, last := lines[..|lines| - 1], lines[|lines| - 1];
      assert forall i :: 0 <= i < |prev| ==> prev[i] == lines[i];
      GatesMakeLoopChecksUnreachable(pg, allowed, db, prev);
      assert RowAllowed(allowed, last);
      if last.RowLine? {
        assert RedactData(last.table, last.data).Err? ==> RedactData(last.table, last.data).error == RedactFailed;
      }
    }
  }

  lemma GatedArchiveReplaysWithoutLoopChecks(pg: Postgres, allowed: seq<Table>, db: Db, archive: seq<Line>)
    requires Gate(allowed, archive).Ok?
    ensures var r := Replay(pg, allowed, db, archive[1..]);
            r.Err? ==> r.error in {RedactFailed, InsertFailed}
  {
    RowGatePassesExactly(allowed, archive);
    var body := archive[1..];
    forall i | 0 <= i < |body|
      ensures RowAllowed(allowed, body[i])
    {
      assert body[i] == archive[i + 1];
    }
    GatesMakeLoopChecksUnreachable(pg, allowed, db, body);
  }

  /** The row the database is given for an archived one: the table's columns, null where the
      archive has none, the archive's text where it has one, and never the text of a secret. */
  ghost predicate InsertedFor(columns: set<string>, t: Table, archived: Row, row: Row) {
    && row.Keys == columns
    && (forall c :: c in columns && c !in archived ==> row[c] == "null")
    && (forall c :: c in columns && c in archived && !IsSecret(t, c) ==> row[c] == archived[c])
    && (forall c :: c in columns && c in archived && IsSecret(t, c) ==>
          row[c] == if c == "totp_enabled" then "false" else "null")
  }

  /** The positions of a table's row lines. */
  ghost predicate RowPositions(at: seq<nat>, lines: seq<Line>, t: Table) {
    && (forall k :: 0 <= k < |at| ==> at[k] < |lines|)
    && (forall k, l :: 0 <= k < l < |at| ==> at[k] < at[l])
    && forall i :: 0 <= i < |lines| ==> (i in at <==> lines[i].RowLine? && lines[i].table == t)
  }

  ghost predicate InsertedAt(columns: set<string>, t: Table, line: Line, row: Row) {
    line.RowLine? && line.data.Columns? && InsertedFor(columns, t, line.data.columns, row)
  }

  /** `rows` are `before` and then one row for each of the archive's row lines of the table. */
  ghost predicate GrownByArchive(columns: set<string>, t: Table, before: seq<Row>, rows: seq<Row>,
                                 lines: seq<Line>, at: seq<nat>) {
    && RowPositions(at, lines, t)
    && |rows| == |before| + |at|
    && rows[..|before|] == before
    && forall k :: 0 <= k < |at| ==> InsertedAt(columns, t, lines[at[k]], rows[|before| + k])
  }

  lemma PopulatedIsInserted(columns: set<string>, t: Table, archived: Row)
    ensures InsertedFor(columns, t, archived, Populate(columns, Redact(t, archived)))
  {
    var redacted := Redact(t, archived);
    RedactBlanksSecrets(t, archived);
    forall c | c in columns && c in archived && IsSecret(t, c)
      ensures Populate(columns, redacted)[c] == if c == "totp_enabled" then "false" else "null"
    {
      assert c in redacted;
    }
  }

  lemma SnocPositions(at: seq<nat>, lines: seq<Line>, line: Line, t: Table) returns (at': seq<nat>)
    requires RowPositions(at, lines, t)
    ensures RowPositions(at', lines + [line], t)
    ensures at' == if line.RowLine? && line.table == t then at + [|lines|] else at
  {
    if line.RowLine? && line.table == t {
      at' := at + [|lines|];
      forall i | 0 <= i < |lines| + 1
        ensures i in at' <==> (lines + [line])[i].RowLine? && (lines + [line])[i].table == t
      {
        assert i in at' <==> i in at || i == |lines|;
      }
    } else {
      at' := at;
    }
  }

  lemma GrowByLine(columns: set<string>, t: Table, before: seq<Row>, rows: seq<Row>, lines: seq<Line>, at: seq<nat>,
                   line: Line, row: Row) returns (at': seq<nat>)
    requires GrownByArchive(columns, t, before, rows, lines, at)
    requires line.RowLine? && line.table == t && InsertedAt(columns, t, line, row)
    ensures GrownByArchive(columns, t, before, rows + [row], lines + [line], at')
  {
    at' := SnocPositions(at, lines, line, t);
    assert (rows + [row])[..|before|] == rows[..|before|];
    forall k | 0 <= k < |at'|
      ensures InsertedAt(columns, t, (lines + [line])[at'[k]], (rows + [row])[|before| + k])
    {
      if k < |at| {
        assert InsertedAt(columns, t, lines[at[k]], rows[|before| + k]);
      }
    }
  }

  lemma GrowByOther(columns: set<string>, t: Table, before: seq<Row>, rows: seq<Row>, lines: seq<Line>, at: seq<nat>,
                    line: Line)
    requires GrownByArchive(columns, t, before, rows, lines, at)
    requires !(line.RowLine? && line.table == t)
    ensures GrownByArchive(columns, t, before, rows, lines + [line], at)
  {
    var at' := SnocPositions(at, lines, line, t);
    forall k | 0 <= k < |at|
      ensures InsertedAt(columns, t, (lines + [line])[at[k]], rows[|before| + k])
    {
      assert InsertedAt(columns, t, lines[at[k]], rows[|before| + k]);
    }
  }

  lemma InsertedLineHasColumns(pg: Postgres, allowed: seq<Table>, db: Db, line: Line)
    requires InsertLine(pg, allowed, db, line).Ok? && line.RowLine?
    ensures line.data.Columns?
  {
    RedactDataColumns(line.table, line.data);
  }

  /** Whatever the archive holds, a replay that gets through adds to a table one row for each of
      the archive's row lines of it, in order, with every secret blanked again. */
  lemma {:induction false} ReplayNeverAddsCleartext(pg: Postgres, allowed: seq<Table>, db: Db, lines: seq<Line>, t: Table)
    returns (at: seq<nat>)
    requires Replay(pg, allowed, db, lines).Ok?
    ensures GrownByArchive(pg.columns(t), t, RowsOf(db, t), RowsOf(Replay(pg, allowed, db, lines).value, t), lines, at)
  {
    if lines == [] {
      at := [];
    } else {
      var n := |lines| - 1;
      var line := lines[n];
      var before := Replay(pg, allowed, db, lines[..n]).value;
      var earlier := ReplayNeverAddsCleartext(pg, allowed, db, lines[..n], t);
      InsertLineAppends(pg, allowed, before, line, t);
      assert lines == lines[..n] + [line];
      if line.RowLine? && line.table == t {
        InsertedLineHasColumns(pg, allowed, before, line);
        var row := Populate(pg.columns(t), Redact(t, line.data.columns));
        PopulatedIsInserted(pg.columns(t), t, line.data.columns);
        at := GrowByLine(pg.columns(t), t, RowsOf(db, t), RowsOf(before, t), lines[..n], earlier, line, row);
      } else {
        assert RowsOf(before, t) + [] == RowsOf(before, t);
        GrowByOther(pg.columns(t), t, RowsOf(db, t), RowsOf(before, t), lines[..n], earlier, line);
        at := earlier;
      }
    }
  }

  // ---------------------------------------------------------------- round trip

  ghost predicate NoDuplicates(tables: seq<Table>) {
    forall i, j :: 0 <= i < j < |tables| ==> tables[i] != tables[j]
  }

  /** Every row has exactly its table's columns, as rows read off the database do. */
  ghost predicate WellTyped(pg: Postgres, tables: seq<Table>, db: Db) {
    forall t :: t in tables ==> RowsTyped(pg, t, RowsOf(db, t))
  }

  lemma {:induction false} RowsForConcat(pg: Postgres, t: Table, a: seq<Line>, b: seq<Line>)
    ensures RowsFor(pg, t, a + b) == RowsFor(pg, t, a) + RowsFor(pg, t, b)
    decreases |b|
  {
    if b == [] {
      assert a + b == a;
    } else {
      RowsForConcat(pg, t, a, b[..|b| - 1]);
      assert (a + b)[..|a + b| - 1] == a + b[..|b| - 1];
    }
  }

  lemma PopulateWellTyped(columns: set<string>, row: Row)
    requires row.Keys == columns
    ensures Populate(columns, row) == row
  {
  }

  /** A printed row reads back as itself in its own table, and adds nothing to any other. */
  lemma RowOfPrinted(pg: Postgres, t: Table, of: Table, row: Row)
    requires t == of ==> row.Keys == pg.columns(t)
    ensures RowOfLine(pg, t, RowLine(of, Columns(Redact(of, row)))) == if t == of then [Redact(t, row)] else []
  {
    if t == of {
      RedactIsIdempotent(t, row);
      PopulateWellTyped(pg.columns(t), Redact(t, row));
    }
  }

  ghost predicate RowsTyped(pg: Postgres, t: Table, rows: seq<Row>) {
    forall i :: 0 <= i < |rows| ==> rows[i].Keys == pg.columns(t)
  }

  lemma RowsForSnoc(pg: Postgres, t: Table, lines: seq<Line>, line: Line)
    ensures RowsFor(pg, t, lines + [line]) == RowsFor(pg, t, lines) + RowOfLine(pg, t, line)
  {
    assert (lines + [line])[..|lines|] == lines;
  }

  lemma {:induction false} RowsForPrinted(pg: Postgres, t: Table, of: Table, rows: seq<Row>)
    requires t == of ==> RowsTyped(pg, t, rows)
    ensures RowsFor(pg, t, RowLines(of, RedactedRows(of, rows))) == if t == of then RedactedRows(t, rows) else []
  {
    if rows != [] {
      var prev, last := rows[..|rows| - 1], rows[|rows| - 1];
      RowsForPrinted(pg, t, of, prev);
      RowLinesSnoc(of, RedactedRows(of, prev), Redact(of, last));
      RowsForSnoc(pg, t, RowLines(of, RedactedRows(of, prev)), RowLine(of, Columns(Redact(of, last))));
      RowOfPrinted(pg, t, of, last);
    }
  }

  lemma RowsForHeader(pg: Postgres, t: Table, of: Table)
    ensures RowsFor(pg, t, [TableHeader(of)]) == []
  {
    assert [TableHeader(of)][..0] == [];
  }

  lemma RowsForHeaded(pg: Postgres, t: Table, before: seq<Line>, header: Line, printed: seq<Line>)
    requires header.TableHeader?
    ensures RowsFor(pg, t, before + ([header] + printed)) == RowsFor(pg, t, before) + RowsFor(pg, t, printed)
  {
    RowsForConcat(pg, t, before, [header] + printed);
    RowsForConcat(pg, t, [header], printed);
    RowsForHeader(pg, t, header.table);
  }

  /** The rows a table's own section carries. */
  function SectionRows(t: Table, of: Table, db: Db): seq<Row> {
    if t == of then RedactedRows(t, RowsOf(db, t)) else []
  }

  /** What a printed section adds to a table. */
  lemma RowsForSection(pg: Postgres, t: Table, before: seq<Line>, of: Table, db: Db)
    requires t == of ==> RowsTyped(pg, t, RowsOf(db, t))
    ensures RowsFor(pg, t, before + Section(of, db)) == RowsFor(pg, t, before) + SectionRows(t, of, db)
  {
    RowsForHeaded(pg, t, before, TableHeader(of), RowLines(of, RedactedRows(of, RowsOf(db, of))));
    RowsForPrinted(pg, t, of, RowsOf(db, of));
  }

  /** The rows every section for a table carries, section after section. */
  function CarriedRows(t: Table, tables: seq<Table>, db: Db): seq<Row> {
    if tables == [] then []
    else CarriedRows(t, tables[..|tables| - 1], db) + SectionRows(t, tables[|tables| - 1], db)
  }

  lemma {:induction false} RowsForBody(pg: Postgres, t: Table, tables: seq<Table>, db: Db)
    requires RowsTyped(pg, t, RowsOf(db, t))
    ensures RowsFor(pg, t, BodyLines(tables, db)) == CarriedRows(t, tables, db)
  {
    if tables != [] {
      var prev, last := tables[..|tables| - 1], tables[|tables| - 1];
      RowsForBody(pg, t, prev, db);
      RowsForSection(pg, t, BodyLines(prev, db), last, db);
    }
  }

  lemma LastNotEarlier(tables: seq<Table>)
    requires tables != [] && NoDuplicates(tables)
    ensures NoDuplicates(tables[..|tables| - 1])
    ensures tables[|tables| - 1] !in tables[..|tables| - 1]
  {
  }

  lemma {:induction false} NotCarried(t: Table, tables: seq<Table>, db: Db)
    requires t !in tables
    ensures CarriedRows(t, tables, db) == []
  {
    if tables != [] {
      NotCarried(t, tables[..|tables| - 1], db);
    }
  }

  lemma {:induction false} CarriedOnce(t: Table, tables: seq<Table>, db: Db)
    requires NoDuplicates(tables) && t in tables
    ensures CarriedRows(t, tables, db) == RedactedRows(t, RowsOf(db, t))
  {
    LastNotEarlier(tables);
    if t == tables[|tables| - 1] {
      NotCarried(t, tables[..|tables| - 1], db);
    } else {
      CarriedOnce(t, tables[..|tables| - 1], db);
    }
  }

  /** A line the printer writes after the manifest: well formed, of an allowed table, its data an object. */
  predicate Printed(allowed: seq<Table>, line: Line) {
    RowAllowed(allowed, line) && (line.RowLine? ==> line.data.Columns?)
  }

  ghost predicate AllPrinted(allowed: seq<Table>, lines: seq<Line>) {
    forall i :: 0 <= i < |lines| ==> Printed(allowed, lines[i])
  }

  lemma {:induction false} RowLinesPrinted(t: Table, allowed: seq<Table>, rows: seq<Row>)
    requires t in allowed
    ensures AllPrinted(allowed, RowLines(t, rows))
  {
    if rows != [] {
      RowLinesPrinted(t, allowed, rows[..|rows| - 1]);
    }
  }

  lemma {:induction false} BodyLinesPrinted(tables: seq<Table>, allowed: seq<Table>, db: Db)
    requires forall t :: t in tables ==> t in allowed
    ensures AllPrinted(allowed, BodyLines(tables, db))
  {
    if tables != [] {
      var last := tables[|tables| - 1];
      BodyLinesPrinted(tables[..|tables| - 1], allowed, db);
      assert last in tables;
      RowLinesPrinted(last, allowed, RedactedRows(last, RowsOf(db, last)));
    }
  }

  lemma BackupPassesGates(tables: seq<Table>, db: Db, schemaVersion: int)
    ensures Gate(tables, Backup(tables, db, schemaVersion)) == Ok(Backup(tables, db, schemaVersion)[0].manifest)
    ensures Backup(tables, db, schemaVersion)[0].manifest.tables == tables
  {
    var archive := Backup(tables, db, schemaVersion);
    BodyLinesPrinted(tables, tables, db);
    forall i | 0 <= i < |archive|
      ensures RowAllowed(tables, archive[i])
    {
      assert i > 0 ==> archive[i] == BodyLines(tables, db)[i - 1] && Printed(tables, archive[i]);
    }
    RowGatePassesExactly(tables, archive);
  }

  lemma {:induction false} SameRowsSameBody(tables: seq<Table>, a: Db, b: Db)
    requires forall t :: t in tables ==> RedactedRows(t, RowsOf(a, t)) == RedactedRows(t, RowsOf(b, t))
    ensures BodyLines(tables, a) == BodyLines(tables, b)
  {
    if tables != [] {
      assert tables[|tables| - 1] in tables;
      SameRowsSameBody(tables[..|tables| - 1], a, b);
    }
  }

  /** The database refuses the row of line `i` when the replay gets to it. */
  ghost predicate InsertRefused(pg: Postgres, allowed: seq<Table>, db: Db, lines: seq<Line>, i: nat)
    requires i < |lines|
  {
    var before := Replay(pg, allowed, db, lines[..i]);
    && lines[i].RowLine? && lines[i].data.Columns? && before.Ok?
    && !pg.accepts(before.value, lines[i].table, Populate(pg.columns(lines[i].table), Redact(lines[i].table, lines[i].data.columns)))
  }

  ghost predicate SomeInsertRefused(pg: Postgres, allowed: seq<Table>, db: Db, lines: seq<Line>) {
    exists i: nat :: i < |lines| && InsertRefused(pg, allowed, db, lines, i)
  }

  /** Printed lines replay to the end unless the database refuses one of their rows. */
  lemma {:induction false} PrintedReplayFailsExactly(pg: Postgres, allowed: seq<Table>, db: Db, lines: seq<Line>, n: nat)
    requires AllPrinted(allowed, lines) && n <= |lines|
    ensures var r := Replay(pg, allowed, db, lines[..n]);
            && (r.Err? ==> r.error == InsertFailed)
            && (r.Err? <==> exists i: nat :: i < n && InsertRefused(pg, allowed, db, lines, i))
  {
    if n > 0 {
      var m := n - 1;
      PrintedReplayFailsExactly(pg, allowed, db, lines, m);
      ReplaySnoc(pg, allowed, db, lines, m);
      if Replay(pg, allowed, db, lines[..m]).Ok? {
        PrintedLineFails(pg, allowed, db, lines, m);
      }
    }
  }

  lemma PrintedLineFails(pg: Postgres, allowed: seq<Table>, db: Db, lines: seq<Line>, i: nat)
    requires i < |lines| && Printed(allowed, lines[i])
    requires Replay(pg, allowed, db, lines[..i]).Ok?
    ensures var r := InsertLine(pg, allowed, Replay(pg, allowed, db, lines[..i]).value, lines[i]);
            (r.Err? ==> r.error == InsertFailed) && (r.Err? <==> InsertRefused(pg, allowed, db, lines, i))
  {
    if lines[i].RowLine? {
      RedactDataColumns(lines[i].table, lines[i].data);
    }
  }

  /** `after` holds the table's original rows, in order, with their secrets blanked. */
  ghost predicate HoldsRedacted(t: Table, original: Db, after: Db) {
    AreRedactionsOf(t, RowsOf(original, t), RowsOf(after, t))
  }

  /** Replaying a streamed backup over any earlier contents fails exactly when the database refuses one
      of its rows. Otherwise it leaves every carried table holding exactly the redacted original rows, in
      order, and backing up what it leaves prints the very same archive. */
  lemma BackupRoundTrip(pg: Postgres, tables: seq<Table>, original: Db, prior: Db, schemaVersion: int)
    requires NoDuplicates(tables) && tables != []
    requires WellTyped(pg, tables, original)
    ensures var archive := Backup(tables, original, schemaVersion);
            var start := Truncate(prior, Cleared(pg, archive[0].manifest));
            var replayed := Replay(pg, tables, start, archive[1..]);
            && (replayed.Err? <==> SomeInsertRefused(pg, tables, start, archive[1..]))
            && match replayed
               case Err(e) => e == InsertFailed
               case Ok(after) =>
                 && (forall t :: t in tables ==> HoldsRedacted(t, original, after))
                 && Backup(tables, after, schemaVersion) == archive
  {
    var archive := Backup(tables, original, schemaVersion);
    var start := Truncate(prior, Cleared(pg, archive[0].manifest));
    var body := BodyLines(tables, original);
    assert archive[1..] == body;
    BodyLinesPrinted(tables, tables, original);
    PrintedReplayFailsExactly(pg, tables, start, body, |body|);
    assert body[..|body|] == body;
    var replayed := Replay(pg, tables, start, body);
    if replayed.Ok? {
      ReplayedIsRedacted(pg, tables, original, prior, schemaVersion, replayed.value);
      forall t | t in tables
        ensures HoldsRedacted(t, original, replayed.value)
      {
        RedactedRowsBlankSecrets(t, RowsOf(original, t));
      }
    }
  }

  lemma ReplayedIsRedacted(pg: Postgres, tables: seq<Table>, original: Db, prior: Db, schemaVersion: int, after: Db)
    requires NoDuplicates(tables) && tables != []
    requires WellTyped(pg, tables, original)
    requires var archive := Backup(tables, original, schemaVersion);
             Replay(pg, tables, Truncate(prior, Cleared(pg, archive[0].manifest)), BodyLines(tables, original)) == Ok(after)
    ensures forall t :: t in tables ==> RowsOf(after, t) == RedactedRows(t, RowsOf(original, t))
    ensures Backup(tables, after, schemaVersion) == Backup(tables, original, schemaVersion)
  {
    var body := BodyLines(tables, original);
    var cleared := Cleared(pg, Backup(tables, original, schemaVersion)[0].manifest);
    var start := Truncate(prior, cleared);
    forall t | t in tables
      ensures RowsOf(after, t) == RedactedRows(t, RowsOf(original, t))
      ensures RedactedRows(t, RowsOf(after, t)) == RedactedRows(t, RowsOf(original, t))
    {
      ReplayAppendsArchiveRows(pg, tables, start, body, t);
      RowsForBody(pg, t, tables, original);
      CarriedOnce(t, tables, original);
      assert t in cleared;
      RedactedTwice(t, RowsOf(original, t));
    }
    SameRowsSameBody(tables, after, original);
  }

  lemma {:induction false} RedactedTwice(t: Table, rows: seq<Row>)
    ensures RedactedRows(t, RedactedRows(t, rows)) == RedactedRows(t, rows)
  {
    if rows != [] {
      var prev, last := rows[..|rows| - 1], rows[|rows| - 1];
      RedactedTwice(t, prev);
      RedactIsIdempotent(t, last);
      assert (RedactedRows(t, prev) + [Redact(t, last)])[..|RedactedRows(t, prev)|] == RedactedRows(t, prev);
    }
  }

  /** A table's place in the allowlist. */
  function Rank(t: Table): nat {
    match t
    case Account => 0
    case InstanceConfig => 1
    case RetentionSettings => 2
    case Seed => 3
    case Exclusion => 4
    case ColdScanScope => 5
    case ZoneFile => 6
    case AdmittedName => 7
    case SourceState => 8
    case Vantage => 9
    case Scan => 10
    case Dispatch => 11
    case Batch => 12
    case EdgeFanoutObservation => 13
    case CertificateMaterial => 14
    case Observation => 15
    case Span => 16
    case SeedWithdrawal => 17
    case VergeCoreFrequencyEdit => 18
    case SignalInstance => 19
    case Annotation => 20
    case ProposerLookup => 21
    case Proposal => 22
    case IntegrationState => 23
    case Channel => 24
    case Delivery => 25
    case Message => 26
    case MessageRead => 27
    case ReportSchedule => 28
    case ReportDelivery => 29
    case ReportNotification => 30
    case PersonalToken => 31
    case SsoProvider => 32
    case SsoIdentity => 33
    case Act => 34
    case _ => 35
  }

  ghost predicate RankedFrom(s: seq<Table>, base: nat) {
    forall i :: 0 <= i < |s| ==> Rank(s[i]) == base + i
  }

  lemma RankedConcat(a: seq<Table>, b: seq<Table>, base: nat)
    requires RankedFrom(a, base) && RankedFrom(b, base + |a|)
    ensures RankedFrom(a + b, base)
  {
  }

  lemma Chunk1IsRanked()
    ensures RankedFrom(BACKUP_TABLES_1, 0) && |BACKUP_TABLES_1| == 5
  {
  }

  lemma Chunk2IsRanked()
    ensures RankedFrom(BACKUP_TABLES_2, 5) && |BACKUP_TABLES_2| == 5
  {
  }

  lemma Chunk3IsRanked()
    ensures RankedFrom(BACKUP_TABLES_3, 10) && |BACKUP_TABLES_3| == 5
  {
  }

  lemma Chunk4IsRanked()
    ensures RankedFrom(BACKUP_TABLES_4, 15) && |BACKUP_TABLES_4| == 5
  {
  }

  lemma Chunk5IsRanked()
    ensures RankedFrom(BACKUP_TABLES_5, 20) && |BACKUP_TABLES_5| == 5
  {
  }

  lemma Chunk6IsRanked()
    ensures RankedFrom(BACKUP_TABLES_6, 25) && |BACKUP_TABLES_6| == 5
  {
  }

  lemma Chunk7IsRanked()
    ensures RankedFrom(BACKUP_TABLES_7, 30) && |BACKUP_TABLES_7| == 5
  {
  }

  lemma AllowlistIsRanked()
    ensures RankedFrom(BACKUP_TABLES, 0) && |BACKUP_TABLES| == 35
  {
    Chunk1IsRanked();
    Chunk2IsRanked();
    Chunk3IsRanked();
    Chunk4IsRanked();
    Chunk5IsRanked();
    Chunk6IsRanked();
    Chunk7IsRanked();
    var front := BACKUP_TABLES_1 + BACKUP_TABLES_2 + BACKUP_TABLES_3;
    RankedConcat(BACKUP_TABLES_1, BACKUP_TABLES_2, 0);
    RankedConcat(BACKUP_TABLES_1 + BACKUP_TABLES_2, BACKUP_TABLES_3, 0);
    RankedConcat(front, BACKUP_TABLES_4, 0);
    RankedConcat(front + BACKUP_TABLES_4, BACKUP_TABLES_5, 0);
    RankedConcat(front + BACKUP_TABLES_4 + BACKUP_TABLES_5, BACKUP_TABLES_6, 0);
    RankedConcat(front + BACKUP_TABLES_4 + BACKUP_TABLES_5 + BACKUP_TABLES_6, BACKUP_TABLES_7, 0);
  }

  lemma RankedHasNoDuplicates(s: seq<Table>)
    requires RankedFrom(s, 0)
    ensures NoDuplicates(s)
    ensures forall t :: t in s ==> Rank(t) < |s|
  {
  }

  lemma AllowlistHasNoDuplicates()
    ensures NoDuplicates(BACKUP_TABLES) && |BACKUP_TABLES| == 35
    ensures Act in BACKUP_TABLES && Vantage in BACKUP_TABLES && Span in BACKUP_TABLES && Session !in BACKUP_TABLES
  {
    AllowlistIsRanked();
    RankedHasNoDuplicates(BACKUP_TABLES);
    assert BACKUP_TABLES_7[4] == Act && BACKUP_TABLES_2[4] == Vantage && BACKUP_TABLES_4[1] == Span;
  }

  /** The identifiers a gated restore puts into TRUNCATE are allowlisted. */
  lemma TruncateNamesOnlyAllowed(archive: seq<Line>, t: Table)
    requires Gate(BACKUP_TABLES, archive).Ok?
    requires t in TruncateTables(archive[0].manifest)
    ensures t in BACKUP_TABLES
  {
    AllowlistHasNoDuplicates();
  }

  /** The archive opens with a manifest of this format in this version that names allowed tables. */
  ghost predicate Restorable(allowed: seq<Table>, archive: seq<Line>) {
    && archive != [] && archive[0].Manifest?
    && archive[0].manifest.format == "verge-backup" && archive[0].manifest.version == 1
    && (forall t :: t in archive[0].manifest.tables ==> t in allowed)
    && (forall i :: 0 <= i < |archive| ==> !archive[i].Malformed?)
    && (forall i :: 0 <= i < |archive| && archive[i].RowLine? ==> archive[i].table in allowed)
  }

  /** A restore gets past the gates exactly when the archive is restorable, and it is refused for its
      format exactly when its first line is JSON of another type, format or version. */
  lemma GatePassesExactly(allowed: seq<Table>, archive: seq<Line>)
    ensures Gate(allowed, archive).Ok? <==> Restorable(allowed, archive)
    ensures Gate(allowed, archive).Ok? ==> Gate(allowed, archive).value == archive[0].manifest
    ensures Gate(allowed, archive) == Err(BadFormat) <==>
              && archive != [] && !archive[0].Blank? && !archive[0].Malformed?
              && (archive[0].Manifest? ==> archive[0].manifest.format != "verge-backup" || archive[0].manifest.version != 1)
  {
    RowGatePassesExactly(allowed, archive);
    FirstRefusedLineDecides(allowed, archive);
    if Restorable(allowed, archive) {
      forall i | 0 <= i < |archive|
        ensures RowAllowed(allowed, archive[i])
      {
      }
    }
    if Gate(allowed, archive).Ok? {
      forall i | 0 <= i < |archive|
        ensures !archive[i].Malformed?
        ensures archive[i].RowLine? ==> archive[i].table in allowed
      {
        assert RowAllowed(allowed, archive[i]);
      }
    }
  }

  /** What the truncation takes away: the tables the manifest names, the acts even when it does not
      name them, and what those tables cascade to; nothing when the manifest names no table. */
  ghost predicate TakenAway(pg: Postgres, m: ManifestData, t: Table) {
    m.tables != [] && (t in m.tables || t == Act || t in pg.cascade((set u | u in m.tables) + {Act}))
  }

  ghost function Kept(pg: Postgres, db: Db, m: ManifestData, t: Table): seq<Row> {
    if TakenAway(pg, m, t) then [] else RowsOf(db, t)
  }

  /** A table after a committed restore, before the closing statements touch it: the archive's rows
      alone where the truncation took the old ones away, and behind the old ones elsewhere. */
  ghost predicate Replaced(pg: Postgres, db: Db, archive: seq<Line>, t: Table, rows: seq<Row>)
    requires archive != [] && archive[0].Manifest?
  {
    exists at :: GrownByArchive(pg.columns(t), t, Kept(pg, db, archive[0].manifest, t), rows, archive[1..], at)
  }

  lemma TruncatedRows(pg: Postgres, db: Db, m: ManifestData, t: Table)
    ensures RowsOf(Truncate(db, Cleared(pg, m)), t) == Kept(pg, db, m, t)
  {
    assert (set u | u in TruncateTables(m)) == (set u | u in m.tables) + {Act};
  }

  /** A restore that commits has replaced every table the manifest names, and the acts with them; the
      closing statements then add the restore's own Act and end every session. */
  lemma CommittedRestoreReplaces(pg: Postgres, allowed: seq<Table>, db: Db, archive: seq<Line>, faults: Faults, actRow: Row,
                                 t: Table)
    requires Restored(pg, allowed, db, archive, faults, actRow).Ok?
    ensures Restorable(allowed, archive)
    ensures var after := Restored(pg, allowed, db, archive, faults, actRow).value;
            && RowsOf(after, Session) == []
            && (t !in {Vantage, Span, Session, Act} ==> Replaced(pg, db, archive, t, RowsOf(after, t)))
            && |RowsOf(after, Act)| > 0
            && var last := |RowsOf(after, Act)| - 1;
               RowsOf(after, Act)[last] == actRow && Replaced(pg, db, archive, Act, RowsOf(after, Act)[..last])
  {
    GatePassesExactly(allowed, archive);
    var m := archive[0].manifest;
    var start := Truncate(db, Cleared(pg, m));
    var replayed := Replay(pg, allowed, start, archive[1..]).value;
    ConcludeKeepsOthers(pg, replayed, actRow, t);
    ReplayReplaces(pg, allowed, db, archive, t);
    ReplayReplaces(pg, allowed, db, archive, Act);
    assert (RowsOf(replayed, Act) + [actRow])[..|RowsOf(replayed, Act)|] == RowsOf(replayed, Act);
  }

  lemma ReplayReplaces(pg: Postgres, allowed: seq<Table>, db: Db, archive: seq<Line>, t: Table)
    requires archive != [] && archive[0].Manifest?
    requires Replay(pg, allowed, Truncate(db, Cleared(pg, archive[0].manifest)), archive[1..]).Ok?
    ensures Replaced(pg, db, archive, t,
                     RowsOf(Replay(pg, allowed, Truncate(db, Cleared(pg, archive[0].manifest)), archive[1..]).value, t))
  {
    TruncatedRows(pg, db, archive[0].manifest, t);
    var at := ReplayNeverAddsCleartext(pg, allowed, Truncate(db, Cleared(pg, archive[0].manifest)), archive[1..], t);
  }

  /** A whole restore of an instance's own backup, over any earlier contents. It commits exactly when the
      store does not fail and no row is refused; then every carried table holds the original rows with
      their secrets blanked (the vantage and span rows as the closing statements leave them, the restore's
      own Act last) and no session is left. */
  ghost predicate RestoredFaithfully(pg: Postgres, tables: seq<Table>, original: Db, actRow: Row, faults: Faults,
                                     refused: bool, outcome: Result<Db, Error>) {
    match outcome
    case Err(e) =>
      if faults.beginOk && refused then e == InsertFailed
      else e == StoreFailed && !(faults.beginOk && faults.closingOk && faults.commitOk)
    case Ok(after) =>
      && faults.beginOk && !refused && faults.closingOk && faults.commitOk
      && (forall t :: t in tables && t != Vantage && t != Span && t != Act ==>
            HoldsRedacted(t, original, after))
      && (RowsOf(after, Vantage), RowsOf(after, Span)) == pg.darken(RowsOf(original, Vantage), RowsOf(original, Span))
      && RowsOf(after, Act) == RowsOf(original, Act) + [actRow]
      && RowsOf(after, Session) == []
  }

  /** Some row of the instance's own backup is refused when it is replayed over `prior`. */
  ghost predicate OwnRowRefused(pg: Postgres, tables: seq<Table>, original: Db, prior: Db, schemaVersion: int) {
    var archive := Backup(tables, original, schemaVersion);
    SomeInsertRefused(pg, tables, Truncate(prior, Cleared(pg, archive[0].manifest)), archive[1..])
  }

  lemma ConcludeKeepsOthers(pg: Postgres, db: Db, actRow: Row, t: Table)
    ensures t != Vantage && t != Span && t != Act && t != Session ==> RowsOf(Conclude(pg, db, actRow), t) == RowsOf(db, t)
    ensures RowsOf(Conclude(pg, db, actRow), Act) == RowsOf(db, Act) + [actRow]
    ensures RowsOf(Conclude(pg, db, actRow), Session) == []
    ensures (RowsOf(Conclude(pg, db, actRow), Vantage), RowsOf(Conclude(pg, db, actRow), Span))
         == pg.darken(RowsOf(db, Vantage), RowsOf(db, Span))
  {
  }

  lemma RestoreOwnBackupOf(pg: Postgres, tables: seq<Table>, original: Db, prior: Db, schemaVersion: int, faults: Faults, actRow: Row)
    requires NoDuplicates(tables) && Act in tables && Vantage in tables && Span in tables && Session !in tables
    requires WellTyped(pg, tables, original)
    ensures RestoredFaithfully(pg, tables, original, actRow, faults, OwnRowRefused(pg, tables, original, prior, schemaVersion),
                               Restored(pg, tables, prior, Backup(tables, original, schemaVersion), faults, actRow))
  {
    BackupPassesGates(tables, original, schemaVersion);
    BackupRoundTrip(pg, tables, original, prior, schemaVersion);
    var archive := Backup(tables, original, schemaVersion);
    var replayed := Replay(pg, tables, Truncate(prior, Cleared(pg, archive[0].manifest)), archive[1..]);
    if replayed.Ok? {
      ConcludeKeepsRedacted(pg, tables, original, replayed.value, actRow);
    }
  }

  lemma ConcludeKeepsRedacted(pg: Postgres, tables: seq<Table>, original: Db, replayed: Db, actRow: Row)
    requires Act in tables && Vantage in tables && Span in tables && Session !in tables
    requires forall t :: t in tables ==> HoldsRedacted(t, original, replayed)
    ensures var after := Conclude(pg, replayed, actRow);
            && (forall t :: t in tables && t != Vantage && t != Span && t != Act ==> HoldsRedacted(t, original, after))
            && (RowsOf(after, Vantage), RowsOf(after, Span)) == pg.darken(RowsOf(original, Vantage), RowsOf(original, Span))
            && RowsOf(after, Act) == RowsOf(original, Act) + [actRow]
            && RowsOf(after, Session) == []
  {
    forall t: Table | t in tables && t != Vantage && t != Span && t != Act
      ensures HoldsRedacted(t, original, Conclude(pg, replayed, actRow))
    {
      ConcludeKeepsOthers(pg, replayed, actRow, t);
    }
    ConcludeKeepsOthers(pg, replayed, actRow, Act);
    assert HoldsRedacted(Vantage, original, replayed) && HoldsRedacted(Span, original, replayed)
           && HoldsRedacted(Act, original, replayed);
  }

  /** The same for the shipped allowlist. */
  lemma RestoreOwnBackup(pg: Postgres, original: Db, prior: Db, schemaVersion: int, faults: Faults, actRow: Row)
    requires WellTyped(pg, BACKUP_TABLES, original)
    ensures RestoredFaithfully(pg, BACKUP_TABLES, original, actRow, faults,
                               OwnRowRefused(pg, BACKUP_TABLES, original, prior, schemaVersion),
                               Restored(pg, BACKUP_TABLES, prior, Backup(BACKUP_TABLES, original, schemaVersion), faults, actRow))
  {
    AllowlistHasNoDuplicates();
    RestoreOwnBackupOf(pg, BACKUP_TABLES, original, prior, schemaVersion, faults, actRow);
  }
}
