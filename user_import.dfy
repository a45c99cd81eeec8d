/**
 * `POST /api/users/import`: a CSV upload whose first row names the columns.
 * Each target column is located through a list of header aliases; each later
 * row becomes a user, upserted on its e-mail address inside one transaction.
 */
module UserImport {
  import opened Common
  import opened Text

  /** The `users` columns an import fills, in the order `HEADER_MAP` lists them. */
  datatype Column = Name | Email | Password | Department | ManagerName | Photo

  const Columns: seq<Column> := [Name, Email, Password, Department, ManagerName, Photo]

  /** `HEADER_MAP`: the lower-case header texts accepted for each column, most preferred first. */
  function Aliases(c: Column): seq<string> {
    match c
    case Name => ["name", "employee name", "full name"]
    case Email => ["email", "official email", "mail", "email id"]
    case Password => ["password", "pwd", "pass"]
    case Department => ["department", "dept"]
    case ManagerName => ["manager_name", "manager", "reporting manager"]
    case Photo => ["photo", "avatar", "image", "photo_url"]
  }

  /** `String(h ?? '').trim().toLowerCase()` for one header cell. */
  function HeaderCell(h: Option<string>): string {
    Lower(Trim(h.GetOr("")))
  }

  /** `H.indexOf(a)`: the first position holding `a`, or -1. */
  function IndexIn(hs: seq<string>, a: string): (r: int)
    ensures r == -1 <==> a !in hs
    ensures r != -1 ==> 0 <= r < |hs| && hs[r] == a && forall j :: 0 <= j < r ==> hs[j] != a
  {
    if hs == [] then -1
    else if hs[0] == a then 0
    else
      var r := IndexIn(hs[1..], a);
      if r == -1 then -1 else r + 1
  }

  /** The position of a column among the headers: the first alias, in alias order, that occurs decides. */
  function ColumnOf(hs: seq<string>, aliases: seq<string>): (r: int)
    ensures -1 <= r < |hs|
  {
    if aliases == [] then -1
    else
      var j := IndexIn(hs, aliases[0]);
      if j != -1 then j else ColumnOf(hs, aliases[1..])
  }

  /**
   * A column is missing exactly when none of its aliases is a header;
   * otherwise its position holds the first alias, in alias order, that is a
   * header, at that header's first occurrence.
   */
  lemma {:induction false} ColumnOfFirstAlias(hs: seq<string>, aliases: seq<string>)
    ensures ColumnOf(hs, aliases) == -1 <==> forall a :: a in aliases ==> a !in hs
    ensures var r := ColumnOf(hs, aliases);
      r != -1 ==>
        exists i :: 0 <= i < |aliases| && hs[r] == aliases[i] &&
          (forall k :: 0 <= k < i ==> aliases[k] !in hs) && (forall j :: 0 <= j < r ==> hs[j] != aliases[i])
  {
    if aliases != [] && IndexIn(hs, aliases[0]) == -1 {
      ColumnOfFirstAlias(hs, aliases[1..]);
      var r := ColumnOf(hs, aliases);
      if r != -1 {
        var i :| 0 <= i < |aliases[1..]| && hs[r] == aliases[1..][i] &&
          (forall k :: 0 <= k < i ==> aliases[1..][k] !in hs) && (forall j :: 0 <= j < r ==> hs[j] != aliases[1..][i]);
        assert forall k :: 0 <= k < i + 1 ==> aliases[k] !in hs by {
          forall k | 0 <= k < i + 1 ensures aliases[k] !in hs {
            if k > 0 { assert aliases[k] == aliases[1..][k - 1]; }
          }
        }
        assert hs[r] == aliases[i + 1];
      }
      assert forall a :: a in aliases ==> a == aliases[0] || a in aliases[1..];
    } else if aliases != [] {
      assert hs[ColumnOf(hs, aliases)] == aliases[0];
    }
  }

  /** Every column is listed. */
  lemma AllColumns()
    ensures forall c: Column :: c in Columns
  {
    forall c: Column ensures c in Columns {
      match c
      case Name => assert Columns[0] == c;
      case Email => assert Columns[1] == c;
      case Password => assert Columns[2] == c;
      case Department => assert Columns[3] == c;
      case ManagerName => assert Columns[4] == c;
      case Photo => assert Columns[5] == c;
    }
  }

  /** `for (const a of aliases) { const j = H.indexOf(a); if (j !== -1) { found = j; break; } }` */
  method FindColumn(hs: seq<string>, aliases: seq<string>) returns (found: int)
    ensures found == ColumnOf(hs, aliases)
  {
    found := -1;
    var i := 0;
    while i < |aliases|
      invariant 0 <= i <= |aliases|
      invariant ColumnOf(hs, aliases) == ColumnOf(hs, aliases[i..])
    {
      var j := IndexIn(hs, aliases[i]);
      assert aliases[i..][1..] == aliases[i + 1..];
      if j != -1 {
        found := j;
        return;
      }
      i := i + 1;
    }
  }

  /** `buildColumnIndex(headerRow)`: each column's position among the cleaned headers, -1 when missing. */
  method BuildColumnIndex(headerRow: seq<Option<string>>) returns (idx: map<Column, int>)
    ensures idx == ColumnIndexOf(headerRow)
  {
    var hs := CleanHeaders(headerRow);
    idx := IndexColumns(hs, Columns);
    AllColumns();
    ghost var want := ColumnIndexOf(headerRow);
    assert forall c :: c in idx <==> c in want;
  }

  /** The loop of `buildColumnIndex` over the given database columns. */
  method IndexColumns(hs: seq<string>, cols: seq<Column>) returns (idx: map<Column, int>)
    ensures forall c :: c in idx <==> c in cols
    ensures forall c :: c in idx ==> idx[c] == ColumnOf(hs, Aliases(c))
  {
    idx := map[];
    var n := 0;
    while n < |cols|
      invariant 0 <= n <= |cols|
      invariant forall c :: c in idx <==> c in cols[..n]
      invariant forall c :: c in idx ==> idx[c] == ColumnOf(hs, Aliases(c))
    {
      var dbKey := cols[n];
      var found := FindColumn(hs, Aliases(dbKey));
      assert cols[..n + 1] == cols[..n] + [dbKey];
      idx := idx[dbKey := found];
      n := n + 1;
    }
    assert cols[..n] == cols;
  }

  /** `headerRow.map(h => String(h ?? '').trim().toLowerCase())`. */
  function CleanHeaders(headerRow: seq<Option<string>>): (hs: seq<string>)
    ensures |hs| == |headerRow|
    ensures forall i :: 0 <= i < |hs| ==> hs[i] == HeaderCell(headerRow[i])
  {
    seq(|headerRow|, i requires 0 <= i < |headerRow| => HeaderCell(headerRow[i]))
  }

  /** `pick(row, j)`: the trimmed cell at `j`, empty for a missing column or a short row. */
  function Pick(row: seq<Option<string>>, j: int): (r: string)
    ensures j < 0 || j >= |row| ==> r == ""
    ensures 0 <= j < |row| ==> r == Trim(row[j].GetOr(""))
    ensures IsTrimmed(r)
  {
    if j >= 0 then
      TrimIdempotent(if j < |row| then row[j].GetOr("") else "");
      Trim(if j < |row| then row[j].GetOr("") else "")
    else ""
  }

  /** What one accepted row writes. */
  datatype UserRecord = UserRecord(name: string, email: string, password: string,
                                   department: string, managerName: string, photo: Option<string>)

  const DefaultPassword := "changeme123"

  /** The position of column `c`, -1 when the index lacks it. */
  function At(idx: map<Column, int>, c: Column): int {
    if c in idx then idx[c] else -1
  }

  /**
   * One data row: skipped (`None`) when its trimmed name or lower-cased
   * e-mail is empty; otherwise a record whose password defaults to
   * `changeme123` and whose empty photo is null.
   */
  function Accept(row: seq<Option<string>>, idx: map<Column, int>): (r: Option<UserRecord>)
    ensures r.None? <==> Pick(row, At(idx, Name)) == "" || Pick(row, At(idx, Email)) == ""
  {
    var name := Pick(row, At(idx, Name));
    var email := Lower(Pick(row, At(idx, Email)));
    if name == "" || email == "" then None
    else
      var password := Pick(row, At(idx, Password));
      var photo := Pick(row, At(idx, Photo));
      Some(UserRecord(name, email, if password == "" then DefaultPassword else password,
                      Pick(row, At(idx, Department)), Pick(row, At(idx, ManagerName)),
                      if photo == "" then None else Some(photo)))
  }

  /**
   * An accepted row keeps its trimmed cells, lower-cases its e-mail (so
   * importing it again files it under the same address), never stores an
   * empty password, and stores a photo exactly when the cell is not empty.
   */
  lemma AcceptRules(row: seq<Option<string>>, idx: map<Column, int>)
    requires Accept(row, idx).Some?
    ensures var u := Accept(row, idx).value;
      u.name == Pick(row, At(idx, Name)) && u.name != "" &&
      u.email == Lower(Pick(row, At(idx, Email))) && Lower(u.email) == u.email && u.email != "" &&
      u.password != "" &&
      (Pick(row, At(idx, Password)) != "" ==> u.password == Pick(row, At(idx, Password))) &&
      u.department == Pick(row, At(idx, Department)) &&
      u.managerName == Pick(row, At(idx, ManagerName)) &&
      (u.photo.None? <==> Pick(row, At(idx, Photo)) == "") &&
      (u.photo.Some? ==> u.photo.value == Pick(row, At(idx, Photo)))
  {
    LowerIdempotent(Pick(row, At(idx, Email)));
  }

  /** A row of the `users` table. */
  datatype UserRow = UserRow(userId: nat, user: UserRecord)

  /** `email TEXT UNIQUE`: no two users share an address. */
  predicate UniqueEmails(users: seq<UserRow>) {
    forall i, j :: 0 <= i < j < |users| ==> users[i].user.email != users[j].user.email
  }

  /** The position of the user with this address, or -1. */
  function FindEmail(users: seq<UserRow>, email: string): (r: int)
    ensures r == -1 <==> forall i :: 0 <= i < |users| ==> users[i].user.email != email
    ensures r != -1 ==> 0 <= r < |users| && users[r].user.email == email
  {
    if users == [] then -1
    else if users[|users| - 1].user.email == email then |users| - 1
    else FindEmail(users[..|users| - 1], email)
  }

  /** `INSERT ... ON CONFLICT (email) DO UPDATE SET name, password, department, manager_name, photo`. */
  function Upsert(users: seq<UserRow>, nextId: nat, rec: UserRecord): seq<UserRow> {
    var i := FindEmail(users, rec.email);
    if i == -1 then users + [UserRow(nextId, rec)] else users[i := UserRow(users[i].userId, rec)]
  }

  /**
   * After an upsert exactly one user has the address and carries the new
   * record; an existing user keeps its id; nobody else changes; the table
   * grows only when the address was new, and addresses stay unique.
   */
  lemma UpsertOnEmail(users: seq<UserRow>, nextId: nat, rec: UserRecord)
    requires UniqueEmails(users)
    ensures var r := Upsert(users, nextId, rec);
      UniqueEmails(r) &&
      (|r| == if FindEmail(users, rec.email) == -1 then |users| + 1 else |users|) &&
      (forall i :: 0 <= i < |r| && r[i].user.email == rec.email ==> r[i].user == rec) &&
      (exists i :: 0 <= i < |r| && r[i].user.email == rec.email) &&
      (forall i :: 0 <= i < |users| && users[i].user.email != rec.email ==> r[i] == users[i]) &&
      (forall i :: 0 <= i < |users| && users[i].user.email == rec.email ==> r[i].userId == users[i].userId)
  {
    var r := Upsert(users, nextId, rec);
    var k := FindEmail(users, rec.email);
    if k == -1 {
      assert r[|users|].user.email == rec.email;
    } else {
      assert r[k].user.email == rec.email;
    }
  }

  /** How one data row ends. */
  datatype RowOutcome = Skipped | Inserted | Failed

  /** What an error entry of the response reports. */
  datatype ImportError = MissingHeaders | RowFailed(rowNum: nat) | CommitFailed | StreamFailed

  /** The response body `{ inserted, skipped, errors }`. */
  datatype ImportResult = ImportResult(inserted: nat, skipped: nat, errors: seq<ImportError>)

  /** How the CSV stream ends: read to the end, then `COMMIT` (which may fail), or broken by a read error. */
  datatype Ending = Commits | CommitFails | StreamBreaks

  /**
   * Some accepted row's upsert is rejected (`failing` holds row numbers). That
   * aborts the transaction: PostgreSQL refuses every later statement of it,
   * and answers the closing `COMMIT` with a rollback.
   */
  predicate Aborts(rows: seq<seq<Option<string>>>, idx: map<Column, int>, failing: set<nat>) {
    if rows == [] then false
    else
      var k := |rows| - 1;
      Aborts(rows[..k], idx, failing) || (Accept(rows[k], idx).Some? && k + 2 in failing)
  }

  /** Every accepted row's record, in file order. */
  function Accepted(rows: seq<seq<Option<string>>>, idx: map<Column, int>): seq<UserRecord> {
    if rows == [] then []
    else
      var k := |rows| - 1;
      var a := Accept(rows[k], idx);
      Accepted(rows[..k], idx) + (if a.Some? then [a.value] else [])
  }

  /** The upserts that succeed: the accepted rows before the first rejected one, in file order. */
  function Upserted(rows: seq<seq<Option<string>>>, idx: map<Column, int>, failing: set<nat>): seq<UserRecord> {
    if rows == [] then []
    else
      var k := |rows| - 1;
      var a := Accept(rows[k], idx);
      Upserted(rows[..k], idx, failing) +
        (if a.Some? && k + 2 !in failing && !Aborts(rows[..k], idx, failing) then [a.value] else [])
  }

  /** The row errors of the response: one per accepted row from the first rejected one on. */
  function RowErrors(rows: seq<seq<Option<string>>>, idx: map<Column, int>, failing: set<nat>): seq<ImportError> {
    if rows == [] then []
    else
      var k := |rows| - 1;
      RowErrors(rows[..k], idx, failing) +
        (if Accept(rows[k], idx).Some? && (k + 2 in failing || Aborts(rows[..k], idx, failing))
         then [RowFailed(k + 2)] else [])
  }

  /**
   * Every row error names a data row. There is none exactly when no upsert
   * was rejected, and the first one names a rejected row: the later ones are
   * the statements the aborted transaction refuses.
   */
  lemma {:induction false} RowErrorsAbort(rows: seq<seq<Option<string>>>, idx: map<Column, int>, failing: set<nat>)
    ensures forall e :: e in RowErrors(rows, idx, failing) ==> e.RowFailed? && 2 <= e.rowNum < |rows| + 2
    ensures RowErrors(rows, idx, failing) == [] <==> !Aborts(rows, idx, failing)
    ensures RowErrors(rows, idx, failing) != [] ==> RowErrors(rows, idx, failing)[0].rowNum in failing
  {
    if rows != [] {
      RowErrorsAbort(rows[..|rows| - 1], idx, failing);
    }
  }

  /** When no upsert is rejected, every accepted row is upserted. */
  lemma {:induction false} NothingRejected(rows: seq<seq<Option<string>>>, idx: map<Column, int>, failing: set<nat>)
    requires !Aborts(rows, idx, failing)
    ensures Upserted(rows, idx, failing) == Accepted(rows, idx)
  {
    if rows != [] {
      NothingRejected(rows[..|rows| - 1], idx, failing);
    }
  }

  /**
   * Every record upserted in turn. Each upsert draws the next serial value,
   * whether it adds a user or updates one.
   */
  function UpsertAll(users: seq<UserRow>, nextId: nat, recs: seq<UserRecord>): (r: (seq<UserRow>, nat))
    requires UniqueEmails(users)
    ensures UniqueEmails(r.0) && r.1 == nextId + |recs|
    decreases recs
  {
    if recs == [] then (users, nextId)
    else
      UpsertOnEmail(users, nextId, recs[0]);
      UpsertAll(Upsert(users, nextId, recs[0]), nextId + 1, recs[1..])
  }

  /**
   * One upsert: the serial value it draws is the new user's id when the
   * address is new, and is spent either way, since the column default is
   * evaluated before the conflict is found; ids stay below the serial.
   */
  lemma UpsertOne(users: seq<UserRow>, nextId: nat, rec: UserRecord)
    requires UniqueEmails(users) && forall i :: 0 <= i < |users| ==> users[i].userId < nextId
    ensures var r := UpsertAll(users, nextId, [rec]);
      r.0 == Upsert(users, nextId, rec) && r.1 == nextId + 1 &&
      UniqueEmails(r.0) && forall i :: 0 <= i < |r.0| ==> r.0[i].userId < r.1
  {
    UpsertOnEmail(users, nextId, rec);
    assert [rec][1..] == [];
  }

  /** Upserting records one after another is upserting the whole list. */
  lemma {:induction false} UpsertAllSnoc(users: seq<UserRow>, nextId: nat, recs: seq<UserRecord>, rec: UserRecord)
    requires UniqueEmails(users)
    ensures var p := UpsertAll(users, nextId, recs);
      UpsertAll(users, nextId, recs + [rec]) == UpsertAll(p.0, p.1, [rec])
    decreases recs
  {
    if recs != [] {
      UpsertOnEmail(users, nextId, recs[0]);
      assert (recs + [rec])[1..] == recs[1..] + [rec];
      UpsertAllSnoc(Upsert(users, nextId, recs[0]), nextId + 1, recs[1..], rec);
    }
  }

  /** The `users` table and its serial counter. */
  class UserTable {
    var users: seq<UserRow>
    var nextId: nat

    ghost predicate Valid()
      reads this
    {
      UniqueEmails(users) && forall i :: 0 <= i < |users| ==> users[i].userId < nextId
    }

    constructor ()
      ensures Valid() && users == [] && nextId == 1
    {
      users := [];
      nextId := 1;
    }

    /** The upsert query on one accepted record. */
    method Store(rec: UserRecord)
      requires Valid()
      modifies this
      ensures Valid()
      ensures (users, nextId) == UpsertAll(old(users), old(nextId), [rec])
    {
      UpsertOne(users, nextId, rec);
      var i := FindEmail(users, rec.email);
      if i == -1 {
        users := users + [UserRow(nextId, rec)];
      } else {
        users := users[i := UserRow(users[i].userId, rec)];
      }
      nextId := nextId + 1;
    }

    /**
     * One data row of an import; `fails` says whether its upsert is rejected,
     * `aborted` whether an earlier one was.
     */
    method ImportRow(row: seq<Option<string>>, idx: map<Column, int>, fails: bool, aborted: bool) returns (o: RowOutcome)
      requires Valid()
      modifies this
      ensures Valid()
      ensures Accept(row, idx).None? ==> o == Skipped && users == old(users) && nextId == old(nextId)
      ensures Accept(row, idx).Some? && (fails || aborted) ==>
        o == Failed && users == old(users) && nextId == old(nextId)
      ensures Accept(row, idx).Some? && !fails && !aborted ==>
        o == Inserted && (users, nextId) == UpsertAll(old(users), old(nextId), [Accept(row, idx).value])
    {
      var a := Accept(row, idx);
      if a.None? {
        return Skipped;
      }
      if fails || aborted {
        return Failed;
      }
      Store(a.value);
      o := Inserted;
    }

    /**
     * The `data` handler on every row after the header; row `k` of `data` is
     * row number `k + 2`. `aborted` tells whether the transaction ends aborted.
     */
    method ImportData(data: seq<seq<Option<string>>>, idx: map<Column, int>, failing: set<nat>)
      returns (result: ImportResult, aborted: bool)
      requires Valid()
      modifies this
      ensures Valid()
      ensures aborted == Aborts(data, idx, failing)
      ensures (users, nextId) == UpsertAll(old(users), old(nextId), Upserted(data, idx, failing))
      ensures result == ImportResult(|Upserted(data, idx, failing)|, Skips(data, idx), RowErrors(data, idx, failing))
      ensures result.inserted + result.skipped + |result.errors| == |data|
    {
      result, aborted := ImportResult(0, 0, []), false;
      ghost var users0, next0 := users, nextId;
      var k := 0;
      assert data[..0] == [];
      while k < |data|
        invariant 0 <= k <= |data|
        invariant Valid()
        invariant ImportedUpTo(data[..k], idx, failing, users0, next0, result, aborted)
      {
        result, aborted := ImportNext(data, idx, failing, k, users0, next0, result, aborted);
        k := k + 1;
      }
      assert data[..k] == data;
    }

    /** The state and the tallies after the `data` handler has seen `rows`. */
    ghost predicate ImportedUpTo(rows: seq<seq<Option<string>>>, idx: map<Column, int>, failing: set<nat>,
                                 users0: seq<UserRow>, next0: nat, result: ImportResult, aborted: bool)
      reads this
    {
      && UniqueEmails(users0)
      && aborted == Aborts(rows, idx, failing)
      && (users, nextId) == UpsertAll(users0, next0, Upserted(rows, idx, failing))
      && result == ImportResult(|Upserted(rows, idx, failing)|, Skips(rows, idx), RowErrors(rows, idx, failing))
      && result.inserted + result.skipped + |result.errors| == |rows|
    }

    /** Row `k` of `data` on top of the rows before it: one step of the `data` handler. */
    method ImportNext(data: seq<seq<Option<string>>>, idx: map<Column, int>, failing: set<nat>, k: nat,
                      ghost users0: seq<UserRow>, ghost next0: nat, result0: ImportResult, aborted0: bool)
      returns (result: ImportResult, aborted: bool)
      requires k < |data| && Valid() && UniqueEmails(users0)
      requires ImportedUpTo(data[..k], idx, failing, users0, next0, result0, aborted0)
      modifies this
      ensures Valid()
      ensures ImportedUpTo(data[..k + 1], idx, failing, users0, next0, result, aborted)
    {
      ghost var a := Accept(data[k], idx);
      ghost var before := Upserted(data[..k], idx, failing);
      result, aborted := result0, aborted0;
      var o := ImportRow(data[k], idx, k + 2 in failing, aborted);
      match o {
        case Skipped =>
          SkippedStep(data, idx, failing, k);
          result := result.(skipped := result.skipped + 1);
        case Failed =>
          FailedStep(data, idx, failing, k);
          result := result.(errors := result.errors + [RowFailed(k + 2)]);
          aborted := true;
        case Inserted =>
          InsertedStep(data, idx, failing, k);
          UpsertAllSnoc(users0, next0, before, a.value);
          result := result.(inserted := result.inserted + 1);
      }
    }

    /**
     * The header row, then every data row: without a name or an e-mail column
     * the import stops with that one error and nothing stored.
     */
    method ReadRows(rows: seq<seq<Option<string>>>, failing: set<nat>)
      returns (missing: bool, aborted: bool, result: ImportResult)
      requires Valid()
      modifies this
      ensures Valid()
      ensures missing == HeadersMissing(rows)
      ensures missing ==>
        result == ImportResult(0, 0, [MissingHeaders]) && !aborted && users == old(users) && nextId == old(nextId)
      ensures !missing ==>
        var idx := HeaderIndex(rows);
        var data := DataRows(rows);
        aborted == Aborts(data, idx, failing) &&
        (users, nextId) == UpsertAll(old(users), old(nextId), Upserted(data, idx, failing)) &&
        result == ImportResult(|Upserted(data, idx, failing)|, Skips(data, idx), RowErrors(data, idx, failing))
    {
      missing, aborted, result := false, false, ImportResult(0, 0, []);
      if rows != [] {
        var idx := BuildColumnIndex(rows[0]);
        if At(idx, Name) == -1 || At(idx, Email) == -1 {
          return true, false, result.(errors := [MissingHeaders]);
        }
        result, aborted := ImportData(rows[1..], idx, failing);
      } else {
        assert Upserted([], map[], failing) == [] && Skips([], map[]) == 0 && RowErrors([], map[], failing) == [];
      }
    }

    /**
     * The import handler on a parsed file (`None`: no file uploaded). The first
     * row is the header; without a name or an e-mail column the import stops
     * with that one error. Each later row is skipped, upserted, or fails; after
     * the first rejected upsert every later one fails too. When the stream
     * ends the transaction is committed, which keeps nothing if it was
     * aborted; when the stream breaks it is rolled back. Either way the serial
     * values the upserts drew stay spent. Row numbers count from 1 at the
     * header.
     */
    method Import(file: Option<seq<seq<Option<string>>>>, failing: set<nat>, ending: Ending)
      returns (st: Status, res: Option<ImportResult>)
      requires Valid()
      modifies this
      ensures Valid()
      ensures file.None? ==> st == BadRequest && res.None? && users == old(users) && nextId == old(nextId)
      ensures file.Some? && HeadersMissing(file.value) ==>
        st == Ok && res == Some(ImportResult(0, 0, [MissingHeaders])) && users == old(users) && nextId == old(nextId)
      ensures file.Some? && !HeadersMissing(file.value) ==>
        var idx := HeaderIndex(file.value);
        var data := DataRows(file.value);
        var done := Upserted(data, idx, failing);
        res == Some(ImportResult(|done|, Skips(data, idx), RowErrors(data, idx, failing) + EndErrors(ending))) &&
        st == (if ending == StreamBreaks then BadRequest else Ok) &&
        nextId == old(nextId) + |done| &&
        users == (if ending == Commits && !Aborts(data, idx, failing)
                  then UpsertAll(old(users), old(nextId), done).0 else old(users))
    {
      if file.None? {
        return BadRequest, None;
      }
      var users0 := users;
      var missing, aborted, result := ReadRows(file.value, failing);
      if missing {
        return Ok, Some(result);
      }
      match ending
      case Commits =>
        if aborted {
          // The COMMIT of an aborted transaction rolls it back.
          users := users0;
        }
        assert result.errors + EndErrors(ending) == result.errors;
        st, res := Ok, Some(result);
      case CommitFails =>
        users := users0;
        st, res := Ok, Some(result.(errors := result.errors + [CommitFailed]));
      case StreamBreaks =>
        users := users0;
        st, res := BadRequest, Some(result.(errors := result.errors + [StreamFailed]));
    }
  }

  /** The error the end of the stream appends. */
  function EndErrors(ending: Ending): seq<ImportError> {
    match ending
    case Commits => []
    case CommitFails => [CommitFailed]
    case StreamBreaks => [StreamFailed]
  }
  /** The header row names no name column or no e-mail column. */
  predicate HeadersMissing(rows: seq<seq<Option<string>>>) {
    rows != [] && (At(ColumnIndexOf(rows[0]), Name) == -1 || At(ColumnIndexOf(rows[0]), Email) == -1)
  }

  /** The column index the header row gives; empty for an empty file. */
  function HeaderIndex(rows: seq<seq<Option<string>>>): map<Column, int> {
    if rows == [] then map[] else ColumnIndexOf(rows[0])
  }

  /** The rows after the header. */
  function DataRows(rows: seq<seq<Option<string>>>): seq<seq<Option<string>>> {
    if rows == [] then [] else rows[1..]
  }

  /** One more data row extends the abort flag, the upserts, the errors and the skip count by what that row gives. */
  lemma ImportStep(data: seq<seq<Option<string>>>, idx: map<Column, int>, failing: set<nat>, k: int)
    requires 0 <= k < |data|
    ensures var a := Accept(data[k], idx);
      var ab := Aborts(data[..k], idx, failing);
      Aborts(data[..k + 1], idx, failing) == (ab || (a.Some? && k + 2 in failing)) &&
      Upserted(data[..k + 1], idx, failing) ==
        Upserted(data[..k], idx, failing) + (if a.Some? && k + 2 !in failing && !ab then [a.value] else []) &&
      RowErrors(data[..k + 1], idx, failing) ==
        RowErrors(data[..k], idx, failing) + (if a.Some? && (k + 2 in failing || ab) then [RowFailed(k + 2)] else []) &&
      Skips(data[..k + 1], idx) == Skips(data[..k], idx) + (if a.None? then 1 else 0)
  {
    assert data[..k + 1][..k] == data[..k] && data[..k + 1][k] == data[k];
  }

  /** A row without a name or an e-mail only adds to the skipped count. */
  lemma SkippedStep(data: seq<seq<Option<string>>>, idx: map<Column, int>, failing: set<nat>, k: int)
    requires 0 <= k < |data| && Accept(data[k], idx).None?
    ensures Aborts(data[..k + 1], idx, failing) == Aborts(data[..k], idx, failing)
    ensures Upserted(data[..k + 1], idx, failing) == Upserted(data[..k], idx, failing)
    ensures RowErrors(data[..k + 1], idx, failing) == RowErrors(data[..k], idx, failing)
    ensures Skips(data[..k + 1], idx) == Skips(data[..k], idx) + 1
  {
    ImportStep(data, idx, failing, k);
  }

  /** An accepted row whose upsert is rejected, or comes after one that was, adds its error and aborts. */
  lemma FailedStep(data: seq<seq<Option<string>>>, idx: map<Column, int>, failing: set<nat>, k: int)
    requires 0 <= k < |data| && Accept(data[k], idx).Some?
    requires k + 2 in failing || Aborts(data[..k], idx, failing)
    ensures Aborts(data[..k + 1], idx, failing)
    ensures Upserted(data[..k + 1], idx, failing) == Upserted(data[..k], idx, failing)
    ensures RowErrors(data[..k + 1], idx, failing) == RowErrors(data[..k], idx, failing) + [RowFailed(k + 2)]
    ensures Skips(data[..k + 1], idx) == Skips(data[..k], idx)
  {
    ImportStep(data, idx, failing, k);
  }

  /** An accepted row before any rejection is upserted. */
  lemma InsertedStep(data: seq<seq<Option<string>>>, idx: map<Column, int>, failing: set<nat>, k: int)
    requires 0 <= k < |data| && Accept(data[k], idx).Some?
    requires k + 2 !in failing && !Aborts(data[..k], idx, failing)
    ensures !Aborts(data[..k + 1], idx, failing)
    ensures Upserted(data[..k + 1], idx, failing) == Upserted(data[..k], idx, failing) + [Accept(data[k], idx).value]
    ensures RowErrors(data[..k + 1], idx, failing) == RowErrors(data[..k], idx, failing)
    ensures Skips(data[..k + 1], idx) == Skips(data[..k], idx)
  {
    ImportStep(data, idx, failing, k);
  }

  /** How many rows lack a name or an e-mail. */
  function Skips(rows: seq<seq<Option<string>>>, idx: map<Column, int>): nat {
    if rows == [] then 0
    else Skips(rows[..|rows| - 1], idx) + (if Accept(rows[|rows| - 1], idx).None? then 1 else 0)
  }

  const DefaultRecord := UserRecord("", "", "", "", "", None)

  /** `buildColumnIndex` as a value: every column mapped to its position. */
  function ColumnIndexOf(headerRow: seq<Option<string>>): (idx: map<Column, int>)
    ensures forall c :: c in idx && idx[c] == ColumnOf(CleanHeaders(headerRow), Aliases(c))
  {
    AllColumns();
    var hs := CleanHeaders(headerRow);
    map c: Column | c in Columns :: ColumnOf(hs, Aliases(c))
  }
}
