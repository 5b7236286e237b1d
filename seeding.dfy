/** `database.py`: seeding the super administrator account when the users table has none. The
    account's name, role, first and last name and registration date are encrypted; the password
    is stored as its hash. */
module Seeding {
  import opened Wrappers
  import opened Clock
  import opened FieldCipher
  import opened Users
  import Scan

  const SuperAdminName := "super_admin"
  const SuperAdminPassword := "Admin_123?"

  /** How `add_super_admin` ends. `SeedFailed` is an exception it catches and reports; nothing is
      written then. */
  datatype SeedOutcome = AlreadyPresent | Added | SeedFailed

  /** The primary key SQLite gives the next inserted row: one more than the largest in use. */
  function NextId(rows: seq<UserRow>): (id: nat)
    ensures id >= 1 && forall i :: 0 <= i < |rows| ==> rows[i].id < id
  {
    if rows == [] then 1
    else
      var rest := NextId(rows[1..]);
      assert forall i :: 1 <= i < |rows| ==> rows[i] == rows[1..][i - 1];
      if rows[0].id < rest then rest else rows[0].id + 1
  }

  /** A users row whose name, names, role and date are encrypted in the order `add_super_admin`
      encrypts them, one seed each, and whose password is the given hash. */
  function EncryptAccount(c: Cipher, rand: nat -> Seed, id: nat, username: string, firstName: string,
                          lastName: string, role: string, registered: string, passwordHash: string)
    : (r: Result<UserRow, CipherError>)
    ensures r.Ok? <==> PublicKeyPath in c.keyFiles && Fits(username) && Fits(firstName) && Fits(lastName) &&
                       Fits(role) && Fits(registered)
    ensures r.Ok? ==> r.value.id == id && r.value.password == passwordHash
  {
    var encUsername :- EncryptData(c, rand(0), username);
    var encFirstName :- EncryptData(c, rand(1), firstName);
    var encLastName :- EncryptData(c, rand(2), lastName);
    var encRole :- EncryptData(c, rand(3), role);
    var encRegistered :- EncryptData(c, rand(4), registered);
    Ok(UserRow(id, encUsername, passwordHash, encRole, encFirstName, encLastName, encRegistered))
  }

  /** The super administrator's row. */
  function SeedRow(c: Cipher, rand: nat -> Seed, now: DateTime, hash: string -> string, id: nat)
    : Result<UserRow, CipherError>
  {
    EncryptAccount(c, rand, id, SuperAdminName, "Super", "Admin", SuperAdminName, RegistrationStamp(now),
                   hash(SuperAdminPassword))
  }

  /** The names and the date are short enough to encrypt. */
  lemma SeedFieldsFit(now: DateTime)
    ensures Fits(SuperAdminName) && Fits("Super") && Fits("Admin") && Fits(RegistrationStamp(now))
  {
    Utf8Bound(SuperAdminName);
    Utf8Bound("Super");
    Utf8Bound("Admin");
    Utf8Bound(RegistrationStamp(now));
  }

  lemma Utf8Bound(s: string)
    requires |s| <= 19
    ensures Fits(s)
  {
  }

  /** Under a matching key pair the seeded row decrypts to the super administrator: name and
      role "super_admin", names "Super" and "Admin", and the password is the hash, not a
      ciphertext. */
  lemma SeedRowDecrypts(c: Cipher, rand: nat -> Seed, now: DateTime, hash: string -> string, id: nat)
    requires Sound(c)
    ensures SeedRow(c, rand, now, hash, id).Ok?
    ensures var row := SeedRow(c, rand, now, hash, id).value;
            DecryptData(c, row.username) == Ok(SuperAdminName) && DecryptData(c, row.role) == Ok(SuperAdminName) &&
            DecryptData(c, row.firstName) == Ok("Super") && DecryptData(c, row.lastName) == Ok("Admin") &&
            DecryptData(c, row.registrationDate) == Ok(RegistrationStamp(now)) &&
            row.password == hash(SuperAdminPassword)
  {
    SeedFieldsFit(now);
    RoundTrip(c, rand(0), SuperAdminName);
    RoundTrip(c, rand(1), "Super");
    RoundTrip(c, rand(2), "Admin");
    RoundTrip(c, rand(3), SuperAdminName);
    RoundTrip(c, rand(4), RegistrationStamp(now));
  }

  /** Appending a row that matches, after rows that all decrypt without matching, makes the
      scan stop at the new row. */
  lemma FirstMatchAfterAppend(c: Cipher, rows: seq<UserRow>, row: UserRow, k: Criterion)
    requires FirstMatch(c, rows, k) == Ok(None)
    requires DecryptData(c, row.username).Ok? && Matches(k, row, DecryptData(c, row.username).value)
    ensures FirstMatch(c, rows + [row], k) == Ok(Some(|rows|))
  {
    var all := rows + [row];
    assert forall j :: 0 <= j < |rows| ==> all[j] == rows[j];
    Scan.FirstSkips(c, all, UsernameOf, MatcherFor(k), |rows|);
    assert all[|rows|..] == [row];
  }

  /** The seeded credentials do not themselves pass the validators the prompts apply: the name
      is 11 characters and the password 10. */
  lemma SeedCredentialsFailValidators()
    ensures UsernameVerdict(SuperAdminName) == BadLength
    ensures PasswordVerdict(SuperAdminPassword) == BadLength
  {
  }

  /** A row with a fresh id and a fresh username keeps the table well formed. */
  lemma AppendKeepsWellFormed(rows: seq<UserRow>, row: UserRow)
    requires WellFormed(rows) && row.id >= 1
    requires forall i :: 0 <= i < |rows| ==> rows[i].id < row.id && rows[i].username != row.username
    ensures WellFormed(rows + [row])
  {
    var all := rows + [row];
    assert forall i :: 0 <= i < |rows| ==> all[i] == rows[i];
  }

  /** What `add_super_admin` leaves behind: how it ends and the users table after it. */
  datatype Seeded = Seeded(outcome: SeedOutcome, rows: seq<UserRow>)

  /** `add_super_admin` on a users table: scan for the name, and when it is absent insert the
      encrypted row. The insert fails like the UNIQUE constraint would when the new ciphertext is
      already stored. */
  function Seed(c: Cipher, rand: nat -> Seed, now: DateTime, hash: string -> string, rows: seq<UserRow>): Seeded
  {
    match FirstMatch(c, rows, SameName(SuperAdminName))
    case Err(_) => Seeded(SeedFailed, rows)
    case Ok(Some(_)) => Seeded(AlreadyPresent, rows)
    case Ok(None) =>
      match SeedRow(c, rand, now, hash, NextId(rows))
      case Err(_) => Seeded(SeedFailed, rows)
      case Ok(row) =>
        if exists j :: 0 <= j < |rows| && rows[j].username == row.username then Seeded(SeedFailed, rows)
        else Seeded(Added, rows + [row])
  }

  /** Seeding changes the table only by adding one row, and keeps it well formed. When it adds
      the row, the table had no super administrator and the row is the one `SeedRow` builds. */
  lemma SeedAddsAtMostOne(c: Cipher, rand: nat -> Seed, now: DateTime, hash: string -> string, rows: seq<UserRow>)
    requires WellFormed(rows)
    ensures var r := Seed(c, rand, now, hash, rows);
            WellFormed(r.rows) &&
            (r.outcome != Added ==> r.rows == rows) &&
            (r.outcome == Added ==>
               FirstMatch(c, rows, SameName(SuperAdminName)) == Ok(None) &&
               SeedRow(c, rand, now, hash, NextId(rows)).Ok? &&
               r.rows == rows + [SeedRow(c, rand, now, hash, NextId(rows)).value])
  {
    if FirstMatch(c, rows, SameName(SuperAdminName)) == Ok(None) {
      var row := SeedRow(c, rand, now, hash, NextId(rows));
      if row.Ok? && !exists j :: 0 <= j < |rows| && rows[j].username == row.value.username {
        AppendKeepsWellFormed(rows, row.value);
      }
    }
  }

  /** Seeding is idempotent: once a call has not failed, a second one, whatever its seeds and
      clock, finds the super administrator and leaves the table as it is. */
  lemma {:induction false} SeedIdempotent(c: Cipher, rand: nat -> Seed, rand': nat -> Seed, now: DateTime,
                                          later: DateTime, hash: string -> string, rows: seq<UserRow>)
    requires Sound(c) && WellFormed(rows)
    ensures var first := Seed(c, rand, now, hash, rows);
            first.outcome != SeedFailed ==> Seed(c, rand', later, hash, first.rows) == Seeded(AlreadyPresent, first.rows)
  {
    var first := Seed(c, rand, now, hash, rows);
    SeedAddsAtMostOne(c, rand, now, hash, rows);
    if first.outcome == Added {
      var row := SeedRow(c, rand, now, hash, NextId(rows));
      SeedRowDecrypts(c, rand, now, hash, NextId(rows));
      FirstMatchAfterAppend(c, rows, row.value, SameName(SuperAdminName));
    }
  }

  /** `add_super_admin`. */
  method AddSuperAdmin(users: UserTable, c: Cipher, rand: nat -> Seed, now: DateTime, hash: string -> string)
    returns (outcome: SeedOutcome)
    requires users.Valid()
    modifies users
    ensures users.Valid()
    ensures Seeded(outcome, users.rows) == Seed(c, rand, now, hash, old(users.rows))
  {
    var found := Scan.ScanRows(c, users.rows, UsernameOf, MatcherFor(SameName(SuperAdminName)));
    if found.Err? {
      return SeedFailed;
    }
    if found.value.Some? {
      return AlreadyPresent;
    }
    var row := SeedRow(c, rand, now, hash, NextId(users.rows));
    if row.Err? {
      return SeedFailed;
    }
    if exists j | 0 <= j < |users.rows| :: users.rows[j].username == row.value.username {
      return SeedFailed;
    }
    AppendKeepsWellFormed(users.rows, row.value);
    users.rows := users.rows + [row.value];
    outcome := Added;
  }

  /** Running the seeding twice, as two start-ups of the program would: the second run adds
      nothing once the first did not fail. */
  method SeedTwice(users: UserTable, c: Cipher, rand: nat -> Seed, rand': nat -> Seed,
                   now: DateTime, later: DateTime, hash: string -> string)
    returns (first: SeedOutcome, second: SeedOutcome)
    requires users.Valid() && Sound(c)
    modifies users
    ensures users.Valid()
    ensures first != SeedFailed ==> second == AlreadyPresent
    ensures |users.rows| <= |old(users.rows)| + 1
  {
    SeedIdempotent(c, rand, rand', now, later, hash, users.rows);
    SeedAddsAtMostOne(c, rand, now, hash, users.rows);
    first := AddSuperAdmin(users, c, rand, now, hash);
    ghost var between := users.rows;
    SeedAddsAtMostOne(c, rand', later, hash, between);
    second := AddSuperAdmin(users, c, rand', later, hash);
  }
}
