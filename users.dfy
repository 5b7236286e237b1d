/** `user.py`: the username and password validators, the decrypt-then-compare scans over the
    users table, and the table changes made by the user and system-admin prompts. */
module Users {
  import opened Wrappers
  import opened Text
  import opened FieldCipher
  import Scan

  /** A row of the `users` table as stored: username, role, names and registration date are
      ciphertexts (except where a prompt writes plaintext), the password is a hash. */
  datatype UserRow = UserRow(id: nat, username: string, password: string, role: string,
                             firstName: string, lastName: string, registrationDate: string)

  const SystemAdminRole := "system_admin"

  /** Why a validator rejected its input; the checks run in source order and the first failing
      one decides. */
  datatype Verdict =
    | Accepted
    | BadLength
    | BadFirstCharacter
    | Disallowed(ch: char)
    | NoLowercase
    | NoUppercase
    | NoDigit
    | NoSpecial

  /** The first character of `s` outside `allowed`, scanning left to right. */
  function FirstOutside(s: string, allowed: char -> bool): (r: Option<char>)
    ensures r.None? <==> forall i :: 0 <= i < |s| ==> allowed(s[i])
    ensures r.Some? ==> r.value in s && !allowed(r.value)
  {
    if s == [] then None
    else if !allowed(s[0]) then Some(s[0])
    else
      var r := FirstOutside(s[1..], allowed);
      assert forall i :: 1 <= i < |s| ==> s[i] == s[1..][i - 1];
      r
  }

  /** The character found is the leftmost one outside `allowed`: everything before it is allowed. */
  lemma {:induction false} FirstOutsideIsFirst(s: string, allowed: char -> bool)
    requires FirstOutside(s, allowed).Some?
    ensures exists i :: 0 <= i < |s| && s[i] == FirstOutside(s, allowed).value && !allowed(s[i]) &&
                        forall j :: 0 <= j < i ==> allowed(s[j])
  {
    if allowed(s[0]) {
      var tail := s[1..];
      FirstOutsideIsFirst(tail, allowed);
      var k :| 0 <= k < |tail| && tail[k] == FirstOutside(tail, allowed).value && !allowed(tail[k]) &&
               forall j :: 0 <= j < k ==> allowed(tail[j]);
      assert s[k + 1] == tail[k];
      assert forall j :: 1 <= j < k + 1 ==> s[j] == tail[j - 1];
    } else {
      assert s[0] == FirstOutside(s, allowed).value;
    }
  }

  /** The username whitelist "a-zA-Z0-9_.'". */
  predicate InUsernameWhitelist(c: char)
  {
    IsAsciiAlnum(c) || c == '_' || c == '.' || c == '\''
  }

  /** `is_valid_username`: length 8-10 (checked before the first character is read), first
      character a letter or '_', every character whitelisted. */
  function UsernameVerdict(username: string): (v: Verdict)
    ensures v == Accepted <==>
              8 <= |username| <= 10 && (IsAsciiLetter(username[0]) || username[0] == '_') &&
              forall i :: 0 <= i < |username| ==> InUsernameWhitelist(username[i])
    ensures !(8 <= |username| <= 10) <==> v == BadLength
    ensures v.Disallowed? ==> !InUsernameWhitelist(v.ch) && v.ch in username
  {
    if !(8 <= |username| <= 10) then BadLength
    else if !(IsAsciiLetter(username[0]) || username[0] == '_') then BadFirstCharacter
    else match FirstOutside(username, InUsernameWhitelist)
      case Some(ch) => Disallowed(ch)
      case None => Accepted
  }

  predicate IsValidUsername(username: string)
  {
    UsernameVerdict(username) == Accepted
  }

  /** The symbols of the password whitelist. */
  const PasswordSymbols := "~!@#$%&_-+=`|(){}[]:;'<>,.?/"
  /** The characters of the special-character class the password must draw on. */
  const SpecialClass := "~!@#$%&_-+=`|(){}[]:;'<>,.?/"

  predicate InPasswordWhitelist(c: char)
  {
    IsAsciiAlnum(c) || c in PasswordSymbols
  }

  predicate IsSpecial(c: char)
  {
    c in SpecialClass
  }

  /** The special class is exactly the whitelist without letters and digits. */
  lemma SpecialIsWhitelistWithoutAlnum(c: char)
    ensures IsSpecial(c) <==> InPasswordWhitelist(c) && !IsAsciiAlnum(c)
  {
    if c in SpecialClass {
      var i :| 0 <= i < |SpecialClass| && SpecialClass[i] == c;
      assert !IsAsciiAlnum(SpecialClass[i]);
    }
  }

  /** `is_valid_password`: length 12-30, every character whitelisted, and at least one lowercase
      letter, one uppercase letter, one digit and one special character, checked in that order. */
  function PasswordVerdict(password: string): (v: Verdict)
    ensures v == Accepted <==>
              12 <= |password| <= 30 &&
              (forall i :: 0 <= i < |password| ==> InPasswordWhitelist(password[i])) &&
              (exists i :: 0 <= i < |password| && IsAsciiLower(password[i])) &&
              (exists i :: 0 <= i < |password| && IsAsciiUpper(password[i])) &&
              (exists i :: 0 <= i < |password| && IsAsciiDigit(password[i])) &&
              (exists i :: 0 <= i < |password| && IsSpecial(password[i]))
    ensures !(12 <= |password| <= 30) <==> v == BadLength
    ensures v.Disallowed? ==> !InPasswordWhitelist(v.ch) && v.ch in password
  {
    if !(12 <= |password| <= 30) then BadLength
    else if FirstOutside(password, InPasswordWhitelist).Some? then
      Disallowed(FirstOutside(password, InPasswordWhitelist).value)
    else if !(exists i | 0 <= i < |password| :: IsAsciiLower(password[i])) then NoLowercase
    else if !(exists i | 0 <= i < |password| :: IsAsciiUpper(password[i])) then NoUppercase
    else if !(exists i | 0 <= i < |password| :: IsAsciiDigit(password[i])) then NoDigit
    else if !(exists i | 0 <= i < |password| :: IsSpecial(password[i])) then NoSpecial
    else Accepted
  }

  predicate IsValidPassword(password: string)
  {
    PasswordVerdict(password) == Accepted
  }

  /** What a scan compares a decrypted username with. */
  datatype Criterion =
    | SameName(name: string)                               // `decrypted == username`
    | SameNameIgnoringCase(name: string)                   // `decrypted.lower() == username.lower()`
    | Credentials(name: string, passwordHash: string)      // name, and the stored hash

  predicate Matches(k: Criterion, row: UserRow, plain: string)
  {
    match k
    case SameName(name) => plain == name
    case SameNameIgnoringCase(name) => Lower(plain) == Lower(name)
    case Credentials(name, passwordHash) => plain == name && row.password == passwordHash
  }

  function UsernameOf(row: UserRow): string
  {
    row.username
  }

  function MatcherFor(k: Criterion): (UserRow, string) -> bool
  {
    (row: UserRow, plain: string) => Matches(k, row, plain)
  }

  /** The scan every lookup of `user.py` performs: decrypt each stored username in table order
      and stop at the first that satisfies `k`. */
  function FirstMatch(c: Cipher, rows: seq<UserRow>, k: Criterion): Result<Option<nat>, CipherError>
  {
    Scan.First(c, rows, UsernameOf, MatcherFor(k))
  }

  /** The admin prompts' lookup: the first row whose username matches, and its decrypted role. */
  datatype AdminLookup = Admin(index: nat) | NoSuchUser | NotSystemAdmin | RoleUnreadable | ScanFailed

  function FindSystemAdmin(c: Cipher, rows: seq<UserRow>, username: string): (r: AdminLookup)
    ensures r.Admin? <==> FirstMatch(c, rows, SameName(username)).Ok? &&
                          FirstMatch(c, rows, SameName(username)).value.Some? &&
                          DecryptData(c, rows[FirstMatch(c, rows, SameName(username)).value.value].role) == Ok(SystemAdminRole)
    ensures r.Admin? ==> r.index < |rows| && FirstMatch(c, rows, SameName(username)) == Ok(Some(r.index))
  {
    match FirstMatch(c, rows, SameName(username))
    case Err(_) => ScanFailed
    case Ok(None) => NoSuchUser
    case Ok(Some(i)) =>
      match DecryptData(c, rows[i].role)
      case Err(_) => RoleUnreadable
      case Ok(role) => if role == SystemAdminRole then Admin(i) else NotSystemAdmin
  }

  /** How a prompt ended. `Failed` is an exception the prompt catches (a UNIQUE violation, a
      cipher error); nothing was written then. */
  datatype Outcome = Done | NotFound | NotAdmin | RoleNotReadable | Cancelled | Failed

  /** Primary keys are positive and distinct (SQLite assigns them from 1 up), and the stored
      usernames are distinct (the UNIQUE constraint). */
  ghost predicate WellFormed(rows: seq<UserRow>)
  {
    (forall i :: 0 <= i < |rows| ==> rows[i].id >= 1) &&
    (forall i, j :: 0 <= i < j < |rows| ==> rows[i].id != rows[j].id) &&
    DistinctNames(rows)
  }

  /** The UNIQUE constraint refuses `cipher` as the new username of row `i`. */
  predicate TakenByOther(rows: seq<UserRow>, i: nat, cipher: string)
  {
    exists j :: 0 <= j < |rows| && j != i && rows[j].username == cipher
  }

  /** The table without row `i`. */
  function Without(rows: seq<UserRow>, i: nat): seq<UserRow>
    requires i < |rows|
  {
    rows[..i] + rows[i + 1..]
  }

  /** Removing a row keeps the table well formed, and keeps the other rows in order. */
  lemma WithoutKeepsWellFormed(rows: seq<UserRow>, i: nat)
    requires i < |rows| && WellFormed(rows)
    ensures |Without(rows, i)| == |rows| - 1
    ensures forall j :: 0 <= j < |rows| - 1 ==> Without(rows, i)[j] == rows[if j < i then j else j + 1]
    ensures WellFormed(Without(rows, i))
  {
    var r := Without(rows, i);
    assert forall j :: 0 <= j < |r| ==> r[j] == rows[if j < i then j else j + 1];
  }

  /** Replacing a stored password hash keeps the table well formed: ids and names are untouched. */
  lemma SetPasswordKeepsWellFormed(rows: seq<UserRow>, i: nat, password: string)
    requires i < |rows| && WellFormed(rows)
    ensures WellFormed(rows[i := rows[i].(password := password)])
  {
    var r := rows[i := rows[i].(password := password)];
    assert forall j :: 0 <= j < |r| ==> r[j].id == rows[j].id && r[j].username == rows[j].username;
  }

  /** `DELETE FROM users WHERE username=?`: every row holding that ciphertext goes. */
  function DeleteByUsername(rows: seq<UserRow>, cipher: string): seq<UserRow>
  {
    if rows == [] then []
    else (if rows[0].username == cipher then [] else [rows[0]]) + DeleteByUsername(rows[1..], cipher)
  }

  /** Deleting by ciphertext keeps exactly the rows holding another ciphertext, and never grows
      the table. */
  lemma {:induction false} DeleteByUsernameKeepsOthers(rows: seq<UserRow>, cipher: string)
    ensures |DeleteByUsername(rows, cipher)| <= |rows|
    ensures forall x :: x in DeleteByUsername(rows, cipher) <==> x in rows && x.username != cipher
  {
    if rows != [] {
      DeleteByUsernameKeepsOthers(rows[1..], cipher);
      assert rows == [rows[0]] + rows[1..];
    }
  }

  /** No two rows hold the same username ciphertext. */
  predicate DistinctNames(rows: seq<UserRow>)
  {
    forall a, b :: 0 <= a < b < |rows| ==> rows[a].username != rows[b].username
  }

  lemma DeleteByUsernameCons(x: UserRow, tail: seq<UserRow>, cipher: string)
    ensures DeleteByUsername([x] + tail, cipher) ==
              (if x.username == cipher then [] else [x]) + DeleteByUsername(tail, cipher)
  {
    assert ([x] + tail)[1..] == tail;
  }

  /** The rows after the first are distinct too, and none repeats the first one's name. */
  lemma DistinctNamesTail(x: UserRow, tail: seq<UserRow>)
    requires DistinctNames([x] + tail)
    ensures DistinctNames(tail)
    ensures forall a :: 0 <= a < |tail| ==> tail[a].username != x.username
  {
    var rows := [x] + tail;
    forall a, b | 0 <= a < b < |tail|
      ensures tail[a].username != tail[b].username
    {
      assert tail[a] == rows[a + 1] && tail[b] == rows[b + 1];
    }
    forall a | 0 <= a < |tail|
      ensures tail[a].username != x.username
    {
      assert tail[a] == rows[a + 1] && x == rows[0];
    }
  }

  lemma WithoutCons(x: UserRow, tail: seq<UserRow>, j: nat)
    requires j < |tail|
    ensures Without([x] + tail, j + 1) == [x] + Without(tail, j)
  {
    var rows := [x] + tail;
    assert rows[1..] == tail;
    assert rows[..j + 1] == [x] + tail[..j];
    assert rows[j + 2..] == tail[j + 1..];
  }

  /** Deleting by the first row's ciphertext, when no later row holds it, drops just that row. */
  lemma DeleteFirstByUsername(x: UserRow, tail: seq<UserRow>)
    requires forall a :: 0 <= a < |tail| ==> tail[a].username != x.username
    ensures DeleteByUsername([x] + tail, x.username) == tail
  {
    DeleteByUsernameCons(x, tail, x.username);
    KeepAll(tail, x.username);
  }

  /** Deleting by a ciphertext the first row does not hold keeps that row in front. */
  lemma DeleteLaterByUsername(x: UserRow, tail: seq<UserRow>, cipher: string)
    requires x.username != cipher
    ensures DeleteByUsername([x] + tail, cipher) == [x] + DeleteByUsername(tail, cipher)
  {
    DeleteByUsernameCons(x, tail, cipher);
  }

  /** With distinct usernames, deleting by the ciphertext of row `i` removes exactly row `i`. */
  lemma {:induction false} DeleteByUsernameRemovesOne(rows: seq<UserRow>, i: nat)
    requires i < |rows| && DistinctNames(rows)
    ensures DeleteByUsername(rows, rows[i].username) == Without(rows, i)
  {
    var x, tail := rows[0], rows[1..];
    assert rows == [x] + tail;
    DistinctNamesTail(x, tail);
    if i == 0 {
      DeleteFirstByUsername(x, tail);
      assert Without(rows, 0) == tail;
    } else {
      var cipher := tail[i - 1].username;
      DeleteLaterByUsername(x, tail, cipher);
      DeleteByUsernameRemovesOne(tail, i - 1);
      WithoutCons(x, tail, i - 1);
    }
  }

  lemma {:induction false} KeepAll(rows: seq<UserRow>, cipher: string)
    requires forall a :: 0 <= a < |rows| ==> rows[a].username != cipher
    ensures DeleteByUsername(rows, cipher) == rows
  {
    if rows != [] {
      KeepAll(rows[1..], cipher);
    }
  }

  class UserTable {
    var rows: seq<UserRow>

    ghost predicate Valid()
      reads this
    {
      WellFormed(rows)
    }

    constructor (rows: seq<UserRow>)
      requires WellFormed(rows)
      ensures Valid() && this.rows == rows
    {
      this.rows := rows;
    }

    /** `validate_login`: the id and decrypted role of the first row whose username decrypts to
        `username` and whose stored hash is `hash(password)`. A name match with the wrong hash
        does not stop the scan. A failed query or any exception yields None. */
    method ValidateLogin(c: Cipher, hash: string -> string, selectFails: bool, username: string, password: string)
      returns (r: Option<(nat, string)>)
      ensures selectFails ==> r == None
      ensures !selectFails ==>
                var found := FirstMatch(c, rows, Credentials(username, hash(password)));
                if found.Ok? && found.value.Some? && DecryptData(c, rows[found.value.value].role).Ok? then
                  r == Some((rows[found.value.value].id, DecryptData(c, rows[found.value.value].role).value))
                else r == None
      ensures r.Some? ==> exists i :: 0 <= i < |rows| && rows[i].id == r.value.0 &&
                                      DecryptData(c, rows[i].username) == Ok(username) &&
                                      rows[i].password == hash(password) &&
                                      DecryptData(c, rows[i].role) == Ok(r.value.1)
    {
      if selectFails {
        return None;
      }
      var found := Scan.ScanRows(c, rows, UsernameOf, MatcherFor(Credentials(username, hash(password))));
      if found.Err? || found.value.None? {
        return None;
      }
      var i := found.value.value;
      var role := DecryptData(c, rows[i].role);
      if role.Err? {
        return None;
      }
      r := Some((rows[i].id, role.value));
    }

    /** `username_exists`: some stored username decrypts to `username` ignoring case. A failed
        query yields false; a decryption error is not caught and propagates. */
    method UsernameExists(c: Cipher, selectFails: bool, username: string) returns (r: Result<bool, CipherError>)
      ensures selectFails ==> r == Ok(false)
      ensures !selectFails ==> r == match FirstMatch(c, rows, SameNameIgnoringCase(username))
                                   case Err(e) => Err(e)
                                   case Ok(found) => Ok(found.Some?)
      ensures !selectFails && (forall i :: 0 <= i < |rows| ==> DecryptData(c, rows[i].username).Ok?) ==>
                (r == Ok(true) <==> exists i :: 0 <= i < |rows| &&
                                      Lower(DecryptData(c, rows[i].username).value) == Lower(username))
      ensures r.Err? ==> exists i :: 0 <= i < |rows| && DecryptData(c, rows[i].username) == Err(r.error)
    {
      if selectFails {
        return Ok(false);
      }
      var found := Scan.ScanRows(c, rows, UsernameOf, MatcherFor(SameNameIgnoringCase(username)));
      if found.Err? {
        return Err(found.error);
      }
      r := Ok(found.value.Some?);
    }

    /** `delete_user_prompt`: delete by the ciphertext of the first row whose username decrypts
        to `username`; with no match nothing changes. Decryption errors propagate. */
    method DeleteUser(c: Cipher, username: string) returns (r: Result<bool, CipherError>)
      requires Valid()
      modifies this
      ensures Valid()
      ensures var found := FirstMatch(c, old(rows), SameName(username));
              match found
              case Err(e) => r == Err(e) && rows == old(rows)
              case Ok(None) => r == Ok(false) && rows == old(rows)
              case Ok(Some(i)) => r == Ok(true) && rows == Without(old(rows), i)
    {
      var found := Scan.ScanRows(c, rows, UsernameOf, MatcherFor(SameName(username)));
      if found.Err? {
        return Err(found.error);
      }
      if found.value.None? {
        return Ok(false);
      }
      var i := found.value.value;
      var cipher := rows[i].username;
      Scan.EmptyNeverDecrypts(c);
      assert cipher != "";
      DeleteByUsernameRemovesOne(rows, i);
      WithoutKeepsWellFormed(rows, i);
      rows := DeleteByUsername(rows, cipher);
      r := Ok(true);
    }

    /** `update_user_prompt` after its input loops: encrypt the new username, find the first row
        whose username decrypts to `username`, and set its username (encrypted) and its first and
        last name (as given, not encrypted). A UNIQUE violation is caught and changes nothing;
        cipher errors propagate. */
    method UpdateUser(c: Cipher, seed: Seed, username: string, newUsername: string,
                      firstName: string, lastName: string) returns (r: Result<Outcome, CipherError>)
      requires Valid()
      modifies this
      ensures Valid()
      ensures EncryptData(c, seed, newUsername).Err? ==>
                r == Err(EncryptData(c, seed, newUsername).error) && rows == old(rows)
      ensures EncryptData(c, seed, newUsername).Ok? ==>
                var cipher := EncryptData(c, seed, newUsername).value;
                match FirstMatch(c, old(rows), SameName(username))
                case Err(e) => r == Err(e) && rows == old(rows)
                case Ok(None) => r == Ok(NotFound) && rows == old(rows)
                case Ok(Some(i)) =>
                  if TakenByOther(old(rows), i, cipher) then r == Ok(Failed) && rows == old(rows)
                  else r == Ok(Done) &&
                       rows == old(rows)[i := old(rows)[i].(username := cipher, firstName := firstName, lastName := lastName)]
    {
      var encrypted := EncryptData(c, seed, newUsername);
      if encrypted.Err? {
        return Err(encrypted.error);
      }
      var found := Scan.ScanRows(c, rows, UsernameOf, MatcherFor(SameName(username)));
      if found.Err? {
        return Err(found.error);
      }
      if found.value.None? {
        return Ok(NotFound);
      }
      var i := found.value.value;
      if TakenByOther(rows, i, encrypted.value) {
        return Ok(Failed);
      }
      rows := rows[i := rows[i].(username := encrypted.value, firstName := firstName, lastName := lastName)];
      r := Ok(Done);
    }

    /** `update_admin_prompt` after its input loops. Every exception is caught, so the outcome is
        a value; the table changes only when the first username match is a 'system_admin', and
        then only that row's username, first and last name, all encrypted. */
    method UpdateAdmin(c: Cipher, rand: nat -> Seed, username: string, newUsername: string,
                       firstName: string, lastName: string) returns (outcome: Outcome)
      requires Valid()
      modifies this
      ensures Valid()
      ensures rows != old(rows) ==> FindSystemAdmin(c, old(rows), username).Admin?
      ensures var cipher := EncryptData(c, rand(0), newUsername);
              var first := EncryptData(c, rand(1), firstName);
              var last := EncryptData(c, rand(2), lastName);
              match FindSystemAdmin(c, old(rows), username)
              case Admin(i) =>
                if cipher.Err? || first.Err? || last.Err? || TakenByOther(old(rows), i, cipher.value) then
                  outcome == Failed && rows == old(rows)
                else
                  outcome == Done &&
                  rows == old(rows)[i := old(rows)[i].(username := cipher.value, firstName := first.value,
                                                       lastName := last.value)]
              case NoSuchUser => outcome == (if cipher.Err? then Failed else NotFound) && rows == old(rows)
              case NotSystemAdmin => outcome == (if cipher.Err? then Failed else NotAdmin) && rows == old(rows)
              case RoleUnreadable => outcome == (if cipher.Err? then Failed else RoleNotReadable) && rows == old(rows)
              case ScanFailed => outcome == Failed && rows == old(rows)
    {
      var cipher := EncryptData(c, rand(0), newUsername);
      if cipher.Err? {
        return Failed;
      }
      var found := Scan.ScanRows(c, rows, UsernameOf, MatcherFor(SameName(username)));
      if found.Err? {
        return Failed;
      }
      if found.value.None? {
        return NotFound;
      }
      var i := found.value.value;
      var role := DecryptData(c, rows[i].role);
      if role.Err? {
        return RoleNotReadable;
      }
      if role.value != SystemAdminRole {
        return NotAdmin;
      }
      var first := EncryptData(c, rand(1), firstName);
      var last := EncryptData(c, rand(2), lastName);
      if first.Err? || last.Err? || TakenByOther(rows, i, cipher.value) {
        return Failed;
      }
      rows := rows[i := rows[i].(username := cipher.value, firstName := first.value, lastName := last.value)];
      outcome := Done;
    }

    /** `delete_admin_prompt` after its input loop: delete the first username match by id, only
        if its role decrypts to 'system_admin' and the confirmation, stripped and lowercased, is
        "y". Every exception is caught. */
    method DeleteAdmin(c: Cipher, username: string, confirmation: string) returns (outcome: Outcome)
      requires Valid()
      modifies this
      ensures Valid()
      ensures match FindSystemAdmin(c, old(rows), username)
              case Admin(i) =>
                if Lower(Strip(confirmation)) == "y" then outcome == Done && rows == Without(old(rows), i)
                else outcome == Cancelled && rows == old(rows)
              case NoSuchUser => outcome == NotFound && rows == old(rows)
              case NotSystemAdmin => outcome == NotAdmin && rows == old(rows)
              case RoleUnreadable => outcome == RoleNotReadable && rows == old(rows)
              case ScanFailed => outcome == Failed && rows == old(rows)
    {
      var i;
      outcome, i := LocateSystemAdmin(c, username);
      if outcome != Done {
        return;
      }
      if Lower(Strip(confirmation)) != "y" {
        return Cancelled;
      }
      WithoutKeepsWellFormed(rows, i);
      rows := Without(rows, i);
    }

    /** `reset_admin_password_prompt` after its input loops: set the stored hash of the first
        username match, only if its role decrypts to 'system_admin'. */
    method ResetAdminPassword(c: Cipher, hash: string -> string, username: string, newPassword: string)
      returns (outcome: Outcome)
      requires Valid() && IsValidPassword(newPassword)
      modifies this
      ensures Valid()
      ensures match FindSystemAdmin(c, old(rows), username)
              case Admin(i) => outcome == Done && rows == old(rows)[i := old(rows)[i].(password := hash(newPassword))]
              case NoSuchUser => outcome == NotFound && rows == old(rows)
              case NotSystemAdmin => outcome == NotAdmin && rows == old(rows)
              case RoleUnreadable => outcome == RoleNotReadable && rows == old(rows)
              case ScanFailed => outcome == Failed && rows == old(rows)
    {
      var i;
      outcome, i := LocateSystemAdmin(c, username);
      if outcome != Done {
        return;
      }
      SetPasswordKeepsWellFormed(rows, i, hash(newPassword));
      rows := rows[i := rows[i].(password := hash(newPassword))];
    }

    /** The scan shared by the delete and password-reset prompts: the role of the first username
        match is checked inside the loop, before its id is taken. */
    method LocateSystemAdmin(c: Cipher, username: string) returns (outcome: Outcome, i: nat)
      ensures match FindSystemAdmin(c, rows, username)
              case Admin(k) => outcome == Done && i == k
              case NoSuchUser => outcome == NotFound
              case NotSystemAdmin => outcome == NotAdmin
              case RoleUnreadable => outcome == RoleNotReadable
              case ScanFailed => outcome == Failed
    {
      i := 0;
      var found := Scan.ScanRows(c, rows, UsernameOf, MatcherFor(SameName(username)));
      if found.Err? {
        return Failed, 0;
      }
      if found.value.None? {
        return NotFound, 0;
      }
      i := found.value.value;
      var role := DecryptData(c, rows[i].role);
      if role.Err? {
        return RoleNotReadable, 0;
      }
      if role.value != SystemAdminRole {
        return NotAdmin, 0;
      }
      outcome := Done;
    }
  }
}
