# Unique Meal membership administration, modelled in Dafny

Unique Meal is a console tool for administering a membership register. Staff log in with a
role: `super_admin`, `system_admin`, `consultant` or `member`. A role-dependent menu then lets
them manage staff accounts, register, search, update and delete members, read the audit log,
and back up or restore the database.

Every personal field is stored encrypted in the SQLite tables. The tool encrypts with RSA-OAEP
(MGF1 and SHA-256, no label) under a public key kept in `data/public_key.pem`, stores the
ciphertext as lowercase hex, and decrypts with `data/private_key.pem`. Passwords are stored as
hashes instead. Because the ciphertext is randomised, every lookup decrypts the stored rows one
by one in table order and compares plaintexts. Privileged actions are appended to
`data/logs.csv`, an audit log of 7-field rows: a number, the date and time in clear, then the
encrypted user, description, details and "suspicious" flag.

The model follows the program's own structure, one module per source file, plus a few shared
modules:

- `wrappers.dfy` (`Wrappers`): Option and Result.
- `text.dfy` (`Text`): the ASCII string builtins the program uses: `lower`, `strip`, `isdigit`,
  `str(int)`, `int(str)`, `ljust`, `join`.
- `clock.dfy` (`Clock`): a date-time value and the `strftime` formats used.
- `hex.dfy` (`Hex`): `bytes.hex()` and `bytes.fromhex()`.
- `utf8.dfy` (`Utf8`): `str.encode()` and `bytes.decode()`.
- `field_cipher.dfy` (`FieldCipher`): `encrypt_decrypt.py`.
- `audit_log.dfy` (`AuditLog`): `log.py`, with the log file as a class.
- `backup.dfy` (`Backup`): `backup.py`, over a file system held in a class.
- `scan.dfy` (`Scan`): the decrypt-and-compare lookup loop that `user.py`, `member.py` and
  `database.py` each repeat.
- `users.dfy` (`Users`): `user.py`, with the users table as a class.
- `members.dfy` (`Members`): `member.py`, with the members table as a class.
- `menu.dfy` (`Menu`): `um_members.py`.
- `seeding.dfy` (`Seeding`): `add_super_admin` from `database.py`.

How the environment is modelled:

- The RSA primitive is a pair of function values (`FieldCipher.Rsa`). Its correctness is the
  hypothesis `IsKeyPair`, carried by `Sound(c)`, that decryption inverts encryption for the
  stored key pair. `Unrelated` describes a key pair that rejects the other's ciphertexts.
- The message-length limit of RSAES-OAEP is computed concretely: section 7.1.1 of RFC 8017
  gives `k - 2 hLen - 2` = 190 bytes for a 2048-bit key and SHA-256. The ciphertext-length
  check of section 7.1.2 is also concrete.
- OAEP seeds are a parameter `rand: nat -> Seed`, with one seed per `encrypt_data` call. The
  clock is a `DateTime` parameter. `hash_password` is a function parameter `hash`.
- The SQLite tables are `seq`s of rows held in classes (`Users.UserTable`,
  `Members.MemberTable`). Primary keys are positive and distinct, and usernames distinct, as
  the table invariants. A failing `SELECT` is a parameter where the source turns it into a
  value.
- The file system is a map from normalised absolute paths to contents (`Backup.Disk`). A zip
  archive is its ordered list of members. A directory is a path that some file lies below, or
  the working directory or one of its ancestors; handing one to the zip library raises
  `IsADirectoryError`, which the model reports as the outcome `IsADirectory`.
- Console input is a parameter: the typed string, or a function from round number to what is
  typed.

Three facts about the code that shape the model:

- Reading the audit log stops at the first field that fails to decrypt, and the error ends the
  read.
- A restore never moves the extracted log files. The code compares each extracted path with
  itself (backup.py:72), so every extracted log file is reported "in place" and left in
  `data/`.
- A missing key file raises `KeyNotFound`. Loading a key never generates one.

## Model

| member | source | states |
|---|---|---|
| Text.Lower | um_members.py:94 | lowercasing keeps the length and maps each ASCII capital to its small letter, leaving every other character alone |
| Text.StripLeft | um_members.py:94 | the result is a suffix of the input, everything dropped is whitespace, and the result does not start with whitespace |
| Text.StripRight | member.py:173 | the result is a prefix of the input, everything dropped is whitespace, and the result does not end with whitespace |
| Text.ParseDecimal | member.py:85-86 | `int(str(n)) == n`: parsing the decimal rendering of a number gives the number back |
| Text.DecimalInjective | log.py:44 | distinct numbers have distinct decimal renderings, so entry numbers written to the log are distinct |
| Text.LJust | log.py:97 | `ljust` pads with spaces on the right to the width and never truncates |
| Text.JoinLength | log.py:97 | a joined line is as long as its parts plus one separator between each pair |
| Clock.ParsePad | backup.py:16 | a zero-padded field parses back to its number when it fits the width |
| Clock.PadParseDigits | member.py:112 | a run of digits is the zero-padded rendering of the number it parses to |
| Clock.LogDate | log.py:34 | `%d-%m-%Y` is 10 characters with dashes at positions 2 and 5 |
| Clock.LogTime | log.py:35 | `%H:%M:%S` is 8 characters with colons at positions 2 and 5 |
| Clock.ArchiveStamp | backup.py:16 | `%Y%m%d_%H%M%S` is 15 characters: digits with an underscore at position 8 |
| Clock.ArchiveStampInjective | backup.py:16-17 | two valid instants with the same archive stamp are the same instant |
| Clock.RegistrationStamp | database.py:98 | `%Y-%m-%d %H:%M:%S` is 19 characters |
| Hex.ToHex | encrypt_decrypt.py:70 | `bytes.hex()` gives two lowercase hex digits per byte |
| Hex.FromHexToHex | encrypt_decrypt.py:70-78 | `bytes.fromhex(b.hex()) == b` |
| Hex.ToHexInjective | encrypt_decrypt.py:70 | distinct byte strings have distinct hex encodings |
| Utf8.Encode | encrypt_decrypt.py:63 | UTF-8 takes one to four bytes per character |
| Utf8.DecodeEncode | encrypt_decrypt.py:63-85 | decoding the UTF-8 encoding of a string gives the string back |
| FieldCipher.LoadPublicKey | encrypt_decrypt.py:44-55 | loading fails exactly when `data/public_key.pem` is missing, with a key-not-found error naming it |
| FieldCipher.LoadPrivateKey | encrypt_decrypt.py:30-42 | loading fails exactly when `data/private_key.pem` is missing, with a key-not-found error naming it |
| FieldCipher.OaepEncrypt | encrypt_decrypt.py:62-69 | OAEP encryption refuses exactly the messages longer than 190 bytes (RFC 8017, section 7.1.1) |
| FieldCipher.OaepDecrypt | encrypt_decrypt.py:77-84 | a ciphertext that is not 256 bytes long is rejected, and every failure is a decryption error (RFC 8017, section 7.1.2) |
| FieldCipher.EncryptData | encrypt_decrypt.py:57-70 | encryption succeeds exactly when the public key file exists and the UTF-8 text fits OAEP; the result is even-length lowercase hex |
| FieldCipher.DecryptData | encrypt_decrypt.py:72-85 | a missing private key and text that is not hex are reported as such, before any decryption |
| FieldCipher.EncryptedLength | encrypt_decrypt.py:57-70 | every field ciphertext is 512 hex characters, whatever its plaintext |
| FieldCipher.RoundTrip | encrypt_decrypt.py:57-85 | under a matching key pair, decrypting what was encrypted gives the plaintext back, for every seed and every text that fits, the empty text included |
| FieldCipher.KeyMismatchFails | encrypt_decrypt.py:72-85 | a ciphertext made under one key pair fails to decrypt under an unrelated private key: an error, never a value |
| AuditLog.NewEntry | log.py:34-44 | the new row is 7 fields: the number, the date, the time, then four ciphertexts; it exists exactly when the key exists and the four texts fit |
| AuditLog.DecryptLogRow | log.py:51-67 | a row of another width is returned unchanged; a 7-field row succeeds exactly when its four encrypted fields decrypt, and then keeps its first three fields and has the other four decrypted; a failure is one of the four fields' errors |
| AuditLog.DecryptLogRowFirstError | log.py:58-66 | the error of a failing row is that of the first of the four encrypted fields, left to right, that fails to decrypt |
| AuditLog.LogFile.NextLogNumber | log.py:19-28 | the next number is 1 for a missing file and otherwise one more than the number of rows |
| AuditLog.LogFile.LogActivity | log.py:30-49 | the file gains exactly one row, numbered `NextLogNumber()`, and keeps every earlier row; a file numbered 1..n stays numbered 1..n+1 |
| AuditLog.LogFile.LogSuspiciousActivity | log.py:114-118 | the same append with the flag "Yes" |
| AuditLog.LogFile.DecryptLogFile | log.py:69-82 | a missing file reads as []; otherwise one decrypted row per stored row in file order, or the first row's error when some row fails |
| AuditLog.DecryptsToUnique | log.py:69-82 | a stored file decrypts to at most one list of rows |
| AuditLog.FirstFailingRowUnique | log.py:79-81 | at most one row is the first to fail decryption |
| AuditLog.LogFile.GetSuspiciousLogs | log.py:106-112 | a missing file gives []; when every row decrypts the result is exactly the flagged rows of the decrypted file, and a short decrypted row is an index error; otherwise it is the error of the first row that fails to decrypt |
| AuditLog.Suspicious | log.py:111 | the filter succeeds exactly when every row has at least 7 fields, and never grows the list |
| AuditLog.SuspiciousSelects | log.py:111 | a row is kept exactly when it is in the log and its flag is "yes" ignoring case |
| AuditLog.SuspiciousConcat | log.py:110-112 | filtering distributes over concatenation, so the kept rows stay in file order |
| AuditLog.NewEntryDecrypts | log.py:34-67 | an entry written under a matching key pair reads back with the original user, description, details and flag |
| AuditLog.FlaggedEntryIsSelected | log.py:111-118 | an entry flagged "Yes" is selected and one flagged "No" is not |
| AuditLog.WidthEmptyRow | log.py:92-94 | a row without fields leaves the computed column widths valid |
| AuditLog.WidthStep | log.py:92-94 | one step of the width loop keeps each width equal to the widest header or field of its column |
| AuditLog.ColumnWidths | log.py:91-94 | for rows of at most 7 fields, each width is the largest of the header and every field in that column; a longer row fails |
| AuditLog.RenderedRowsAlign | log.py:97-104 | rows whose fields fit the widths render to lines of equal length, so the columns line up |
| AuditLog.SameShapeJoin | log.py:97 | parts of equal lengths join to lines of equal length |
| AuditLog.DisplayLogs | log.py:84-104 | with 7-field rows it prints the header, a divider as long as the header and one line per row, all the same length; it prints nothing exactly when some row has more than 7 fields (IndexError in the width loop); otherwise a shorter row stops it after the header, the divider and the rendered rows before the first short row |
| Backup.Split | backup.py:50 | splitting on '/' gives at least one part, none containing '/' |
| Backup.JoinSplit | backup.py:50 | joining the parts with '/' gives the path back |
| Backup.SplitConcat | backup.py:50 | the parts of `a/b` are the parts of `a` followed by the parts of `b` |
| Backup.Basename | backup.py:17 | a base name contains no '/' |
| Backup.BasenameOfChild | backup.py:29 | the base name of `dir/name` is `name` |
| Backup.PathJoin | backup.py:18 | joining onto an absolute path gives that path |
| Backup.PathJoinNames | backup.py:42 | joining two plain names puts one '/' between them |
| Backup.Abspath | backup.py:50-51 | an absolute path resolved in a normalised directory is normalised |
| Backup.AbspathEndsWithBasename | backup.py:50 | a path whose base name is a plain name resolves to a path ending in that name |
| Backup.AbspathOfChild | backup.py:50-51 | `d` and `d/n` for plain names resolve below the working directory |
| Backup.BackupFileName | backup.py:15-18 | the archive name is a plain name |
| Backup.BackupNamesDistinct | backup.py:15-18 | backups taken at different seconds get different archive names |
| Backup.ArchivedLogsExactly | backup.py:24-29 | a log member is archived exactly when its file exists, under its base name, with its content |
| Backup.SkippedLogsExactly | backup.py:27-31 | a "not found, skipping" notice is printed exactly for each missing log file |
| Backup.ArchivedLogNames | backup.py:25-29 | every log member carries one of the three log base names |
| Backup.LogFileBasenames | backup.py:25 | the three log paths have the base names the restore looks for |
| Backup.Names | backup.py:47 | the zip library keeps the plain components of a member name and drops empty, "." and ".." components |
| Backup.ExtractStaysInside | backup.py:47 | extraction never writes outside the target directory, whatever the member names are |
| Backup.ExtractPlainNames | backup.py:47 | members with plain names extract without error, each to `dir/name`, leaving every other file alone |
| Backup.ExtractBackup | backup.py:20-47 | extracting a backup puts the database member at `data/<base>` unchanged |
| Backup.Relocated | backup.py:58 | after a move the destination holds the source's content, the source is gone, and nothing else changes |
| Backup.FirstAllowed | backup.py:55-64 | the attempt that succeeds is the first of the three not refused, and 3 when all are refused |
| Backup.CollectLogs | backup.py:27-31 | the log loop adds exactly the archived members and prints exactly the skip notices |
| Backup.Disk.Backup | backup.py:8-33 | the archive holds the database under its base name, then the existing logs, and nothing else changes; a missing database leaves an empty archive and fails |
| Backup.MoveNotices | backup.py:55-64 | the failure message is printed exactly when the extracted database exists and all three attempts are refused |
| Backup.Disk.MoveWithRetry | backup.py:55-64 | a missing source changes nothing and prints nothing; otherwise one retry notice per refused attempt, then a move, or after three refusals a failure message and no change; the notices are `MoveNotices` |
| Backup.InPlaceNoticesExactly | backup.py:69-84 | a "same for `name`" notice is printed exactly for each log name whose extracted file exists |
| Backup.ReportLogs | backup.py:69-84 | the log loop prints exactly `InPlaceNotices`, in the order of the three log names |
| Backup.ParentNameIsDirectory | backup.py:42-45 | when `backups/` exists, typing ".." names the working directory, which exists and is a directory |
| Backup.Disk.RestoreEntries | backup.py:45-91 | extraction and the moves leave exactly `RestoredFiles`; when extraction succeeds the notices are the move notices (or the "no move needed" notice), then the log notices, then "restored" and "restarting"; a failed extraction prints nothing |
| Backup.Disk.Restore | backup.py:36-94 | a name that is neither a file nor a directory changes nothing and prints only "not found"; a directory or a file that is not an archive changes nothing and prints nothing; otherwise the files become exactly `RestoredFiles`, and a successful extraction prints the full `RestoreNotices` sequence and ends in a restart |
| Backup.RestoreRecoversDatabase | backup.py:44-66 | restoring an archive of the database puts the archived content back at the database path |
| Backup.BackupThenRestore | backup.py:8-94 | backup then restore brings the database back to its content at backup time, however it was changed in between |
| Scan.First | user.py:310-314 | the scan gives the first row whose field decrypts and matches, with every earlier row decrypting and failing the test; or none, with every row doing so; or the first row's decryption error |
| Scan.FirstSkips | user.py:310-314 | rows that decrypt and fail the test are skipped: the result is the result on the rest of the table, shifted |
| Scan.ScanRows | user.py:310-314 | the `for row in rows: ... break` loop computes exactly `First` |
| Scan.EmptyNeverDecrypts | user.py:347-353 | an empty ciphertext never decrypts, so a ciphertext the scan finds is non-empty and counts as found |
| Users.FirstOutside | user.py:34-39 | a character it reports is in the text and outside the whitelist; none is reported exactly when every character is allowed |
| Users.FirstOutsideIsFirst | user.py:34-39 | the reported character is the leftmost one outside the whitelist: every character before it is allowed |
| Users.UsernameVerdict | user.py:11-42 | a username is accepted exactly when it has 8 to 10 characters, starts with a letter or '_', and uses only letters, digits, '_', '.' and '''; a bad length is reported first and the disallowed character reported is in the name |
| Users.SpecialIsWhitelistWithoutAlnum | user.py:50-92 | the required special characters are exactly the whitelist without letters and digits |
| Users.PasswordVerdict | user.py:45-100 | a password is accepted exactly when it has 12 to 30 whitelisted characters with a small letter, a capital, a digit and a special character; a bad length is reported first |
| Users.FindSystemAdmin | user.py:519-532 | the lookup finds an administrator exactly when the first username match has the role `system_admin` |
| Users.WithoutKeepsWellFormed | user.py:542-543 | removing one row keeps the table well formed and the other rows in order |
| Users.SetPasswordKeepsWellFormed | user.py:610-611 | replacing one stored password hash keeps the table well formed |
| Users.DeleteByUsernameKeepsOthers | user.py:354-355 | deleting by ciphertext keeps exactly the rows holding another ciphertext |
| Users.DeleteByUsernameRemovesOne | user.py:347-356 | with distinct usernames, deleting by the ciphertext of row i removes exactly row i |
| Users.KeepAll | user.py:354-355 | deleting a ciphertext no row holds changes nothing |
| Users.UserTable.ValidateLogin | user.py:103-131 | login gives the id and decrypted role of the first row whose name decrypts to the username and whose hash matches; a failed query, an unreadable name or role, or no match gives None |
| Users.UserTable.UsernameExists | user.py:133-151 | the result is that of the first stored name equal to the username ignoring case: true when one is found, a decryption error when some earlier name fails to decrypt, false when none matches; a failed query says false |
| Users.UserTable.DeleteUser | user.py:331-363 | the first row whose name decrypts to the username is deleted and nothing else; no match changes nothing; a decryption error changes nothing |
| Users.UserTable.UpdateUser | user.py:301-328 | the first matching row gets the encrypted new name and the new first and last name as typed; no match, a taken name or an error changes nothing |
| Users.UserTable.UpdateAdmin | user.py:439-494 | only the first matching row, and only if it is a `system_admin`, gets the encrypted new name and names; every other case changes nothing and is reported |
| Users.UserTable.DeleteAdmin | user.py:510-557 | only the first matching row, only if it is a `system_admin` and the answer is "y", is deleted |
| Users.UserTable.ResetAdminPassword | user.py:573-627 | only the first matching row, only if it is a `system_admin`, gets the hash of the new password |
| Users.UserTable.LocateSystemAdmin | user.py:582-595 | the lookup's outcome and index agree with `FindSystemAdmin` |
| Members.ShortYear | member.py:22 | the short year is one or two digits |
| Members.ShortYearIsYearModHundred | member.py:21-22 | for years from 10 on, the short year is the year modulo 100 written with two digits |
| Members.GenerateMembershipId | member.py:17-28 | the id is all digits: the short year, the seven random digits in order, then the sum of those digits modulo 10 |
| Members.GeneratedIdIsWellFormed | member.py:17-28 | a generated id is ten digits whose last digit is the checksum of the first nine |
| Members.DigitSumUpdate | member.py:26 | changing one digit changes the digit sum by the difference of the two digits |
| Members.CheckDigitDetectsSingleError | member.py:26-27 | changing any single digit of a valid membership number makes it invalid |
| Members.IndexOf | member.py:35 | the position of the first occurrence of a character, and none exactly when it does not occur |
| Members.LastIndexOf | member.py:35 | the position of the last occurrence of a character, and none exactly when it does not occur |
| Members.ValidateEmailSound | member.py:31-36 | an accepted address is one or more local characters, '@', one or more domain characters, '.', two or more characters each a letter or a vertical bar |
| Members.ValidateEmailComplete | member.py:31-36 | every address of that shape is accepted |
| Members.ValidateEmailDecidesShape | member.py:31-36 | the email check accepts exactly the addresses of that shape |
| Members.BarInTopLevelLabel | member.py:35 | the top-level class lists a vertical bar between its two letter ranges, so an address ending in ".c" plus a bar is accepted |
| Members.ValidatePhone | member.py:39-45 | a phone number is accepted exactly when it is "+31-6-" followed by eight digits |
| Members.PromptedPhone | member.py:139-144 | the typed part is accepted exactly when it is eight digits |
| Members.ZipCodeForm | member.py:112 | the postal codes accepted are exactly four digits then two capitals |
| Members.AgeOfDecimal | member.py:84-86 | the age check accepts `str(age)` exactly for 1 to 120, and a stored age passes the check again |
| Members.DecryptMember | member.py:186-194 | a member row reads exactly when all nine of its fields decrypt |
| Members.SearchIgnoresAgeGenderWeight | member.py:196-201 | the search term is never compared with age, gender or weight |
| Members.Hit | member.py:184-215 | each row contributes at most one member to the result |
| Members.GatherConcat | member.py:184-215 | collecting over two tables is collecting over each, in order |
| Members.GatherHas | member.py:184-215 | a value is collected exactly when some row contributes it |
| Members.FoundConcat | member.py:184-215 | the results over two tables are the results over each, in table order |
| Members.FoundOne | member.py:184-215 | a single row contributes its member exactly when it decrypts and matches the term |
| Members.HitExactly | member.py:185-212 | a row contributes a member exactly when the row decrypts to it and it matches the term |
| Members.FoundExactly | member.py:184-215 | a member is found exactly when some row decrypts to it and it matches; rows that do not decrypt are skipped |
| Members.SearchMembers | member.py:169-215 | the search loop returns exactly the found members for the stripped term, in table order |
| Members.DeleteByIdKeepsOthers | member.py:363-365 | deleting by id keeps exactly the rows with another id |
| Members.DeleteByIdKeepsAll | member.py:363-365 | deleting an id no row has changes nothing |
| Members.DeleteByIdRemovesOne | member.py:357-367 | with distinct ids, deleting the id of row i removes exactly row i |
| Members.EncryptDetails | member.py:320-331 | the update's eight values encrypt exactly when the key exists and all of them fit |
| Members.RewrittenRowDecrypts | member.py:320-332 | an updated row reads back as the details entered, with the age as `str(age)` and the member's own membership number |
| Members.MemberTable.DeleteMember | member.py:346-370 | the first row with the membership number is deleted and 1 is returned; no match returns 0 and changes nothing; a decryption error changes nothing; the count is always the number of rows removed |
| Members.MemberTable.UpdateMember | member.py:228-333 | only the first row with the membership number gets the eight new encrypted values; id, number and registration date are kept; no match or an error changes nothing |
| Menu.MainMenu | um_members.py:31-95 | the options shown are the role's menu and the choice is the input stripped and lowercased |
| Menu.Numbers | um_members.py:87-90 | the option numbers listed, one per option in order |
| Menu.ExitIsLast | um_members.py:84-85 | every role's menu ends with "Exit" |
| Menu.SuperAdminMenu | um_members.py:43-85 | the super administrator sees options 1 to 16 and 18, and never "Update password" |
| Menu.FirstBranchRespectsPolicy | um_members.py:153-198 | when every branch's guard matches the policy, the chosen action is allowed for the role |
| Menu.DispatchRespectsPolicy | um_members.py:153-198 | no choice lets a role perform an action its role does not permit, and a super administrator never reaches the password change |
| Menu.FirstBranchAt | um_members.py:153-198 | the first selecting branch decides if its guard admits the role; otherwise the later branches do |
| Menu.BranchKeysDistinct | um_members.py:155-196 | no two branches share a letter or a number |
| Menu.BranchReachable | um_members.py:155-196 | each branch is reached by its letter and by its number for every role its guard admits |
| Menu.FirstBranchNone | um_members.py:197-198 | with no admitting branch selected, the choice is invalid |
| Menu.MenuBranchesAlign | um_members.py:43-196 | each menu entry's letter and number are those of the dispatch branch for it |
| Menu.AdminGuards | um_members.py:155-196 | the super administrator passes every guard, and a system administrator passes every guard from option 6 on |
| Menu.AdminEntryBranch | um_members.py:43-196 | every entry of an administrator's menu has an admitting branch with its letter and number |
| Menu.AdminMenuDispatches | um_members.py:43-196 | for an administrator, every listed entry is a valid choice, and its letter in either case and its number do the same thing |
| Menu.ConsultantDeleteMemberRefused | um_members.py:69-75 | a consultant is shown "Delete member", but both of its keys are answered "Invalid choice" |
| Menu.FailureEvents | um_members.py:115 | one "Failed login attempt" write per failed round |
| Menu.LoginPrompt | um_members.py:98-128 | at most `max_attempts` rounds, and none exactly when the limit is 0; a login carries the id and role `validate_login` returned in the last round, after earlier rounds that all failed without an answer "n"; a user exit is a failed round answered "n"; giving up comes after exactly `max_attempts` failed rounds; the audit writes are one suspicious entry per failed round, numbered from 1, then the closing write |
| Menu.SummaryLines | um_members.py:150-151 | one printed line per flagged entry, in order |
| Menu.SuspiciousSummary | um_members.py:146-151 | only administrators see the summary; for them, when the log decrypts it is empty exactly when no entry is flagged and otherwise the banner followed by one line per flagged entry, and when some row fails it is the first failing row's error |
| Seeding.NextId | database.py:101-113 | the inserted row's key is positive and above every key in use |
| Seeding.EncryptAccount | database.py:94-112 | the new row exists exactly when the key exists and all five texts fit; it carries the given id and the password hash unencrypted |
| Seeding.SeedFieldsFit | database.py:94-98 | the seeded names, role and date are short enough to encrypt |
| Seeding.Utf8Bound | database.py:94-98 | a text of up to 19 characters fits one OAEP block |
| Seeding.SeedRowDecrypts | database.py:93-112 | under a matching key pair the seeded row reads back as "super_admin", "Super", "Admin", role "super_admin", the registration time, and the password hash |
| Seeding.FirstMatchAfterAppend | database.py:83-91 | after the super administrator is added, the scan finds it as the last row |
| Seeding.SeedCredentialsFailValidators | database.py:77 | the seeded name and password fail the length checks the prompts apply |
| Seeding.AppendKeepsWellFormed | database.py:101-113 | a row with a fresh id and a fresh name keeps the users table well formed |
| Seeding.SeedAddsAtMostOne | database.py:69-120 | seeding keeps the users table well formed and changes it only by appending the seeded row, and only when the scan found no super administrator |
| Seeding.SeedIdempotent | database.py:69-120 | once a seeding has not failed, a second one, whatever its randomness and clock, reports the account present and leaves the table unchanged |
| Seeding.AddSuperAdmin | database.py:69-120 | the outcome and the new table are those of `Seed`: an existing super administrator, a scan error or an encryption error changes nothing; otherwise exactly one row is appended, unless its ciphertext is already stored |
| Seeding.SeedTwice | database.py:69-120 | seeding is idempotent: after a call that did not fail, a second call finds the account and adds nothing |

## Left out

- Console output is left out, apart from the notices of `backup.py` and the lines of
  `display_logs` and the suspicious summary. Prompt messages and error prints are not modelled.
- The prompts' input loops are left out. Each modelled operation starts from the values those
  loops accept: `UpdateUser`, `UpdateAdmin`, `DeleteAdmin`, `ResetAdminPassword` and
  `UpdateMember` take their inputs as parameters.
- `ResetAdminPassword` requires a valid password, because the prompt loops until it gets one.
- The audit-log writes that the user and member prompts make are left out. `LoginPrompt`
  returns its writes as a list of events. Their failures are left out too: a username over
  190 UTF-8 bytes, or a missing public key (`KeyNotFound`), makes the write raise and ends the
  prompt in the source, which the event list cannot show.
- `Users.UserTable.UsernameExists` and the search lowercase ASCII letters only. Python's
  `lower`, `strip`, `isdigit`, `isalpha` and `\d` also cover other Unicode characters.
- The email and phone patterns are modelled without the newline `$` also matches before.
- SQLite itself is left out: table creation, connections, SQL text, and `LIKE` search.
  Database errors are modelled only where the code catches them and turns them into a value:
  the failed `SELECT` of `validate_login` and `username_exists`, and the UNIQUE constraint on
  usernames.
- `Users.UserTable.ValidateLogin`, `DeleteUser` and the other lookups treat a found row as
  found. The source tests the row's id or ciphertext for truth. The two agree because keys are
  positive and a ciphertext that decrypts is never empty.
- `Members.MemberTable.DeleteMember` and `UpdateMember` assume distinct ids, as SQLite's
  primary key guarantees.
- RSA key generation (`generate_keys`) and PEM parsing are left out. The key files are a map
  from path to bytes, and the RSA primitive is a pair of function values with a correctness
  hypothesis instead of modular arithmetic.
- `hash_password` lives in `utils.py`, which is not part of this model. It is a function
  parameter.
- `datetime.now()` and `random.randint` are parameters: a `DateTime` value, and the seven random
  digits or one OAEP seed per call. `log_activity` reads the clock twice, once for the date and
  once for the time, so the two can straddle midnight; `AuditLog.NewEntry` takes one `DateTime`
  for both.
- The sleeps between move attempts and before the restart are left out. `os.execv` becomes the
  outcome `Restart`.
- Zip compression and CSV quoting are left out. An archive is its ordered list of members, and
  a log row is its list of fields.
- `Backup.ExtractAll` treats a member whose name has no component left after sanitising as an
  error. The zip library's exact behaviour for such names is not modelled.
- The weight is kept as the text the float prints as. Float parsing and the check that the
  weight is positive are left out.
- Also left out:
  - `add_member` and `add_member_prompt`, except their phone, postal-code and age checks
  - `search_member`, the SQL `LIKE` search
  - `list_users`, `update_password`, `reset_user_password` and `add_user_prompt`
  - `create_tables` and `create_connection`
  - the menu banner layout
- The audit log assumes a single writer. Two processes appending at once could assign the same
  number, and that is not modelled.
- `Backup.Disk.Restore`: ".." in the typed name is resolved lexically, as `os.path.abspath`
  does, while `os.path.exists` resolves it through the directories that really exist. Two
  inputs differ. Typing ".." when no `backups/` directory exists prints "Backup file not found."
  in the source, but gives `IsADirectory` in the model. Typing "nope/../x.zip" when
  `backups/x.zip` is an archive and `backups/nope` does not exist is also "not found" in the
  source, but the model restores `x.zip`.
- `Backup.Disk.Restore`: an empty directory, one with no file below it that is not the working
  directory or one of its ancestors, is not represented by the file map. Naming one gives
  `NotFound` and "Backup file not found." in the model, where the source raises
  `IsADirectoryError`.
- The PermissionError message text printed on a refused move is not modelled. Only the fact of
  a retry notice is.
