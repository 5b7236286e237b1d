/** `um_members.py`: the role-dependent main menu, the guard chain that turns a (choice, role)
    pair into an action, the bounded login loop, and the suspicious-activity summary shown after
    an administrator logs in. */
module Menu {
  import opened Wrappers
  import opened Text
  import opened FieldCipher
  import opened AuditLog

  const SuperAdmin := "super_admin"
  const SystemAdmin := "system_admin"
  const Consultant := "consultant"
  const MemberRole := "member"

  // ---------------------------------------------------------------------------------------
  // The menu
  // ---------------------------------------------------------------------------------------

  /** One printed entry: description, letter key ("A/a"), number. */
  datatype MenuOption = MenuOption(description: string, key: string, number: string)

  const SuperAdminOptions: seq<MenuOption> := [
    MenuOption("Add system admin", "A/a", "1"),
    MenuOption("Add consultant", "C/c", "2"),
    MenuOption("Update system admin", "M/m", "3"),
    MenuOption("Delete system admin", "X/x", "4"),
    MenuOption("Reset system admin password", "Z/z", "5")]

  const StaffOptions: seq<MenuOption> := [
    MenuOption("View users and roles", "V/v", "6"),
    MenuOption("Update consultant account", "U/u", "7"),
    MenuOption("Delete consultant account", "E/e", "8"),
    MenuOption("Reset consultant password", "R/r", "9"),
    MenuOption("Create backup", "B/b", "10"),
    MenuOption("Restore backup", "H/h", "11"),
    MenuOption("View logs", "L/l", "12"),
    MenuOption("Register new member", "N/n", "13"),
    MenuOption("Search member", "S/s", "14"),
    MenuOption("Update member", "P/p", "15"),
    MenuOption("Delete member", "D/d", "16")]

  const ConsultantOptions: seq<MenuOption> := [
    MenuOption("Register new member", "N/n", "13"),
    MenuOption("Search member", "S/s", "14"),
    MenuOption("Update member", "P/p", "15"),
    MenuOption("Delete member", "D/d", "16")]

  const ProfileOption := MenuOption("Profile management (if allowed)", "", "")
  const UpdatePasswordOption := MenuOption("Update password", "W/w", "17")
  const ExitOption := MenuOption("Exit", "Q/q", "18")

  /** The entries `main_menu` lists for `role`, in order. */
  function MenuFor(role: string): seq<MenuOption>
  {
    (if role == SuperAdmin then SuperAdminOptions else []) +
    (if role == SuperAdmin || role == SystemAdmin then StaffOptions else []) +
    (if role == Consultant then ConsultantOptions else []) +
    (if role == MemberRole then [ProfileOption] else []) +
    (if role != SuperAdmin then [UpdatePasswordOption] else []) +
    [ExitOption]
  }

  /** `main_menu`: build the option list block by block, then read the choice, stripped and
      lowercased. */
  method MainMenu(role: string, typed: string) returns (options: seq<MenuOption>, choice: string)
    ensures options == MenuFor(role)
    ensures choice == Lower(Strip(typed))
  {
    var superBlock := if role == SuperAdmin then SuperAdminOptions else [];
    var staffBlock := if role == SuperAdmin || role == SystemAdmin then StaffOptions else [];
    var consultantBlock := if role == Consultant then ConsultantOptions else [];
    var memberBlock := if role == MemberRole then [ProfileOption] else [];
    var passwordBlock := if role != SuperAdmin then [UpdatePasswordOption] else [];
    options := [];
    if role == SuperAdmin {
      options := options + SuperAdminOptions;
    }
    assert options == superBlock;
    if role == SuperAdmin || role == SystemAdmin {
      options := options + StaffOptions;
    }
    assert options == superBlock + staffBlock;
    if role == Consultant {
      options := options + ConsultantOptions;
    }
    assert options == superBlock + staffBlock + consultantBlock;
    if role == MemberRole {
      options := options + [ProfileOption];
    }
    assert options == superBlock + staffBlock + consultantBlock + memberBlock;
    if role != SuperAdmin {
      options := options + [UpdatePasswordOption];
    }
    assert options == superBlock + staffBlock + consultantBlock + memberBlock + passwordBlock;
    options := options + [ExitOption];
    choice := Lower(Strip(typed));
  }

  function Numbers(options: seq<MenuOption>): (r: seq<string>)
    ensures |r| == |options| && forall i :: 0 <= i < |options| ==> r[i] == options[i].number
  {
    seq(|options|, i requires 0 <= i < |options| => options[i].number)
  }

  lemma NumbersAppend(a: seq<MenuOption>, b: seq<MenuOption>)
    ensures Numbers(a + b) == Numbers(a) + Numbers(b)
  {
  }

  /** Exit is the last entry for every role. */
  lemma ExitIsLast(role: string)
    ensures MenuFor(role) != [] && MenuFor(role)[|MenuFor(role)| - 1] == ExitOption
  {
  }

  /** The super administrator is shown entries 1 to 16 and Exit, and no "Update password". */
  lemma SuperAdminMenu()
    ensures Numbers(MenuFor(SuperAdmin)) ==
              ["1", "2", "3", "4", "5", "6", "7", "8", "9", "10", "11", "12", "13", "14", "15", "16", "18"]
    ensures UpdatePasswordOption !in MenuFor(SuperAdmin)
  {
    assert MenuFor(SuperAdmin) == SuperAdminOptions + StaffOptions + [ExitOption];
    NumbersAppend(SuperAdminOptions, StaffOptions);
    NumbersAppend(SuperAdminOptions + StaffOptions, [ExitOption]);
    assert Numbers(SuperAdminOptions) == ["1", "2", "3", "4", "5"];
    assert Numbers(StaffOptions) == ["6", "7", "8", "9", "10", "11", "12", "13", "14", "15", "16"];
    assert UpdatePasswordOption !in SuperAdminOptions;
    assert UpdatePasswordOption !in StaffOptions;
    SuperAdminNumbersSplit();
  }

  lemma SuperAdminNumbersSplit()
    ensures ["1", "2", "3", "4", "5", "6", "7", "8", "9", "10", "11", "12", "13", "14", "15", "16", "18"] ==
            ["1", "2", "3", "4", "5"] + ["6", "7", "8", "9", "10", "11", "12", "13", "14", "15", "16"] + ["18"]
  {
  }

  // ---------------------------------------------------------------------------------------
  // Dispatch
  // ---------------------------------------------------------------------------------------

  datatype Action =
    | AddSystemAdmin | AddConsultant | UpdateSystemAdmin | DeleteSystemAdmin | ResetSystemAdminPassword
    | ViewUsers | UpdateConsultant | DeleteConsultant | ResetConsultantPassword
    | CreateBackup | RestoreBackup | ViewLogs
    | RegisterMember | SearchMember | UpdateMember | DeleteMember
    | UpdatePassword | PasswordChangeRefused | Exit | InvalidChoice

  /** `and role in [...]`, or no role condition at all. */
  datatype Guard = AnyRole | OneOf(roles: seq<string>)

  predicate Permits(g: Guard, role: string)
  {
    g.AnyRole? || role in g.roles
  }

  /** One `elif choice in [letter, number] and <guard>:` branch of `main`. */
  datatype Branch = Branch(letter: string, number: string, guard: Guard, action: Action)

  const SuperOnly := OneOf([SuperAdmin])
  const Admins := OneOf([SuperAdmin, SystemAdmin])
  const Staff := OneOf([SuperAdmin, SystemAdmin, Consultant])

  /** The guard chain of `main`, in source order. */
  const Branches: seq<Branch> := [
    Branch("a", "1", SuperOnly, AddSystemAdmin),
    Branch("c", "2", SuperOnly, AddConsultant),
    Branch("m", "3", SuperOnly, UpdateSystemAdmin),
    Branch("x", "4", SuperOnly, DeleteSystemAdmin),
    Branch("z", "5", SuperOnly, ResetSystemAdminPassword),
    Branch("v", "6", Admins, ViewUsers),
    Branch("u", "7", Admins, UpdateConsultant),
    Branch("e", "8", Admins, DeleteConsultant),
    Branch("r", "9", Admins, ResetConsultantPassword),
    Branch("b", "10", Admins, CreateBackup),
    Branch("h", "11", Admins, RestoreBackup),
    Branch("l", "12", Admins, ViewLogs),
    Branch("n", "13", Staff, RegisterMember),
    Branch("s", "14", Staff, SearchMember),
    Branch("p", "15", Staff, UpdateMember),
    Branch("d", "16", Admins, DeleteMember),
    Branch("w", "17", AnyRole, UpdatePassword),
    Branch("q", "18", AnyRole, Exit)]

  /** The branch's body: the password branch refuses the super administrator inside. */
  function Perform(a: Action, role: string): Action
  {
    if a == UpdatePassword && role == SuperAdmin then PasswordChangeRefused else a
  }

  predicate Selects(b: Branch, choice: string)
  {
    choice == b.letter || choice == b.number
  }

  /** The first branch whose choice and guard both hold; `else` when none does. */
  function FirstBranch(bs: seq<Branch>, choice: string, role: string): Action
  {
    if bs == [] then InvalidChoice
    else if Selects(bs[0], choice) && Permits(bs[0].guard, role) then Perform(bs[0].action, role)
    else FirstBranch(bs[1..], choice, role)
  }

  /** The action `main` takes for a (lowercased) choice and the logged-in role. */
  function Dispatch(choice: string, role: string): Action
  {
    FirstBranch(Branches, choice, role)
  }

  /** The access policy, stated per action: administrator accounts are managed by the super
      administrator only; users, backups, logs and deleting members by either administrator;
      registering, searching and updating members by staff including consultants; only a user
      other than the super administrator may change their own password. */
  predicate MayPerform(role: string, a: Action)
  {
    match a
    case AddSystemAdmin | AddConsultant | UpdateSystemAdmin | DeleteSystemAdmin | ResetSystemAdminPassword =>
      role == SuperAdmin
    case ViewUsers | UpdateConsultant | DeleteConsultant | ResetConsultantPassword
       | CreateBackup | RestoreBackup | ViewLogs | DeleteMember =>
      role == SuperAdmin || role == SystemAdmin
    case RegisterMember | SearchMember | UpdateMember =>
      role == SuperAdmin || role == SystemAdmin || role == Consultant
    case UpdatePassword => role != SuperAdmin
    case PasswordChangeRefused => role == SuperAdmin
    case Exit | InvalidChoice => true
  }

  /** Each branch's guard grants exactly what the policy allows for its action. */
  ghost predicate GuardMatchesPolicy(b: Branch)
  {
    forall role :: Permits(b.guard, role) ==> MayPerform(role, Perform(b.action, role))
  }

  lemma {:induction false} FirstBranchRespectsPolicy(bs: seq<Branch>, choice: string, role: string)
    requires forall i :: 0 <= i < |bs| ==> GuardMatchesPolicy(bs[i])
    ensures MayPerform(role, FirstBranch(bs, choice, role))
  {
    if bs != [] {
      if Selects(bs[0], choice) && Permits(bs[0].guard, role) {
        assert GuardMatchesPolicy(bs[0]);
      } else {
        FirstBranchRespectsPolicy(bs[1..], choice, role);
      }
    }
  }

  /** Whatever is typed, the action reached is one the role may perform. In particular the
      super administrator never reaches the password update. */
  lemma DispatchRespectsPolicy(choice: string, role: string)
    ensures MayPerform(role, Dispatch(choice, role))
    ensures role == SuperAdmin ==> Dispatch(choice, role) != UpdatePassword
  {
    forall i | 0 <= i < |Branches|
      ensures GuardMatchesPolicy(Branches[i])
    {
    }
    FirstBranchRespectsPolicy(Branches, choice, role);
  }

  /** A choice that selects branch `i` and no earlier one reaches branch `i` when its guard
      holds, and falls past it otherwise. */
  lemma {:induction false} FirstBranchAt(bs: seq<Branch>, choice: string, role: string, i: nat)
    requires i < |bs| && Selects(bs[i], choice)
    requires forall j :: 0 <= j < i ==> !Selects(bs[j], choice)
    ensures Permits(bs[i].guard, role) ==> FirstBranch(bs, choice, role) == Perform(bs[i].action, role)
    ensures !Permits(bs[i].guard, role) ==> FirstBranch(bs, choice, role) == FirstBranch(bs[i + 1..], choice, role)
  {
    if i > 0 {
      FirstBranchAt(bs[1..], choice, role, i - 1);
      assert bs[1..][i - 1 + 1..] == bs[i + 1..];
    }
  }

  /** No two branches answer to the same letter. */
  lemma LettersDistinct()
    ensures forall i, j :: 0 <= i < j < |Branches| ==> Branches[i].letter != Branches[j].letter
  {
    forall i, j | 0 <= i < j < |Branches|
      ensures Branches[i].letter != Branches[j].letter
    {
      assert Branches[i].letter[0] != Branches[j].letter[0];
    }
  }

  /** No two branches answer to the same number. */
  lemma NumbersDistinct()
    ensures forall i, j :: 0 <= i < j < |Branches| ==> Branches[i].number != Branches[j].number
  {
  }

  /** Letters start with a lower-case letter and numbers with a digit, so no letter is a number. */
  lemma LettersAreNotNumbers()
    ensures forall i, j :: 0 <= i < |Branches| && 0 <= j < |Branches| ==> Branches[i].letter != Branches[j].number
  {
    assert forall i :: 0 <= i < |Branches| ==> 'a' <= Branches[i].letter[0] <= 'z';
    assert forall j :: 0 <= j < |Branches| ==> '0' <= Branches[j].number[0] <= '9';
  }

  /** No letter or number is shared by two branches. */
  lemma BranchKeysDistinct()
    ensures forall i, j :: 0 <= i < j < |Branches| ==>
              Branches[i].letter != Branches[j].letter && Branches[i].letter != Branches[j].number &&
              Branches[i].number != Branches[j].letter && Branches[i].number != Branches[j].number
  {
    LettersDistinct();
    NumbersDistinct();
    LettersAreNotNumbers();
  }

  /** Each branch is reached by its letter and by its number whenever its guard holds. */
  lemma BranchReachable(i: nat, role: string)
    requires i < |Branches| && Permits(Branches[i].guard, role)
    ensures Dispatch(Branches[i].letter, role) == Perform(Branches[i].action, role)
    ensures Dispatch(Branches[i].number, role) == Perform(Branches[i].action, role)
  {
    BranchKeysDistinct();
    FirstBranchAt(Branches, Branches[i].letter, role, i);
    FirstBranchAt(Branches, Branches[i].number, role, i);
  }

  /** A choice no permitted branch selects reaches `else`. */
  lemma {:induction false} FirstBranchNone(bs: seq<Branch>, choice: string, role: string)
    requires forall j :: 0 <= j < |bs| ==> !(Selects(bs[j], choice) && Permits(bs[j].guard, role))
    ensures FirstBranch(bs, choice, role) == InvalidChoice
  {
    if bs != [] {
      FirstBranchNone(bs[1..], choice, role);
    }
  }

  /** A menu entry and a branch that answer to the same number and the same letter, in either
      case. */
  predicate Agrees(o: MenuOption, b: Branch)
  {
    |o.key| == 3 && o.number == b.number && [o.key[2]] == b.letter && Lower([o.key[0]]) == b.letter
  }

  /** The entries of the administrators' menus line up with the branches of the chain. */
  lemma MenuBranchesAlign()
    ensures forall k :: 0 <= k < 16 ==> Agrees((SuperAdminOptions + StaffOptions)[k], Branches[k])
    ensures Agrees(UpdatePasswordOption, Branches[16]) && Agrees(ExitOption, Branches[17])
  {
  }

  /** The super administrator passes every guard, the system administrator every guard from
      branch 6 on, and no branch ends in `else`. */
  lemma AdminGuards()
    ensures forall i :: 0 <= i < |Branches| ==> Permits(Branches[i].guard, SuperAdmin)
    ensures forall i :: 5 <= i < |Branches| ==> Permits(Branches[i].guard, SystemAdmin)
    ensures forall i :: 0 <= i < |Branches| ==> Branches[i].action != InvalidChoice
  {
  }

  /** The two administrators' menus, block by block. */
  lemma AdminMenus()
    ensures MenuFor(SuperAdmin) == (SuperAdminOptions + StaffOptions) + [ExitOption]
    ensures MenuFor(SystemAdmin) == StaffOptions + [UpdatePasswordOption, ExitOption]
  {
  }

  lemma SuperAdminEntryBranch(k: nat) returns (i: nat)
    requires k < |MenuFor(SuperAdmin)|
    ensures i < |Branches| && Agrees(MenuFor(SuperAdmin)[k], Branches[i])
  {
    AdminMenus();
    MenuBranchesAlign();
    i := if k < 16 then k else 17;
  }

  lemma SystemAdminEntryBranch(k: nat) returns (i: nat)
    requires k < |MenuFor(SystemAdmin)|
    ensures 5 <= i < |Branches| && Agrees(MenuFor(SystemAdmin)[k], Branches[i])
  {
    AdminMenus();
    MenuBranchesAlign();
    var m := MenuFor(SystemAdmin);
    if k < 11 {
      assert m[k] == (SuperAdminOptions + StaffOptions)[k + 5];
    }
    i := k + 5;
  }

  /** The menu entry at position `k` of an administrator's menu and the branch it lines up with. */
  lemma AdminEntryBranch(role: string, k: nat) returns (i: nat)
    requires role == SuperAdmin || role == SystemAdmin
    requires k < |MenuFor(role)|
    ensures i < |Branches| && Agrees(MenuFor(role)[k], Branches[i]) && Permits(Branches[i].guard, role)
  {
    AdminGuards();
    if role == SuperAdmin {
      i := SuperAdminEntryBranch(k);
    } else {
      i := SystemAdminEntryBranch(k);
    }
  }

  /** For both administrators, every entry of the menu reaches an action by its number, and
      by its letter typed in either case. */
  lemma AdminMenuDispatches(role: string, o: MenuOption)
    requires role == SuperAdmin || role == SystemAdmin
    requires o in MenuFor(role)
    ensures |o.key| == 3
    ensures Dispatch(o.number, role) != InvalidChoice
    ensures Dispatch([o.key[2]], role) == Dispatch(o.number, role)
    ensures Dispatch(Lower([o.key[0]]), role) == Dispatch(o.number, role)
  {
    var m := MenuFor(role);
    var k :| 0 <= k < |m| && m[k] == o;
    var i := AdminEntryBranch(role, k);
    AdminGuards();
    BranchReachable(i, role);
  }

  /** Consultants are shown "Delete member", but its letter and number both fall through to
      "Invalid choice". */
  lemma ConsultantDeleteMemberRefused()
    ensures MenuOption("Delete member", "D/d", "16") in MenuFor(Consultant)
    ensures Dispatch("16", Consultant) == InvalidChoice
    ensures Dispatch("d", Consultant) == InvalidChoice
  {
    assert MenuFor(Consultant)[3] == MenuOption("Delete member", "D/d", "16");
    BranchKeysDistinct();
    assert Branches[15].number == "16" && Branches[15].letter == "d";
    forall j | 0 <= j < |Branches|
      ensures !(Selects(Branches[j], "16") && Permits(Branches[j].guard, Consultant))
      ensures !(Selects(Branches[j], "d") && Permits(Branches[j].guard, Consultant))
    {
      if j != 15 {
        assert Branches[j].letter != "d" && Branches[j].number != "16" && Branches[j].letter != "16" && Branches[j].number != "d";
      }
    }
    FirstBranchNone(Branches, "16", Consultant);
    FirstBranchNone(Branches, "d", Consultant);
  }

  // ---------------------------------------------------------------------------------------
  // Login
  // ---------------------------------------------------------------------------------------

  /** What the user types in one round: username, password, and the answer to "try again?". */
  datatype Attempt = Attempt(username: string, password: string, retry: string)

  /** The answer to "try again?", lowercased, is "n". */
  predicate SaysNo(a: Attempt)
  {
    Lower(a.retry) == "n"
  }

  /** An audit-log write: `log_activity` or `log_suspicious_activity`. */
  datatype LogEvent =
    | Activity(username: string, description: string)
    | SuspiciousEvent(username: string, description: string, info: string)

  /** What `validate_login` returns for a valid login: the user's id and role. */
  datatype Session = Session(userId: nat, role: string)

  /** How the login prompt ends. `NoAttempts`: a limit of 0 returns None without asking. */
  datatype LoginOutcome = LoggedIn(userId: nat, role: string) | UserExited | TooManyAttempts | NoAttempts

  /** The writes the prompt makes, by the round's username. */
  function FailedAttemptEvent(username: string, attempt: nat): LogEvent
  {
    SuspiciousEvent(username, "Failed login attempt", "Attempt " + Decimal(attempt))
  }

  function LoggedInEvent(username: string): LogEvent
  {
    Activity(username, "Logged in")
  }

  function ExitEvent(username: string): LogEvent
  {
    Activity(username, "User chose to exit after failed login attempts")
  }

  function TooManyEvent(username: string, maxAttempts: nat): LogEvent
  {
    SuspiciousEvent(username, "Too many failed login attempts", "Total attempts: " + Decimal(maxAttempts))
  }

  function FailureEvents(inputs: nat -> Attempt, n: nat): (r: seq<LogEvent>)
    ensures |r| == n
  {
    seq(n, j requires 0 <= j < n => FailedAttemptEvent(inputs(j).username, j + 1))
  }

  /** One more failed round adds its suspicious entry at the end. */
  lemma FailureEventsStep(inputs: nat -> Attempt, n: nat)
    ensures FailureEvents(inputs, n + 1) == FailureEvents(inputs, n) + [FailedAttemptEvent(inputs(n).username, n + 1)]
  {
  }

  /** `validate_login` finds no user with this username and password. */
  predicate Rejected(validate: (string, string) -> Option<Session>, a: Attempt)
  {
    validate(a.username, a.password).None?
  }

  /** The first `n` rounds each failed to log in and answered something other than "n". */
  predicate FailedRounds(validate: (string, string) -> Option<Session>, inputs: nat -> Attempt, n: nat)
  {
    forall j :: 0 <= j < n ==> Rejected(validate, inputs(j)) && !SaysNo(inputs(j))
  }

  /** `login_prompt`: `validate` is `validate_login` over the current users table, `inputs(k)`
      what is typed in round k. */
  method LoginPrompt(validate: (string, string) -> Option<Session>, inputs: nat -> Attempt, maxAttempts: nat)
    returns (outcome: LoginOutcome, events: seq<LogEvent>, calls: nat)
    ensures calls <= maxAttempts
    ensures outcome == NoAttempts <==> maxAttempts == 0
    ensures outcome == NoAttempts ==> calls == 0 && events == []
    ensures outcome.LoggedIn? ==>
              calls >= 1 && FailedRounds(validate, inputs, calls - 1) &&
              validate(inputs(calls - 1).username, inputs(calls - 1).password) == Some(Session(outcome.userId, outcome.role)) &&
              events == FailureEvents(inputs, calls - 1) + [LoggedInEvent(inputs(calls - 1).username)]
    ensures outcome == UserExited ==>
              calls >= 1 && FailedRounds(validate, inputs, calls - 1) &&
              Rejected(validate, inputs(calls - 1)) && SaysNo(inputs(calls - 1)) &&
              events == FailureEvents(inputs, calls) + [ExitEvent(inputs(calls - 1).username)]
    ensures outcome == TooManyAttempts ==>
              calls == maxAttempts >= 1 && FailedRounds(validate, inputs, calls) &&
              events == FailureEvents(inputs, calls) + [TooManyEvent(inputs(calls - 1).username, maxAttempts)]
  {
    outcome, events, calls := NoAttempts, [], 0;
    var attempts := 0;
    while attempts < maxAttempts
      invariant attempts < maxAttempts || attempts == maxAttempts == 0
      invariant FailedRounds(validate, inputs, attempts)
      invariant outcome == NoAttempts && calls == 0 && events == FailureEvents(inputs, attempts)
    {
      var a := inputs(attempts);
      var result := validate(a.username, a.password);
      if result.Some? {
        events := events + [LoggedInEvent(a.username)];
        outcome, calls := LoggedIn(result.value.userId, result.value.role), attempts + 1;
        break;
      }
      FailureEventsStep(inputs, attempts);
      events := events + [FailedAttemptEvent(a.username, attempts + 1)];
      if SaysNo(a) {
        events := events + [ExitEvent(a.username)];
        outcome, calls := UserExited, attempts + 1;
        break;
      }
      attempts := attempts + 1;
      if attempts >= maxAttempts {
        events := events + [TooManyEvent(a.username, maxAttempts)];
        outcome, calls := TooManyAttempts, attempts;
        break;
      }
    }
  }

  // ---------------------------------------------------------------------------------------
  // Suspicious-activity summary
  // ---------------------------------------------------------------------------------------

  /** The printed form of one selected entry: number, date, time, user, description, details. */
  function SummaryLine(row: Row): string
    requires |row| >= 6
  {
    row[0] + " - " + row[1] + " " + row[2] + " - " + row[3] + ": " + row[4] + " - " + row[5]
  }

  function SummaryLines(rows: seq<Row>): (r: seq<string>)
    requires forall i :: 0 <= i < |rows| ==> |rows[i]| >= 6
    ensures |r| == |rows| && forall i :: 0 <= i < |rows| ==> r[i] == SummaryLine(rows[i])
  {
    seq(|rows|, i requires 0 <= i < |rows| => SummaryLine(rows[i]))
  }

  const SummaryBanner := "There are unread suspicious activities!"

  /** After login: only an administrator's session reads the log for flagged entries, and
      prints them under a banner when there are any. Errors reading the log are not caught. */
  method SuspiciousSummary(c: Cipher, role: string, log: LogFile) returns (r: Result<seq<string>, LogError>)
    requires log.Valid()
    ensures !(role == SuperAdmin || role == SystemAdmin) ==> r == Ok([])
    ensures r.Ok? && r.value != [] ==>
              (role == SuperAdmin || role == SystemAdmin) &&
              exists logs: seq<Row> ::
                DecryptsTo(c, log.rows, logs) && Suspicious(logs).Ok? && Suspicious(logs).value != [] &&
                (forall i :: 0 <= i < |Suspicious(logs).value| ==> |Suspicious(logs).value[i]| >= RowWidth) &&
                r.value == [SummaryBanner] + SummaryLines(Suspicious(logs).value)
    ensures (role == SuperAdmin || role == SystemAdmin) ==>
              forall logs :: DecryptsTo(c, log.rows, logs) ==>
                match Suspicious(logs)
                case Err(e) => r == Err(e)
                case Ok(selected) =>
                  (forall i :: 0 <= i < |selected| ==> |selected[i]| >= RowWidth) &&
                  r == Ok(if selected == [] then [] else [SummaryBanner] + SummaryLines(selected))
    ensures (role == SuperAdmin || role == SystemAdmin) ==>
              forall i :: FirstFailingRow(c, log.rows, i) ==>
                r == Err(CipherFailure(DecryptLogRow(c, log.rows[i]).error))
  {
    if !(role == SuperAdmin || role == SystemAdmin) {
      return Ok([]);
    }
    var selected := log.GetSuspiciousLogs(c);
    if selected.Err? {
      return Err(selected.error);
    }
    var rows := selected.value;
    if rows == [] {
      return Ok([]);
    }
    ghost var logs: seq<Row> :| DecryptsTo(c, log.rows, logs) && Suspicious(logs) == selected;
    forall i | 0 <= i < |rows|
      ensures |rows[i]| >= RowWidth
    {
      SuspiciousSelects(logs, rows[i]);
    }
    r := Ok([SummaryBanner] + SummaryLines(rows));
  }
}
