/** `member.py`: the membership-number generator, the format checks the member prompts apply,
    the search predicate and loop, and the scan-then-change cores of deleting and updating a
    member. Every stored member field is a ciphertext. */
module Members {
  import opened Wrappers
  import opened Text
  import opened Clock
  import opened FieldCipher
  import Scan

  // ---------------------------------------------------------------------------------------
  // Membership numbers
  // ---------------------------------------------------------------------------------------

  /** The sum of the digit values of a digit string. */
  function DigitSum(s: string): nat
    requires AllDigits(s)
  {
    if s == [] then 0 else DigitSum(s[..|s| - 1]) + DigitValue(s[|s| - 1])
  }

  /** `str(year)[-2:]`: the last two characters of the year's decimal rendering. */
  function ShortYear(year: nat): (s: string)
    ensures AllDigits(s) && 1 <= |s| <= 2
  {
    var d := Decimal(year);
    if |d| >= 2 then d[|d| - 2..] else d
  }

  /** `generate_membership_id`: the short year, seven random digits, then the sum of the nine
      digits before it modulo 10. The random digits are a parameter. */
  function GenerateMembershipId(year: nat, randomDigits: seq<nat>): (id: string)
    requires |randomDigits| == 7 && forall k :: 0 <= k < 7 ==> randomDigits[k] < 10
    ensures AllDigits(id) && |id| == |ShortYear(year)| + 8
    ensures id[..|ShortYear(year)|] == ShortYear(year)
    ensures forall k :: 0 <= k < 7 ==> id[|ShortYear(year)| + k] == DigitChar(randomDigits[k])
    ensures DigitValue(id[|id| - 1]) == DigitSum(id[..|id| - 1]) % 10
  {
    var digits := seq(7, k requires 0 <= k < 7 => DigitChar(randomDigits[k]));
    var base := ShortYear(year) + digits;
    assert AllDigits(base);
    var id := base + [DigitChar(DigitSum(base) % 10)];
    assert id[..|id| - 1] == base;
    id
  }

  /** A well-formed membership number: ten digits whose last is the check digit of the others. */
  predicate IsMembershipId(id: string)
  {
    |id| == 10 && AllDigits(id) && DigitValue(id[9]) == DigitSum(id[..9]) % 10
  }

  /** The tens and units digits of a number are those of the number modulo 100. */
  lemma LastTwoDigits(year: nat)
    ensures (year / 10) % 10 == (year % 100) / 10 && year % 10 == (year % 100) % 10
  {
    var q, m := year / 100, year % 100;
    assert year == 10 * (10 * q + m / 10) + m % 10;
  }

  /** The last two digits of a year of at least two digits are the year modulo 100, padded. */
  lemma ShortYearIsYearModHundred(year: nat)
    requires year >= 10
    ensures ShortYear(year) == Pad(year % 100, 2)
  {
    var m := year % 100;
    var e := Decimal(year / 10);
    var units := DigitChar(year % 10);
    assert Decimal(year) == e + [units];
    var tens := e[|e| - 1];
    assert tens == DigitChar((year / 10) % 10) by {
      if year / 10 >= 10 {
        assert e == Decimal(year / 10 / 10) + [DigitChar((year / 10) % 10)];
      }
    }
    assert Decimal(year)[|Decimal(year)| - 2..] == [tens, units];
    LastTwoDigits(year);
    assert Pad(m, 2) == Pad(m / 10, 1) + [DigitChar(m % 10)];
    assert Pad(m / 10, 1) == [DigitChar((m / 10) % 10)];
  }

  /** From year 10 on, every generated number is a well-formed membership number that starts
      with the year modulo 100. */
  lemma GeneratedIdIsWellFormed(year: nat, randomDigits: seq<nat>)
    requires year >= 10
    requires |randomDigits| == 7 && forall k :: 0 <= k < 7 ==> randomDigits[k] < 10
    ensures IsMembershipId(GenerateMembershipId(year, randomDigits))
    ensures GenerateMembershipId(year, randomDigits)[..2] == Pad(year % 100, 2)
  {
    ShortYearIsYearModHundred(year);
  }

  /** Changing one digit of a digit string changes its digit sum by the difference. */
  lemma {:induction false} DigitSumUpdate(s: string, i: nat, ch: char)
    requires AllDigits(s) && i < |s| && IsAsciiDigit(ch)
    ensures AllDigits(s[i := ch])
    ensures DigitSum(s[i := ch]) == DigitSum(s) - DigitValue(s[i]) + DigitValue(ch)
    decreases |s|
  {
    var t := s[i := ch];
    assert AllDigits(t);
    if i == |s| - 1 {
      assert t[..|t| - 1] == s[..|s| - 1];
    } else {
      DigitSumUpdate(s[..|s| - 1], i, ch);
      assert t[..|t| - 1] == s[..|s| - 1][i := ch];
    }
  }

  /** The check digit catches every single-digit error: replacing any one digit of a
      well-formed membership number by a different digit yields a malformed one. */
  lemma CheckDigitDetectsSingleError(id: string, i: nat, ch: char)
    requires IsMembershipId(id) && i < 10 && IsAsciiDigit(ch) && ch != id[i]
    ensures !IsMembershipId(id[i := ch])
  {
    var t := id[i := ch];
    if i == 9 {
      assert t[..9] == id[..9];
      assert DigitChar(DigitValue(ch)) == ch;
    } else {
      assert t[..9] == id[..9][i := ch];
      DigitSumUpdate(id[..9], i, ch);
      var a := DigitValue(id[i]);
      var b := DigitValue(ch);
      assert a != b by {
        assert DigitChar(a) == id[i] && DigitChar(b) == ch;
      }
      var before := DigitSum(id[..9]);
      assert DigitSum(t[..9]) == before as int - a + b;
      assert (before as int - a + b) % 10 != before % 10;
    }
  }

  // ---------------------------------------------------------------------------------------
  // Format checks
  // ---------------------------------------------------------------------------------------

  predicate AllOf(s: string, p: char -> bool)
  {
    forall i :: 0 <= i < |s| ==> p(s[i])
  }

  /** `[A-Za-z0-9._%+-]`, the local part of an address. */
  predicate IsLocalChar(c: char)
  {
    IsAsciiAlnum(c) || c == '.' || c == '_' || c == '%' || c == '+' || c == '-'
  }

  /** `[A-Za-z0-9.-]`, the domain. */
  predicate IsDomainChar(c: char)
  {
    IsAsciiAlnum(c) || c == '.' || c == '-'
  }

  /** `[A-Z|a-z]`, the final label: the bar inside the class is a literal character. */
  predicate IsTopLevelChar(c: char)
  {
    IsAsciiLetter(c) || c == '|'
  }

  /** The language of the address pattern: local part, '@', domain, '.', and a final label of
      at least two characters, every part drawn from its own class. */
  ghost predicate IsEmailShape(email: string)
  {
    exists local: string, domain: string, top: string ::
      email == local + "@" + domain + "." + top &&
      |local| >= 1 && AllOf(local, IsLocalChar) &&
      |domain| >= 1 && AllOf(domain, IsDomainChar) &&
      |top| >= 2 && AllOf(top, IsTopLevelChar)
  }

  /** The first position of `c` in `s`. */
  function IndexOf(s: string, c: char): (r: Option<nat>)
    ensures r.None? <==> c !in s
    ensures r.Some? ==> r.value < |s| && s[r.value] == c && forall j :: 0 <= j < r.value ==> s[j] != c
  {
    if s == [] then None
    else if s[0] == c then Some(0)
    else
      var r := IndexOf(s[1..], c);
      assert forall j :: 1 <= j < |s| ==> s[j] == s[1..][j - 1];
      if r.Some? then Some(r.value + 1) else None
  }

  /** The last position of `c` in `s`. */
  function LastIndexOf(s: string, c: char): (r: Option<nat>)
    ensures r.None? <==> c !in s
    ensures r.Some? ==> r.value < |s| && s[r.value] == c && forall j :: r.value < j < |s| ==> s[j] != c
  {
    if s == [] then None
    else if s[|s| - 1] == c then Some(|s| - 1)
    else
      var r := LastIndexOf(s[..|s| - 1], c);
      assert forall j :: 0 <= j < |s| - 1 ==> s[j] == s[..|s| - 1][j];
      r
  }

  /** `validate_email`, decided without backtracking: no class of the pattern admits '@' and
      the final label admits no '.', so a match splits at the first '@' and the last '.'. */
  function ValidateEmail(email: string): bool
  {
    match (IndexOf(email, '@'), LastIndexOf(email, '.'))
    case (Some(at), Some(dot)) =>
      1 <= at && at + 1 < dot && |email| - dot - 1 >= 2 &&
      AllOf(email[..at], IsLocalChar) && AllOf(email[at + 1..dot], IsDomainChar) &&
      AllOf(email[dot + 1..], IsTopLevelChar)
    case _ => false
  }

  /** A string cut around an '@' at `at` and a '.' at `dot` is the concatenation of its parts. */
  lemma SplitAroundAtAndDot(email: string, at: nat, dot: nat)
    requires at < dot < |email| && email[at] == '@' && email[dot] == '.'
    ensures email == email[..at] + "@" + email[at + 1..dot] + "." + email[dot + 1..]
  {
    assert email == email[..at] + [email[at]] + email[at + 1..dot] + [email[dot]] + email[dot + 1..];
  }

  /** Cutting around an '@' and a later '.' into parts of the right classes and lengths
      exhibits the pattern's shape. */
  lemma ShapeFromCuts(email: string, at: nat, dot: nat)
    requires at < dot < |email| && email[at] == '@' && email[dot] == '.'
    requires 1 <= at && at + 1 < dot && |email| - dot - 1 >= 2
    requires AllOf(email[..at], IsLocalChar) && AllOf(email[at + 1..dot], IsDomainChar) &&
             AllOf(email[dot + 1..], IsTopLevelChar)
    ensures IsEmailShape(email)
  {
    SplitAroundAtAndDot(email, at, dot);
    var local, domain, top := email[..at], email[at + 1..dot], email[dot + 1..];
    assert email == local + "@" + domain + "." + top;
  }

  /** The split-based decision accepts only the pattern's language. */
  lemma ValidateEmailSound(email: string)
    requires ValidateEmail(email)
    ensures IsEmailShape(email)
  {
    var at := IndexOf(email, '@').value;
    var dot := LastIndexOf(email, '.').value;
    ShapeFromCuts(email, at, dot);
  }

  /** The parts of `local@domain.top` sit where the split expects them. */
  lemma PartsOfEmail(local: string, domain: string, top: string)
    ensures var email := local + "@" + domain + "." + top;
            var at, dot := |local|, |local| + 1 + |domain|;
            email == local + "@" + (domain + "." + top) &&
            email[..at] == local && email[at + 1..dot] == domain && email[dot + 1..] == top
  {
  }

  /** A '@' after a local part holding none is the first '@'. */
  lemma FirstAtFollowsLocal(local: string, rest: string)
    requires AllOf(local, IsLocalChar)
    ensures IndexOf(local + "@" + rest, '@') == Some(|local|)
  {
    var s := local + "@" + rest;
    assert s[|local|] == '@';
    forall j | 0 <= j < |local|
      ensures s[j] != '@'
    {
      assert s[j] == local[j] && IsLocalChar(local[j]);
    }
    var r := IndexOf(s, '@');
    assert r.Some? && r.value == |local|;
  }

  /** A final label holding no '.', after a '.': that '.' is the last one. */
  lemma NoDotInTop(front: string, top: string)
    requires AllOf(top, IsTopLevelChar)
    ensures var s := front + "." + top; s[|front|] == '.' && forall j :: |front| < j < |s| ==> s[j] != '.'
  {
    var head := front + ".";
    var s := head + top;
    assert s[|front|] == head[|front|] == '.';
    forall j | |head| <= j < |s|
      ensures s[j] != '.'
    {
      var t := j - |head|;
      assert s[j] == top[t];
      assert IsTopLevelChar(top[t]);
    }
  }

  /** A position holding `c` with no `c` after it is the last position of `c`. */
  lemma LastIndexOfIs(s: string, c: char, k: nat)
    requires k < |s| && s[k] == c && forall j :: k < j < |s| ==> s[j] != c
    ensures LastIndexOf(s, c) == Some(k)
  {
    assert c in s;
  }

  /** A '.' before a final label holding none is the last '.'. */
  lemma LastDotPrecedesTop(front: string, top: string)
    requires AllOf(top, IsTopLevelChar)
    ensures LastIndexOf(front + "." + top, '.') == Some(|front|)
  {
    NoDotInTop(front, top);
    LastIndexOfIs(front + "." + top, '.', |front|);
  }

  /** Every string of the pattern's language splits at its first '@' and its last '.'. */
  lemma ValidateEmailComplete(email: string, local: string, domain: string, top: string)
    requires email == local + "@" + domain + "." + top
    requires |local| >= 1 && AllOf(local, IsLocalChar)
    requires |domain| >= 1 && AllOf(domain, IsDomainChar)
    requires |top| >= 2 && AllOf(top, IsTopLevelChar)
    ensures ValidateEmail(email)
  {
    PartsOfEmail(local, domain, top);
    FirstAtFollowsLocal(local, domain + "." + top);
    LastDotPrecedesTop(local + "@" + domain, top);
  }

  /** `validate_email` accepts exactly the pattern's language. */
  lemma ValidateEmailDecidesShape(email: string)
    ensures ValidateEmail(email) <==> IsEmailShape(email)
  {
    if ValidateEmail(email) {
      ValidateEmailSound(email);
    }
    if IsEmailShape(email) {
      var local: string, domain: string, top: string :|
        email == local + "@" + domain + "." + top &&
        |local| >= 1 && AllOf(local, IsLocalChar) &&
        |domain| >= 1 && AllOf(domain, IsDomainChar) &&
        |top| >= 2 && AllOf(top, IsTopLevelChar);
      ValidateEmailComplete(email, local, domain, top);
    }
  }

  /** The bar in the final label's class is accepted as a character of the label. */
  lemma BarInTopLevelLabel()
    ensures ValidateEmail("a@b.c|")
  {
    assert IndexOf("a@b.c|", '@') == Some(1);
    assert LastIndexOf("a@b.c|", '.') == Some(3);
  }

  const PhonePrefix := "+31-6-"

  /** `validate_phone`: the prefix +31-6- followed by exactly eight digits. */
  function ValidatePhone(phone: string): (r: bool)
    ensures r <==> exists digits: string :: phone == PhonePrefix + digits && |digits| == 8 && AllDigits(digits)
  {
    if |phone| == 14 && phone[..6] == PhonePrefix && AllDigits(phone[6..]) then
      assert phone == PhonePrefix + phone[6..];
      true
    else
      assert forall digits: string :: phone == PhonePrefix + digits ==> phone[6..] == digits;
      false
  }

  /** The add prompt checks `+31-6-` followed by the typed text: it passes exactly when the
      text is eight digits. */
  lemma PromptedPhone(typed: string)
    ensures ValidatePhone(PhonePrefix + typed) <==> |typed| == 8 && AllDigits(typed)
  {
    var phone := PhonePrefix + typed;
    assert phone[..6] == PhonePrefix && phone[6..] == typed;
  }

  /** The postal-code pattern `^\d{4}[A-Z]{2}$`. */
  predicate IsZipCode(zip: string)
  {
    |zip| == 6 && AllDigits(zip[..4]) && IsAsciiUpper(zip[4]) && IsAsciiUpper(zip[5])
  }

  /** The accepted postal codes are exactly a number below 10000 written with four digits,
      then two capital letters. */
  lemma ZipCodeForm(zip: string)
    ensures IsZipCode(zip) <==>
              exists n: nat, a: char, b: char :: n < 10000 && IsAsciiUpper(a) && IsAsciiUpper(b) &&
                                                 zip == Pad(n, 4) + [a, b]
  {
    if IsZipCode(zip) {
      PadParseDigits(zip[..4]);
      assert zip == Pad(ParseDigits(zip[..4]), 4) + [zip[4], zip[5]];
    }
    forall n: nat, a: char, b: char | n < 10000 && IsAsciiUpper(a) && IsAsciiUpper(b) && zip == Pad(n, 4) + [a, b]
      ensures IsZipCode(zip)
    {
      assert zip[..4] == Pad(n, 4);
    }
  }

  /** The age check: non-empty, all digits, and a value from 1 to 120 (leading zeros allowed). */
  predicate AgeAccepted(typed: string)
  {
    |typed| > 0 && AllDigits(typed) && 0 < ParseDigits(typed) <= 120
  }

  /** The age is stored as `str(age)`: a rendering the check accepts exactly for 1..120, so a
      stored age always passes the check again. */
  lemma AgeOfDecimal(typed: string, age: nat)
    ensures AgeAccepted(Decimal(age)) <==> 1 <= age <= 120
    ensures AgeAccepted(typed) ==> AgeAccepted(Decimal(ParseDigits(typed)))
  {
    ParseDecimal(age);
    if AgeAccepted(typed) {
      ParseDecimal(ParseDigits(typed));
    }
  }

  // ---------------------------------------------------------------------------------------
  // Stored members and search
  // ---------------------------------------------------------------------------------------

  /** A row of the `members` table as stored: every column but the id is a ciphertext (the
      registration date is the exception: it is stored in the clear and never read here). */
  datatype MemberRow = MemberRow(id: nat, firstName: string, lastName: string, age: string,
                                 gender: string, weight: string, address: string, email: string,
                                 phone: string, registrationDate: string, membershipId: string)

  /** A decrypted member, as the search prompt collects it. */
  datatype Member = Member(firstName: string, lastName: string, membershipId: string, age: string,
                           gender: string, weight: string, address: string, email: string, phone: string)

  /** The nine decryptions of the search loop, in source order; the first failure is the
      exception that skips the row. */
  function DecryptMember(c: Cipher, row: MemberRow): (r: Result<Member, CipherError>)
    ensures r.Ok? <==>
              DecryptData(c, row.firstName).Ok? && DecryptData(c, row.lastName).Ok? &&
              DecryptData(c, row.membershipId).Ok? && DecryptData(c, row.age).Ok? &&
              DecryptData(c, row.gender).Ok? && DecryptData(c, row.weight).Ok? &&
              DecryptData(c, row.address).Ok? && DecryptData(c, row.email).Ok? &&
              DecryptData(c, row.phone).Ok?
  {
    var firstName :- DecryptData(c, row.firstName);
    var lastName :- DecryptData(c, row.lastName);
    var membershipId :- DecryptData(c, row.membershipId);
    var age :- DecryptData(c, row.age);
    var gender :- DecryptData(c, row.gender);
    var weight :- DecryptData(c, row.weight);
    var address :- DecryptData(c, row.address);
    var email :- DecryptData(c, row.email);
    var phone :- DecryptData(c, row.phone);
    Ok(Member(firstName, lastName, membershipId, age, gender, weight, address, email, phone))
  }

  /** The search predicate: a substring ignoring case in the names, the address and the email;
      a case-sensitive substring in the membership number and the phone. */
  predicate SearchMatches(term: string, m: Member)
  {
    IsSubstring(Lower(term), Lower(m.firstName)) ||
    IsSubstring(Lower(term), Lower(m.lastName)) ||
    IsSubstring(term, m.membershipId) ||
    IsSubstring(Lower(term), Lower(m.address)) ||
    IsSubstring(Lower(term), Lower(m.email)) ||
    IsSubstring(term, m.phone)
  }

  /** Age, gender and weight take no part in a search. */
  lemma SearchIgnoresAgeGenderWeight(term: string, m: Member, age: string, gender: string, weight: string)
    ensures SearchMatches(term, m.(age := age, gender := gender, weight := weight)) == SearchMatches(term, m)
  {
  }

  /** What one row contributes to a search: its decrypted member if it decrypts and matches. */
  function Hit(c: Cipher, term: string, row: MemberRow): (r: seq<Member>)
    ensures |r| <= 1
  {
    match DecryptMember(c, row)
    case Ok(m) => if SearchMatches(term, m) then [m] else []
    case Err(_) => []
  }

  /** `f` applied to each row in table order, the results concatenated. */
  function Gather<R, T>(rows: seq<R>, f: R -> seq<T>): seq<T>
  {
    if rows == [] then [] else Gather(rows[..|rows| - 1], f) + f(rows[|rows| - 1])
  }

  lemma {:induction false} GatherConcat<R, T>(rows: seq<R>, more: seq<R>, f: R -> seq<T>)
    ensures Gather(rows + more, f) == Gather(rows, f) + Gather(more, f)
    decreases |more|
  {
    if more == [] {
      assert rows + more == rows;
    } else {
      var all := rows + more;
      assert all[..|all| - 1] == rows + more[..|more| - 1];
      assert all[|all| - 1] == more[|more| - 1];
      GatherConcat(rows, more[..|more| - 1], f);
    }
  }

  lemma {:induction false} GatherHas<R, T>(rows: seq<R>, f: R -> seq<T>, x: T)
    ensures x in Gather(rows, f) <==> exists i :: 0 <= i < |rows| && x in f(rows[i])
    decreases |rows|
  {
    if rows != [] {
      var init := rows[..|rows| - 1];
      GatherHas(init, f, x);
      assert forall i :: 0 <= i < |init| ==> init[i] == rows[i];
    }
  }

  function Hits(c: Cipher, term: string): MemberRow -> seq<Member>
  {
    (row: MemberRow) => Hit(c, term, row)
  }

  /** The members a search reports, in table order: every row that decrypts and matches. */
  function Found(c: Cipher, term: string, rows: seq<MemberRow>): seq<Member>
  {
    Gather(rows, Hits(c, term))
  }

  /** A search over two parts of a table reports the first part's members, then the second's:
      table order is kept, and a row that fails to decrypt affects no other row. */
  lemma FoundConcat(c: Cipher, term: string, rows: seq<MemberRow>, more: seq<MemberRow>)
    ensures Found(c, term, rows + more) == Found(c, term, rows) + Found(c, term, more)
  {
    GatherConcat(rows, more, Hits(c, term));
  }

  /** A search reports at most one member per row, and of a one-row table exactly the row's
      member when it decrypts and matches. */
  lemma FoundOne(c: Cipher, term: string, row: MemberRow)
    ensures Found(c, term, [row]) ==
              match DecryptMember(c, row)
              case Ok(m) => if SearchMatches(term, m) then [m] else []
              case Err(_) => []
  {
    var rows := [row];
    assert rows[..0] == [] && rows[0] == row;
    assert Gather(rows, Hits(c, term)) == Gather(rows[..0], Hits(c, term)) + Hits(c, term)(row);
    assert Found(c, term, rows) == Hit(c, term, row);
  }

  lemma HitExactly(c: Cipher, term: string, row: MemberRow, m: Member)
    ensures m in Hit(c, term, row) <==> DecryptMember(c, row) == Ok(m) && SearchMatches(term, m)
  {
  }

  /** A member is reported exactly when some row decrypts to it and it matches the term. */
  lemma FoundExactly(c: Cipher, term: string, rows: seq<MemberRow>, m: Member)
    ensures m in Found(c, term, rows) <==>
              exists i :: 0 <= i < |rows| && DecryptMember(c, rows[i]) == Ok(m) && SearchMatches(term, m)
  {
    GatherHas(rows, Hits(c, term), m);
    forall i | 0 <= i < |rows|
      ensures m in Hits(c, term)(rows[i]) <==> DecryptMember(c, rows[i]) == Ok(m) && SearchMatches(term, m)
    {
      HitExactly(c, term, rows[i], m);
    }
  }

  /** `search_member_prompt` after reading the term: strip it, then decrypt and test each row,
      skipping the rows whose decryption raises. */
  method SearchMembers(c: Cipher, typed: string, rows: seq<MemberRow>) returns (found: seq<Member>)
    ensures found == Found(c, Strip(typed), rows)
  {
    var term := Strip(typed);
    found := [];
    for i := 0 to |rows|
      invariant found == Found(c, term, rows[..i])
    {
      assert rows[..i + 1][..i] == rows[..i];
      var m := DecryptMember(c, rows[i]);
      if m.Ok? && SearchMatches(term, m.value) {
        found := found + [m.value];
      }
      assert found == Found(c, term, rows[..i]) + Hit(c, term, rows[i]);
    }
    assert rows[..|rows|] == rows;
  }

  // ---------------------------------------------------------------------------------------
  // Delete and update
  // ---------------------------------------------------------------------------------------

  function MembershipIdOf(row: MemberRow): string
  {
    row.membershipId
  }

  function SameMembershipId(key: string): (MemberRow, string) -> bool
  {
    (row: MemberRow, plain: string) => plain == key
  }

  /** The first row whose membership number decrypts to `key`. */
  function FirstWithMembershipId(c: Cipher, rows: seq<MemberRow>, key: string): Result<Option<nat>, CipherError>
  {
    Scan.First(c, rows, MembershipIdOf, SameMembershipId(key))
  }

  /** SQLite assigns positive, distinct primary keys. */
  ghost predicate WellFormed(rows: seq<MemberRow>)
  {
    (forall i :: 0 <= i < |rows| ==> rows[i].id >= 1) &&
    (forall i, j :: 0 <= i < j < |rows| ==> rows[i].id != rows[j].id)
  }

  /** `DELETE FROM members WHERE id = ?`: every row with that id goes. */
  function DeleteById(rows: seq<MemberRow>, id: nat): seq<MemberRow>
  {
    if rows == [] then []
    else (if rows[0].id == id then [] else [rows[0]]) + DeleteById(rows[1..], id)
  }

  /** Deleting by id keeps exactly the rows with another id, and never grows the table. */
  lemma {:induction false} DeleteByIdKeepsOthers(rows: seq<MemberRow>, id: nat)
    ensures |DeleteById(rows, id)| <= |rows|
    ensures forall x :: x in DeleteById(rows, id) <==> x in rows && x.id != id
  {
    if rows != [] {
      DeleteByIdKeepsOthers(rows[1..], id);
      assert rows == [rows[0]] + rows[1..];
    }
  }

  /** Removing one row keeps the ids positive and distinct. */
  lemma RemoveKeepsWellFormed(rows: seq<MemberRow>, i: nat)
    requires i < |rows| && WellFormed(rows)
    ensures WellFormed(rows[..i] + rows[i + 1..])
  {
    var rest := rows[..i] + rows[i + 1..];
    assert forall j :: 0 <= j < |rest| ==> rest[j] == rows[if j < i then j else j + 1];
  }

  lemma {:induction false} DeleteByIdKeepsAll(rows: seq<MemberRow>, id: nat)
    requires forall a :: 0 <= a < |rows| ==> rows[a].id != id
    ensures DeleteById(rows, id) == rows
  {
    if rows != [] {
      DeleteByIdKeepsAll(rows[1..], id);
    }
  }

  /** With distinct ids, deleting by the id of row `i` removes exactly row `i`. */
  lemma {:induction false} DeleteByIdRemovesOne(rows: seq<MemberRow>, i: nat)
    requires i < |rows| && forall a, b :: 0 <= a < b < |rows| ==> rows[a].id != rows[b].id
    ensures DeleteById(rows, rows[i].id) == rows[..i] + rows[i + 1..]
  {
    var id := rows[i].id;
    if i == 0 {
      DeleteByIdKeepsAll(rows[1..], id);
    } else {
      DeleteByIdRemovesOne(rows[1..], i - 1);
      assert rows[1..][i - 1] == rows[i];
      assert rows[..i] + rows[i + 1..] == [rows[0]] + (rows[1..][..i - 1] + rows[1..][i..]);
    }
  }

  /** The new details `update_member` reads; the age is an integer (stored as `str(age)`), the
      weight the text of the float. */
  datatype Details = Details(firstName: string, lastName: string, age: nat, gender: string,
                             weight: string, address: string, email: string, phone: string)

  /** The eight columns the update writes, encrypted in source order with one seed each. */
  datatype Encrypted = Encrypted(firstName: string, lastName: string, age: string, gender: string,
                                 weight: string, address: string, email: string, phone: string)

  function EncryptDetails(c: Cipher, rand: nat -> Seed, d: Details): (r: Result<Encrypted, CipherError>)
    ensures r.Ok? <==> PublicKeyPath in c.keyFiles &&
                       Fits(d.firstName) && Fits(d.lastName) && Fits(Decimal(d.age)) && Fits(d.gender) &&
                       Fits(d.weight) && Fits(d.address) && Fits(d.email) && Fits(d.phone)
  {
    var firstName :- EncryptData(c, rand(0), d.firstName);
    var lastName :- EncryptData(c, rand(1), d.lastName);
    var age :- EncryptData(c, rand(2), Decimal(d.age));
    var gender :- EncryptData(c, rand(3), d.gender);
    var weight :- EncryptData(c, rand(4), d.weight);
    var address :- EncryptData(c, rand(5), d.address);
    var email :- EncryptData(c, rand(6), d.email);
    var phone :- EncryptData(c, rand(7), d.phone);
    Ok(Encrypted(firstName, lastName, age, gender, weight, address, email, phone))
  }

  /** The row after `UPDATE members SET first_name=?, ..., phone=?`: id, registration date and
      membership number are untouched. */
  function Rewrite(row: MemberRow, e: Encrypted): MemberRow
  {
    row.(firstName := e.firstName, lastName := e.lastName, age := e.age, gender := e.gender,
         weight := e.weight, address := e.address, email := e.email, phone := e.phone)
  }

  /** Under a matching key pair an updated row decrypts to the details entered, the age as
      `str(age)`, with the member's own membership number. */
  lemma RewrittenRowDecrypts(c: Cipher, rand: nat -> Seed, row: MemberRow, d: Details)
    requires Sound(c) && DecryptData(c, row.membershipId).Ok?
    requires Fits(d.firstName) && Fits(d.lastName) && Fits(Decimal(d.age)) && Fits(d.gender) &&
             Fits(d.weight) && Fits(d.address) && Fits(d.email) && Fits(d.phone)
    ensures EncryptDetails(c, rand, d).Ok?
    ensures DecryptMember(c, Rewrite(row, EncryptDetails(c, rand, d).value)) ==
              Ok(Member(d.firstName, d.lastName, DecryptData(c, row.membershipId).value, Decimal(d.age),
                        d.gender, d.weight, d.address, d.email, d.phone))
  {
    RoundTrip(c, rand(0), d.firstName);
    RoundTrip(c, rand(1), d.lastName);
    RoundTrip(c, rand(2), Decimal(d.age));
    RoundTrip(c, rand(3), d.gender);
    RoundTrip(c, rand(4), d.weight);
    RoundTrip(c, rand(5), d.address);
    RoundTrip(c, rand(6), d.email);
    RoundTrip(c, rand(7), d.phone);
  }

  class MemberTable {
    var rows: seq<MemberRow>

    ghost predicate Valid()
      reads this
    {
      WellFormed(rows)
    }

    constructor (rows: seq<MemberRow>)
      requires WellFormed(rows)
      ensures Valid() && this.rows == rows
    {
      this.rows := rows;
    }

    /** `delete_member`: delete the first row whose membership number decrypts to `key` and
        return the number of rows deleted; 0 and no change when none matches. A decryption
        error is not caught. */
    method DeleteMember(c: Cipher, key: string) returns (r: Result<nat, CipherError>)
      requires Valid()
      modifies this
      ensures Valid()
      ensures match FirstWithMembershipId(c, old(rows), key)
              case Err(e) => r == Err(e) && rows == old(rows)
              case Ok(None) => r == Ok(0) && rows == old(rows)
              case Ok(Some(i)) => r == Ok(1) && rows == old(rows)[..i] + old(rows)[i + 1..]
      ensures r.Ok? ==> r.value == |old(rows)| - |rows|
    {
      var found := Scan.ScanRows(c, rows, MembershipIdOf, SameMembershipId(key));
      if found.Err? {
        return Err(found.error);
      }
      if found.value.None? {
        return Ok(0);
      }
      var i := found.value.value;
      var before := |rows|;
      DeleteByIdRemovesOne(rows, i);
      RemoveKeepsWellFormed(rows, i);
      rows := DeleteById(rows, rows[i].id);
      r := Ok(before - |rows|);
    }

    /** `update_member` after its input loops: find the first row whose membership number
        decrypts to `key`; if there is one, encrypt the eight new values and write them to the
        row with that id. Neither decryption nor encryption errors are caught. */
    method UpdateMember(c: Cipher, rand: nat -> Seed, key: string, d: Details) returns (r: Result<bool, CipherError>)
      requires Valid()
      modifies this
      ensures Valid()
      ensures match FirstWithMembershipId(c, old(rows), key)
              case Err(e) => r == Err(e) && rows == old(rows)
              case Ok(None) => r == Ok(false) && rows == old(rows)
              case Ok(Some(i)) =>
                match EncryptDetails(c, rand, d)
                case Err(e) => r == Err(e) && rows == old(rows)
                case Ok(e) => r == Ok(true) && rows == old(rows)[i := Rewrite(old(rows)[i], e)]
    {
      var found := Scan.ScanRows(c, rows, MembershipIdOf, SameMembershipId(key));
      if found.Err? {
        return Err(found.error);
      }
      if found.value.None? {
        return Ok(false);
      }
      var i := found.value.value;
      var encrypted := EncryptDetails(c, rand, d);
      if encrypted.Err? {
        return Err(encrypted.error);
      }
      rows := rows[i := Rewrite(rows[i], encrypted.value)];
      r := Ok(true);
    }
  }
}
