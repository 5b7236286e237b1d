/** The wall-clock instant that `datetime.now()` returns, and the `strftime` formats the system uses. */
module Clock {
  import opened Text

  datatype DateTime = DateTime(year: nat, month: nat, day: nat, hour: nat, minute: nat, second: nat)
  {
    /** A clock reading as `datetime` produces it, with a four-digit year. */
    predicate Valid() {
      1000 <= year <= 9999 && 1 <= month <= 12 && 1 <= day <= 31 &&
      hour < 24 && minute < 60 && second < 60
    }
  }

  /** A zero-padded field of `width` digits (`%m`, `%d`, `%H`, `%M`, `%S` use two, `%Y` four). */
  function Pad(n: nat, width: nat): (s: string)
    ensures |s| == width && AllDigits(s)
    decreases width
  {
    if width == 0 then [] else Pad(n / 10, width - 1) + [DigitChar(n % 10)]
  }

  lemma {:induction false} ParsePad(n: nat, width: nat)
    requires n < Power10(width)
    ensures ParseDigits(Pad(n, width)) == n
    decreases width
  {
    if width > 0 {
      var s := Pad(n, width);
      assert s[..|s| - 1] == Pad(n / 10, width - 1);
      ParsePad(n / 10, width - 1);
    }
  }

  /** A string of digits is the zero-padded rendering of its own value, at its own width. */
  lemma {:induction false} PadParseDigits(s: string)
    requires AllDigits(s)
    ensures ParseDigits(s) < Power10(|s|)
    ensures Pad(ParseDigits(s), |s|) == s
    decreases |s|
  {
    if s != [] {
      var init := s[..|s| - 1];
      assert AllDigits(init);
      PadParseDigits(init);
      var n := ParseDigits(s);
      assert n == ParseDigits(init) * 10 + DigitValue(s[|s| - 1]);
      assert n / 10 == ParseDigits(init) && n % 10 == DigitValue(s[|s| - 1]);
      assert s == init + [s[|s| - 1]];
    }
  }

  function Power10(k: nat): (p: nat)
    ensures p >= 1
  {
    if k == 0 then 1 else 10 * Power10(k - 1)
  }

  /** `%d-%m-%Y`, the date column of the audit log. */
  function LogDate(t: DateTime): (s: string)
    ensures |s| == 10 && s[2] == '-' && s[5] == '-'
  {
    Pad(t.day, 2) + "-" + Pad(t.month, 2) + "-" + Pad(t.year, 4)
  }

  /** `%H:%M:%S`, the time column of the audit log. */
  function LogTime(t: DateTime): (s: string)
    ensures |s| == 8 && s[2] == ':' && s[5] == ':'
  {
    Pad(t.hour, 2) + ":" + Pad(t.minute, 2) + ":" + Pad(t.second, 2)
  }

  /** `%Y%m%d_%H%M%S`, the stamp in backup archive names. */
  function ArchiveStamp(t: DateTime): (s: string)
    ensures |s| == 15 && s[8] == '_'
    ensures forall i :: 0 <= i < 15 && i != 8 ==> IsAsciiDigit(s[i])
  {
    Pad(t.year, 4) + Pad(t.month, 2) + Pad(t.day, 2) + "_" + Pad(t.hour, 2) + Pad(t.minute, 2) + Pad(t.second, 2)
  }

  /** `%Y-%m-%d %H:%M:%S`, the registration date of user records. */
  function RegistrationStamp(t: DateTime): (s: string)
    ensures |s| == 19
  {
    Pad(t.year, 4) + "-" + Pad(t.month, 2) + "-" + Pad(t.day, 2) + " " +
    Pad(t.hour, 2) + ":" + Pad(t.minute, 2) + ":" + Pad(t.second, 2)
  }

  /** Two fields of one width that render alike hold the same number. */
  lemma PadInjective(m: nat, n: nat, width: nat)
    requires m < Power10(width) && n < Power10(width)
    requires Pad(m, width) == Pad(n, width)
    ensures m == n
  {
    ParsePad(m, width);
    ParsePad(n, width);
  }

  /** Equal concatenations with equally long first parts have equal parts. */
  lemma SplitEqual(a: string, b: string, c: string, d: string)
    requires a + b == c + d && |a| == |c|
    ensures a == c && b == d
  {
    assert a == (a + b)[..|a|] && c == (c + d)[..|c|];
    assert b == (a + b)[|a|..] && d == (c + d)[|c|..];
  }

  /** The archive stamp determines the clock reading: two backups taken at different
      seconds never get the same archive name. */
  lemma ArchiveStampInjective(t: DateTime, u: DateTime)
    requires t.Valid() && u.Valid()
    requires ArchiveStamp(t) == ArchiveStamp(u)
    ensures t == u
  {
    var y, y' := Pad(t.year, 4), Pad(u.year, 4);
    var mo, mo' := Pad(t.month, 2), Pad(u.month, 2);
    var d, d' := Pad(t.day, 2), Pad(u.day, 2);
    var h, h' := Pad(t.hour, 2), Pad(u.hour, 2);
    var mi, mi' := Pad(t.minute, 2), Pad(u.minute, 2);
    var se, se' := Pad(t.second, 2), Pad(u.second, 2);
    SplitEqual(y + mo + d + "_" + h + mi, se, y' + mo' + d' + "_" + h' + mi', se');
    SplitEqual(y + mo + d + "_" + h, mi, y' + mo' + d' + "_" + h', mi');
    SplitEqual(y + mo + d + "_", h, y' + mo' + d' + "_", h');
    SplitEqual(y + mo + d, "_", y' + mo' + d', "_");
    SplitEqual(y + mo, d, y' + mo', d');
    SplitEqual(y, mo, y', mo');
    assert Power10(4) == 10000 && Power10(2) == 100;
    PadInjective(t.year, u.year, 4);
    PadInjective(t.month, u.month, 2);
    PadInjective(t.day, u.day, 2);
    PadInjective(t.hour, u.hour, 2);
    PadInjective(t.minute, u.minute, 2);
    PadInjective(t.second, u.second, 2);
  }
}
