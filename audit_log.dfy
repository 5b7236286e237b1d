/** The encrypted audit log: an append-only CSV file of 7-field rows
      [number, date, time, E(username), E(description), E(additional info), E(suspicious)].
    The file is a sequence of rows of strings; CSV quoting is not modelled. */
module AuditLog {
  import opened Wrappers
  import opened Text
  import opened Clock
  import opened FieldCipher

  type Row = seq<string>

  const RowWidth := 7
  const Headers: seq<string> :=
    ["No.", "Date", "Time", "Username", "Description of Activity", "Additional Information", "Suspicious"]

  datatype LogError = CipherFailure(cause: CipherError) | IndexError

  /** The four encrypted fields of a log row, in the order `log_activity` encrypts them, each
      under its own seed. Any encryption failure aborts. */
  function EncryptFields(c: Cipher, rand: nat -> Seed, username: string, description: string,
                         additionalInfo: string, suspicious: string): (r: Result<Row, CipherError>)
    ensures r.Ok? <==> PublicKeyPath in c.keyFiles && Fits(username) && Fits(description) &&
                       Fits(additionalInfo) && Fits(suspicious)
    ensures r.Ok? ==> |r.value| == 4
  {
    var u :- EncryptData(c, rand(0), username);
    var d :- EncryptData(c, rand(1), description);
    var a :- EncryptData(c, rand(2), additionalInfo);
    var s :- EncryptData(c, rand(3), suspicious);
    Ok([u, d, a, s])
  }

  /** The row `log_activity` writes as entry number `n`: number, date and time in clear, the four
      other fields each encrypted under its own seed. Any encryption failure aborts the write. */
  function NewEntry(c: Cipher, n: nat, now: DateTime, rand: nat -> Seed,
                    username: string, description: string, additionalInfo: string, suspicious: string)
    : (r: Result<Row, CipherError>)
    ensures r.Ok? <==> PublicKeyPath in c.keyFiles && Fits(username) && Fits(description) &&
                       Fits(additionalInfo) && Fits(suspicious)
    ensures r.Ok? ==> |r.value| == RowWidth && r.value[0] == Decimal(n) &&
                      r.value[1] == LogDate(now) && r.value[2] == LogTime(now)
  {
    var fields :- EncryptFields(c, rand, username, description, additionalInfo, suspicious);
    Ok([Decimal(n), LogDate(now), LogTime(now)] + fields)
  }

  /** `decrypt_log_row`: a row of another width is returned unchanged; otherwise the first three
      fields are copied and the last four decrypted independently. A decryption error propagates. */
  function DecryptLogRow(c: Cipher, row: Row): (r: Result<Row, CipherError>)
    ensures |row| != RowWidth ==> r == Ok(row)
    ensures |row| == RowWidth ==>
              (r.Ok? <==> DecryptData(c, row[3]).Ok? && DecryptData(c, row[4]).Ok? &&
                          DecryptData(c, row[5]).Ok? && DecryptData(c, row[6]).Ok?)
    ensures |row| == RowWidth && r.Ok? ==>
              |r.value| == RowWidth && r.value[..3] == row[..3] &&
              forall i :: 3 <= i < RowWidth ==> DecryptData(c, row[i]) == Ok(r.value[i])
  {
    if |row| != RowWidth then Ok(row)
    else
      var u :- DecryptData(c, row[3]);
      var d :- DecryptData(c, row[4]);
      var a :- DecryptData(c, row[5]);
      var s :- DecryptData(c, row[6]);
      Ok([row[0], row[1], row[2], u, d, a, s])
  }

  /** Field `k` is the first of the four encrypted fields of `row` that does not decrypt. */
  predicate FirstFailingField(c: Cipher, row: Row, k: int)
    requires |row| == RowWidth
  {
    3 <= k < RowWidth && DecryptData(c, row[k]).Err? && forall j :: 3 <= j < k ==> DecryptData(c, row[j]).Ok?
  }

  /** A 7-field row whose field `k` is the first encrypted field that does not decrypt fails
      with that field's error. */
  lemma DecryptLogRowFirstError(c: Cipher, row: Row, k: int)
    requires |row| == RowWidth && FirstFailingField(c, row, k)
    ensures DecryptLogRow(c, row) == Err(DecryptData(c, row[k]).error)
  {
    assert k == 3 || k == 4 || k == 5 || k == 6;
  }

  /** Every row of the file carries its 1-based position as its number. */
  ghost predicate Numbered(rows: seq<Row>)
  {
    forall i :: 0 <= i < |rows| ==> |rows[i]| >= 1 && rows[i][0] == Decimal(i + 1)
  }

  /** Appending a row that carries the next number keeps the file numbered. */
  lemma AppendKeepsNumbered(rows: seq<Row>, row: Row)
    requires Numbered(rows) && |row| >= 1 && row[0] == Decimal(|rows| + 1)
    ensures Numbered(rows + [row])
  {
    var all := rows + [row];
    forall i | 0 <= i < |all|
      ensures |all[i]| >= 1 && all[i][0] == Decimal(i + 1)
    {
      AppendAt(rows, row, i);
    }
  }

  lemma AppendAt<T>(rows: seq<T>, row: T, i: nat)
    requires i <= |rows|
    ensures (rows + [row])[i] == if i < |rows| then rows[i] else row
  {
  }

  /** The file `data/logs.csv`. It is created by the first append and only ever grows. */
  class LogFile {
    var present: bool
    var rows: seq<Row>

    ghost predicate Valid()
      reads this
    {
      !present ==> rows == []
    }

    /** No log file yet. */
    constructor ()
      ensures Valid() && !present && rows == []
    {
      present, rows := false, [];
    }

    /** `get_next_log_number`: 1 for a missing file, otherwise the row count plus one. */
    function NextLogNumber(): (n: nat)
      requires Valid()
      reads this
      ensures n >= 1 && n == |rows| + 1
      ensures !present ==> n == 1
    {
      if !present then 1 else |rows| + 1
    }

    /** `log_activity`: append exactly one row numbered `NextLogNumber()`; earlier rows are kept.
        If an encryption fails nothing is written. */
    method LogActivity(c: Cipher, now: DateTime, rand: nat -> Seed,
                       username: string, description: string, additionalInfo: string, suspicious: string)
      returns (r: Result<(), CipherError>)
      requires Valid()
      modifies this
      ensures Valid()
      ensures var e := NewEntry(c, old(NextLogNumber()), now, rand, username, description, additionalInfo, suspicious);
              if e.Ok? then r.Ok? && present && rows == old(rows) + [e.value]
              else r == Err(e.error) && present == old(present) && rows == old(rows)
      ensures Numbered(old(rows)) ==> Numbered(rows)
    {
      var number := NextLogNumber();
      var e := NewEntry(c, number, now, rand, username, description, additionalInfo, suspicious);
      if e.Err? {
        return Err(e.error);
      }
      if Numbered(rows) {
        AppendKeepsNumbered(rows, e.value);
      }
      present := true;
      rows := rows + [e.value];
      r := Ok(());
    }

    /** `log_suspicious_activity`: `log_activity` with the flag "Yes". */
    method LogSuspiciousActivity(c: Cipher, now: DateTime, rand: nat -> Seed,
                                 username: string, description: string, additionalInfo: string)
      returns (r: Result<(), CipherError>)
      requires Valid()
      modifies this
      ensures Valid()
      ensures var e := NewEntry(c, old(NextLogNumber()), now, rand, username, description, additionalInfo, "Yes");
              if e.Ok? then r.Ok? && present && rows == old(rows) + [e.value]
              else r == Err(e.error) && present == old(present) && rows == old(rows)
      ensures Numbered(old(rows)) ==> Numbered(rows)
    {
      r := LogActivity(c, now, rand, username, description, additionalInfo, "Yes");
    }

    /** `decrypt_log_file`: [] for a missing file, otherwise one decrypted row per stored row in
        file order; the first decryption error aborts the read. */
    method DecryptLogFile(c: Cipher) returns (r: Result<seq<Row>, CipherError>)
      requires Valid()
      ensures !present ==> r == Ok([])
      ensures r.Ok? <==> forall i :: 0 <= i < |rows| ==> DecryptLogRow(c, rows[i]).Ok?
      ensures r.Ok? ==> DecryptsTo(c, rows, r.value)
      ensures r.Err? ==> exists i :: 0 <= i < |rows| && DecryptLogRow(c, rows[i]) == Err(r.error) &&
                                     forall j :: 0 <= j < i ==> DecryptLogRow(c, rows[j]).Ok?
    {
      if !present {
        return Ok([]);
      }
      var logs: seq<Row> := [];
      var i := 0;
      while i < |rows|
        invariant 0 <= i <= |rows| && |logs| == i
        invariant forall j :: 0 <= j < i ==> DecryptLogRow(c, rows[j]) == Ok(logs[j])
      {
        var d := DecryptLogRow(c, rows[i]);
        if d.Err? {
          return Err(d.error);
        }
        logs := logs + [d.value];
        i := i + 1;
      }
      r := Ok(logs);
    }

    /** `get_suspicious_logs`: decrypt the file, then keep the flagged rows. */
    method GetSuspiciousLogs(c: Cipher) returns (r: Result<seq<Row>, LogError>)
      requires Valid()
      ensures !present ==> r == Ok([])
      ensures r.Ok? ==> exists logs :: DecryptsTo(c, rows, logs) && Suspicious(logs) == r
      ensures forall logs :: DecryptsTo(c, rows, logs) ==> r == Suspicious(logs)
      ensures (forall i :: 0 <= i < |rows| ==> DecryptLogRow(c, rows[i]).Ok?) && r.Err? ==> r == Err(IndexError)
      ensures forall i :: FirstFailingRow(c, rows, i) ==> r == Err(CipherFailure(DecryptLogRow(c, rows[i]).error))
    {
      var logs := DecryptLogFile(c);
      if logs.Err? {
        ghost var k :| 0 <= k < |rows| && DecryptLogRow(c, rows[k]) == Err(logs.error) &&
                       forall j :: 0 <= j < k ==> DecryptLogRow(c, rows[j]).Ok?;
        assert FirstFailingRow(c, rows, k);
        forall i | FirstFailingRow(c, rows, i)
          ensures i == k
        {
          FirstFailingRowUnique(c, rows, i, k);
        }
        return Err(CipherFailure(logs.error));
      }
      forall other | DecryptsTo(c, rows, other)
        ensures other == logs.value
      {
        DecryptsToUnique(c, rows, other, logs.value);
      }
      r := Suspicious(logs.value);
    }
  }

  /** `logs` is the file `rows` read back: row by row, each decrypts to its counterpart. */
  predicate DecryptsTo(c: Cipher, rows: seq<Row>, logs: seq<Row>)
  {
    |logs| == |rows| && forall i :: 0 <= i < |rows| ==> DecryptLogRow(c, rows[i]) == Ok(logs[i])
  }

  /** Row `i` is the first row of the file that does not decrypt. */
  predicate FirstFailingRow(c: Cipher, rows: seq<Row>, i: int)
  {
    0 <= i < |rows| && DecryptLogRow(c, rows[i]).Err? && forall j :: 0 <= j < i ==> DecryptLogRow(c, rows[j]).Ok?
  }

  /** A file reads back in at most one way. */
  lemma DecryptsToUnique(c: Cipher, rows: seq<Row>, a: seq<Row>, b: seq<Row>)
    requires DecryptsTo(c, rows, a) && DecryptsTo(c, rows, b)
    ensures a == b
  {
    forall i | 0 <= i < |a|
      ensures a[i] == b[i]
    {
      assert Ok(a[i]) == DecryptLogRow(c, rows[i]) == Ok(b[i]);
    }
  }

  /** Only one row is the first to fail. */
  lemma FirstFailingRowUnique(c: Cipher, rows: seq<Row>, i: nat, k: nat)
    requires FirstFailingRow(c, rows, i) && FirstFailingRow(c, rows, k)
    ensures i == k
  {
  }

  /** `flag.lower() == 'yes'`. */
  predicate IsYes(flag: string)
  {
    Lower(flag) == "yes"
  }

  /** The list comprehension of `get_suspicious_logs`: keep the rows whose field 6 is "yes" in any
      case. Reading field 6 of a shorter (passed-through) row raises IndexError. */
  function Suspicious(logs: seq<Row>): (r: Result<seq<Row>, LogError>)
    ensures r.Ok? <==> forall k :: 0 <= k < |logs| ==> |logs[k]| >= RowWidth
    ensures r.Err? ==> r.error == IndexError
    ensures r.Ok? ==> |r.value| <= |logs|
  {
    if logs == [] then Ok([])
    else if |logs[0]| < RowWidth then Err(IndexError)
    else
      var rest :- Suspicious(logs[1..]);
      Ok(if IsYes(logs[0][6]) then [logs[0]] + rest else rest)
  }

  lemma SuspiciousOfEmpty()
    ensures Suspicious([]) == Ok([])
  {
  }

  /** The filter keeps exactly the rows flagged "yes", ignoring case. */
  lemma {:induction false} SuspiciousSelects(logs: seq<Row>, x: Row)
    requires Suspicious(logs).Ok?
    ensures x in Suspicious(logs).value <==> x in logs && IsYes(x[6])
  {
    if logs != [] {
      SuspiciousSelects(logs[1..], x);
      assert logs == [logs[0]] + logs[1..];
    }
  }

  /** One step of the filter: a 7-field row in front is kept or dropped by its own flag. */
  lemma SuspiciousCons(x: Row, rest: seq<Row>)
    requires |x| >= RowWidth && Suspicious(rest).Ok?
    ensures Suspicious([x] + rest) ==
              Ok(if IsYes(x[6]) then [x] + Suspicious(rest).value else Suspicious(rest).value)
  {
    assert ([x] + rest)[1..] == rest;
  }

  /** The filter distributes over concatenation, so it keeps file order. */
  lemma {:induction false} SuspiciousConcat(a: seq<Row>, b: seq<Row>)
    requires Suspicious(a).Ok? && Suspicious(b).Ok?
    ensures Suspicious(a + b) == Ok(Suspicious(a).value + Suspicious(b).value)
  {
    if a == [] {
      assert a + b == b;
      assert [] + Suspicious(b).value == Suspicious(b).value;
    } else {
      var x, more := a[0], a[1..];
      assert a == [x] + more;
      assert a + b == [x] + (more + b);
      assert |x| >= RowWidth;
      SuspiciousConcat(more, b);
      SuspiciousCons(x, more);
      SuspiciousCons(x, more + b);
      var rest, tail := Suspicious(more).value, Suspicious(b).value;
      assert ([x] + rest) + tail == [x] + (rest + tail);
    }
  }

  /** Write/read round trip: a row written by `log_activity` with a matching key pair decrypts
      back to its plaintext fields. */
  lemma NewEntryDecrypts(c: Cipher, n: nat, now: DateTime, rand: nat -> Seed,
                         username: string, description: string, additionalInfo: string, flag: string)
    requires Sound(c) && Fits(username) && Fits(description) && Fits(additionalInfo) && Fits(flag)
    ensures var e := NewEntry(c, n, now, rand, username, description, additionalInfo, flag);
            e.Ok? &&
            DecryptLogRow(c, e.value) == Ok([Decimal(n), LogDate(now), LogTime(now),
                                             username, description, additionalInfo, flag])
  {
    RoundTrip(c, rand(0), username);
    RoundTrip(c, rand(1), description);
    RoundTrip(c, rand(2), additionalInfo);
    RoundTrip(c, rand(3), flag);
  }

  /** A decrypted entry flagged "Yes" by `log_suspicious_activity` is selected by the filter;
      one flagged "No" by `log_activity`'s default is not. */
  lemma FlaggedEntryIsSelected(plain: Row)
    requires |plain| == RowWidth && (plain[6] == "Yes" || plain[6] == "No")
    ensures Suspicious([plain]) == Ok(if plain[6] == "Yes" then [plain] else [])
  {
    assert [plain][1..] == [];
    assert [plain] + [] == [plain];
    if plain[6] == "Yes" {
      assert Lower("Yes") == "yes";
    } else {
      assert Lower("No") == "no";
    }
  }

  /** Width chosen for column `i`: at least the header and every field in that column... */
  ghost predicate WidthCovers(w: nat, i: nat, logs: seq<Row>)
    requires i < RowWidth
  {
    |Headers[i]| <= w && forall k :: 0 <= k < |logs| && i < |logs[k]| ==> |logs[k][i]| <= w
  }

  /** ... and no more than the longest of them. */
  ghost predicate WidthAttained(w: nat, i: nat, logs: seq<Row>)
    requires i < RowWidth
  {
    w == |Headers[i]| || exists k :: 0 <= k < |logs| && i < |logs[k]| && w == |logs[k][i]|
  }

  ghost predicate IsColumnWidth(w: nat, i: nat, logs: seq<Row>)
    requires i < RowWidth
  {
    WidthCovers(w, i, logs) && WidthAttained(w, i, logs)
  }

  lemma WidthEmptyRow(logs: seq<Row>, i: nat, w: nat)
    requires i < RowWidth && IsColumnWidth(w, i, logs)
    ensures IsColumnWidth(w, i, logs + [[]])
  {
    var ext := logs + [[]];
    forall k | 0 <= k < |ext| && i < |ext[k]|
      ensures |ext[k][i]| <= w
    {
      assert ext[k] == logs[k];
    }
    if w != |Headers[i]| {
      var k :| 0 <= k < |logs| && i < |logs[k]| && w == |logs[k][i]|;
      assert ext[k] == logs[k];
    }
  }

  /** One step of the inner width loop: field `x` is appended to the partial row `r`, and the
      width of its column grows to fit it; the other columns are unaffected. */
  lemma WidthStep(logs: seq<Row>, r: Row, x: string, i: nat, w: nat, w': nat)
    requires i < RowWidth && IsColumnWidth(w, i, logs + [r])
    requires i == |r| ==> w' == if w < |x| then |x| else w
    requires i != |r| ==> w' == w
    ensures IsColumnWidth(w', i, logs + [r + [x]])
  {
    var old_ := logs + [r];
    var ext := logs + [r + [x]];
    forall k | 0 <= k < |ext| && i < |ext[k]|
      ensures |ext[k][i]| <= w'
    {
      if k < |logs| {
        assert ext[k] == old_[k];
      } else {
        assert ext[k] == r + [x] && old_[k] == r;
      }
    }
    if w' == |x| && i == |r| {
      assert ext[|logs|] == r + [x] && (r + [x])[i] == x;
    } else if w != |Headers[i]| {
      var k :| 0 <= k < |old_| && i < |old_[k]| && w == |old_[k][i]|;
      if k < |logs| {
        assert ext[k] == old_[k];
      } else {
        assert old_[k] == r && ext[k] == r + [x] && (r + [x])[i] == r[i];
      }
    }
  }

  /** The inner width loop of `display_logs` for one row: each of the row's fields widens its
      column when it is longer. A field past the seventh has no column (IndexError). */
  method WidenColumns(w: array<nat>, prefix: seq<Row>, row: Row) returns (ok: bool)
    requires w.Length == RowWidth
    requires forall j :: 0 <= j < RowWidth ==> IsColumnWidth(w[j], j, prefix)
    modifies w
    ensures ok <==> |row| <= RowWidth
    ensures ok ==> forall j :: 0 <= j < RowWidth ==> IsColumnWidth(w[j], j, prefix + [row])
  {
    forall j | 0 <= j < RowWidth
      ensures IsColumnWidth(w[j], j, prefix + [row[..0]])
    {
      WidthEmptyRow(prefix, j, w[j]);
    }
    var i := 0;
    while i < |row|
      invariant 0 <= i <= |row| && i <= RowWidth
      invariant forall j :: 0 <= j < RowWidth ==> IsColumnWidth(w[j], j, prefix + [row[..i]])
    {
      if i >= RowWidth {
        return false;
      }
      ghost var before := w[..];
      if w[i] < |row[i]| {
        w[i] := |row[i]|;
      }
      forall j | 0 <= j < RowWidth
        ensures IsColumnWidth(w[j], j, prefix + [row[..i + 1]])
      {
        assert row[..i + 1] == row[..i] + [row[i]];
        WidthStep(prefix, row[..i], row[i], j, before[j], w[j]);
      }
      i := i + 1;
    }
    assert row[..i] == row;
    ok := true;
  }

  /** The width loop of `display_logs`: each column is as wide as its widest value or header.
      A row with more than seven fields indexes past the seven widths (IndexError). */
  method ColumnWidths(logs: seq<Row>) returns (widths: seq<nat>, ok: bool)
    ensures ok <==> forall k :: 0 <= k < |logs| ==> |logs[k]| <= RowWidth
    ensures ok ==> |widths| == RowWidth && forall i :: 0 <= i < RowWidth ==> IsColumnWidth(widths[i], i, logs)
  {
    var w := new nat[RowWidth](i requires 0 <= i < RowWidth => |Headers[i]|);
    var k := 0;
    while k < |logs|
      invariant 0 <= k <= |logs|
      invariant forall j :: 0 <= j < k ==> |logs[j]| <= RowWidth
      invariant forall i :: 0 <= i < RowWidth ==> IsColumnWidth(w[i], i, logs[..k])
    {
      var fits := WidenColumns(w, logs[..k], logs[k]);
      if !fits {
        return [], false;
      }
      assert logs[..k] + [logs[k]] == logs[..k + 1];
      k := k + 1;
    }
    assert logs[..k] == logs;
    widths, ok := w[..], true;
  }

  /** One printed line: the seven cells left-justified to their widths, joined by " | ". */
  function RenderRow(cells: Row, widths: seq<nat>): string
    requires |cells| >= RowWidth && |widths| >= RowWidth
  {
    Join(" | ", seq(RowWidth, i requires 0 <= i < RowWidth => LJust(cells[i], widths[i])))
  }

  /** Rows whose cells fit the widths all render to the same length. */
  lemma RenderedRowsAlign(a: Row, b: Row, widths: seq<nat>)
    requires |a| >= RowWidth && |b| >= RowWidth && |widths| >= RowWidth
    requires forall i :: 0 <= i < RowWidth ==> |a[i]| <= widths[i] && |b[i]| <= widths[i]
    ensures |RenderRow(a, widths)| == |RenderRow(b, widths)|
  {
    var pa := seq(RowWidth, i requires 0 <= i < RowWidth => LJust(a[i], widths[i]));
    var pb := seq(RowWidth, i requires 0 <= i < RowWidth => LJust(b[i], widths[i]));
    SameShapeJoin(" | ", pa, pb);
  }

  lemma {:induction false} SameShapeJoin(sep: string, p: seq<string>, q: seq<string>)
    requires |p| == |q| && forall i :: 0 <= i < |p| ==> |p[i]| == |q[i]|
    ensures |Join(sep, p)| == |Join(sep, q)|
  {
    if |p| > 1 {
      SameShapeJoin(sep, p[1..], q[1..]);
    }
  }

  /** `display_logs`, returning the printed lines. With 7-field rows it prints the header, a
      divider and one line per row, all of the header's length. A row longer than seven fields
      raises (IndexError) in the width loop, before anything is printed; otherwise a shorter row
      raises when it is printed, after the header, the divider and the rows before it. */
  method DisplayLogs(logs: seq<Row>) returns (lines: seq<string>, ok: bool)
    ensures ok <==> forall k :: 0 <= k < |logs| ==> |logs[k]| == RowWidth
    ensures ok ==> |lines| == |logs| + 2 && lines[1] == Repeat('-', |lines[0]|) &&
                   forall j :: 0 <= j < |lines| ==> |lines[j]| == |lines[0]|
    ensures ok ==> exists widths: seq<nat> ::
                     |widths| == RowWidth &&
                     (forall i :: 0 <= i < RowWidth ==> IsColumnWidth(widths[i], i, logs)) &&
                     lines[0] == RenderRow(Headers, widths) &&
                     forall k :: 0 <= k < |logs| ==> lines[k + 2] == RenderRow(logs[k], widths)
    ensures !ok ==> (lines == [] <==> exists k :: 0 <= k < |logs| && |logs[k]| > RowWidth)
    ensures !ok && lines != [] ==>
              2 <= |lines| <= |logs| + 1 && |logs[|lines| - 2]| < RowWidth &&
              (forall k :: 0 <= k < |lines| - 2 ==> |logs[k]| == RowWidth) &&
              exists widths: seq<nat> ::
                |widths| == RowWidth &&
                (forall i :: 0 <= i < RowWidth ==> IsColumnWidth(widths[i], i, logs)) &&
                lines[0] == RenderRow(Headers, widths) && lines[1] == Repeat('-', |lines[0]|) &&
                forall k :: 0 <= k < |lines| - 2 ==> lines[k + 2] == RenderRow(logs[k], widths)
  {
    var widths, fits := ColumnWidths(logs);
    if !fits {
      return [], false;
    }
    var header := RenderRow(Headers, widths);
    lines := [header, Repeat('-', |header|)];
    var k := 0;
    while k < |logs|
      invariant 0 <= k <= |logs| && |lines| == k + 2
      invariant lines[0] == header && lines[1] == Repeat('-', |header|)
      invariant forall j :: 0 <= j < k ==> |logs[j]| == RowWidth && lines[j + 2] == RenderRow(logs[j], widths)
    {
      if |logs[k]| < RowWidth {
        return lines, false;
      }
      lines := lines + [RenderRow(logs[k], widths)];
      k := k + 1;
    }
    forall j | 2 <= j < |lines|
      ensures |lines[j]| == |header|
    {
      assert forall i :: 0 <= i < RowWidth ==> WidthCovers(widths[i], i, logs);
      assert lines[j] == RenderRow(logs[j - 2], widths);
      RenderedRowsAlign(logs[j - 2], Headers, widths);
    }
    ok := true;
  }
}
