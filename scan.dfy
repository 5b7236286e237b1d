/** The lookup loop that `user.py`, `member.py` and `database.py` all repeat: fetch every row,
    decrypt one column of each in table order, and stop at the first row whose plaintext satisfies
    a test. `decrypt_data` is not guarded inside these loops, so a row that does not decrypt ends
    the scan with that error. */
module Scan {
  import opened Wrappers
  import opened FieldCipher
  import Hex

  /** The row's `field` decrypts, and the test rejects it: the scan moves past it. */
  predicate Passes<R>(c: Cipher, field: R -> string, matches: (R, string) -> bool, row: R)
  {
    DecryptData(c, field(row)).Ok? && !matches(row, DecryptData(c, field(row)).value)
  }

  /** The index of the first row whose decrypted `field` satisfies `matches`, None when every
      row decrypts and fails the test, or the first decryption error. */
  function First<R>(c: Cipher, rows: seq<R>, field: R -> string, matches: (R, string) -> bool)
    : (r: Result<Option<nat>, CipherError>)
    ensures r.Ok? && r.value.Some? ==>
              r.value.value < |rows| && DecryptData(c, field(rows[r.value.value])).Ok? &&
              matches(rows[r.value.value], DecryptData(c, field(rows[r.value.value])).value)
    ensures r.Ok? ==> forall j :: 0 <= j < (if r.value.Some? then r.value.value else |rows|) ==>
                        Passes(c, field, matches, rows[j])
    ensures r.Err? ==> exists j :: 0 <= j < |rows| && DecryptData(c, field(rows[j])) == Err(r.error) &&
                                   forall i :: 0 <= i < j ==> Passes(c, field, matches, rows[i])
  {
    if rows == [] then Ok(None)
    else
      var plain :- DecryptData(c, field(rows[0]));
      if matches(rows[0], plain) then Ok(Some(0))
      else
        var rest := First(c, rows[1..], field, matches);
        assert forall i :: 1 <= i < |rows| ==> rows[i] == rows[1..][i - 1];
        match rest
        case Err(e) => Err(e)
        case Ok(None) => Ok(None)
        case Ok(Some(i)) => Ok(Some(i + 1))
  }

  /** A found index moved `n` rows further down the table. */
  function Offset(r: Result<Option<nat>, CipherError>, n: nat): Result<Option<nat>, CipherError>
  {
    if r.Ok? && r.value.Some? then Ok(Some(r.value.value + n)) else r
  }

  lemma OffsetTwice(r: Result<Option<nat>, CipherError>, m: nat, n: nat)
    ensures Offset(Offset(r, m), n) == Offset(r, m + n)
  {
  }

  lemma FirstStep<R>(c: Cipher, rows: seq<R>, field: R -> string, matches: (R, string) -> bool)
    requires rows != [] && Passes(c, field, matches, rows[0])
    ensures First(c, rows, field, matches) == Offset(First(c, rows[1..], field, matches), 1)
  {
  }

  /** Rows that decrypt and fail the test are skipped: the answer is the answer for the rest of
      the table, shifted. */
  lemma {:induction false} FirstSkips<R>(c: Cipher, rows: seq<R>, field: R -> string,
                                         matches: (R, string) -> bool, i: nat)
    requires i <= |rows| && forall j :: 0 <= j < i ==> Passes(c, field, matches, rows[j])
    ensures First(c, rows, field, matches) == Offset(First(c, rows[i..], field, matches), i)
  {
    if i == 0 {
      assert rows[0..] == rows;
    } else {
      var tail := First(c, rows[i..], field, matches);
      FirstStep(c, rows, field, matches);
      assert forall j :: 0 <= j < i - 1 ==> rows[1..][j] == rows[j + 1];
      FirstSkips(c, rows[1..], field, matches, i - 1);
      assert rows[1..][i - 1..] == rows[i..];
      OffsetTwice(tail, i - 1, 1);
    }
  }

  /** The `for row in rows: ... if ...: ...; break` loop, as written. */
  method ScanRows<R>(c: Cipher, rows: seq<R>, field: R -> string, matches: (R, string) -> bool)
    returns (r: Result<Option<nat>, CipherError>)
    ensures r == First(c, rows, field, matches)
  {
    var i := 0;
    while i < |rows|
      invariant 0 <= i <= |rows|
      invariant forall j :: 0 <= j < i ==> Passes(c, field, matches, rows[j])
    {
      var plain := DecryptData(c, field(rows[i]));
      if plain.Err? || matches(rows[i], plain.value) {
        FirstSkips(c, rows, field, matches, i);
        assert rows[i..][0] == rows[i];
        return if plain.Err? then Err(plain.error) else Ok(Some(i));
      }
      i := i + 1;
    }
    FirstSkips(c, rows, field, matches, i);
    r := Ok(None);
  }

  /** An empty ciphertext never decrypts: a row a scan finds never has an empty `field`. */
  lemma EmptyNeverDecrypts(c: Cipher)
    ensures DecryptData(c, "").Err?
  {
    assert Hex.FromHex("") == Some([]);
  }
}
