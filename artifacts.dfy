/**
 * Backup artifacts and their file names. An artifact of database `db` taken
 * on day `date` (a `DD-MM-YYYY` token) with sequence number `n` is stored as
 * `<db>-<date>-<n>.sql.gz` in the directory of its host (backup.py:119).
 */
module Artifacts {
  import opened Wrappers
  import opened Text

  const Extension: string := ".sql.gz"

  /** One file of a host directory: its name, modification time and size in bytes. */
  datatype Artifact = Artifact(name: string, mtime: int, size: nat)

  /** The name `f"{db}-{date}-{n}.sql.gz"` given to a new backup. */
  function FileName(db: string, date: string, n: nat): string {
    db + "-" + date + "-" + Decimal(n) + Extension
  }

  /**
   * The sequence number read back from a file name:
   * `int(name.split("-")[-1].split(".")[0])`, or `None` where `int` raises.
   */
  function TrailingNumber(name: string): (r: Option<int>)
    ensures r.Some? ==> r.value >= 0
  {
    ParseInt(FirstField(LastField(name, '-'), '.'))
  }

  /** `strftime("%d-%m-%Y")` shape: two digits, dash, two digits, dash, four digits. */
  predicate IsDateToken(t: string) {
    && |t| == 10
    && IsDigit(t[0]) && IsDigit(t[1]) && t[2] == '-'
    && IsDigit(t[3]) && IsDigit(t[4]) && t[5] == '-'
    && IsDigit(t[6]) && IsDigit(t[7]) && IsDigit(t[8]) && IsDigit(t[9])
  }

  /**
   * The retention glob `<db>-[0-9][0-9]-[0-9][0-9]-[0-9][0-9][0-9][0-9]-*.sql.gz`
   * (backup.py:62): the database name, a dash, a date token, a dash, anything,
   * and the extension.
   */
  predicate IsManaged(db: string, name: string) {
    var p := |db|;
    && |name| >= p + 12 + |Extension|
    && name[..p] == db
    && name[p] == '-'
    && IsDateToken(name[p + 1..p + 11])
    && name[p + 11] == '-'
    && EndsWith(name, Extension)
  }

  /** The sequencer glob `<db>-<date>-*.sql.gz` (backup.py:105). */
  predicate IsSameDay(db: string, date: string, name: string) {
    var prefix := db + "-" + date + "-";
    && |name| >= |prefix| + |Extension|
    && name[..|prefix|] == prefix
    && EndsWith(name, Extension)
  }

  /** Reading the number back from a built file name gives the number it was built with. */
  lemma TrailingNumberOfFileName(db: string, date: string, n: nat)
    ensures TrailingNumber(FileName(db, date, n)) == Some(n)
  {
    var digits := Decimal(n);
    var tail := digits + Extension;
    assert '-' !in tail by {
      forall i | 0 <= i < |tail| ensures tail[i] != '-' {
        if i < |digits| { assert IsDigit(digits[i]); }
      }
    }
    assert FileName(db, date, n) == (db + "-" + date) + ['-'] + tail;
    LastFieldAt(db + "-" + date, tail, '-');
    assert '.' !in digits by {
      forall i | 0 <= i < |digits| ensures digits[i] != '.' { assert IsDigit(digits[i]); }
    }
    assert tail == digits + ['.'] + "sql.gz";
    FirstFieldAt(digits, "sql.gz", '.');
    ParseDecimal(n);
  }

  /** A built file name is found by the sequencer's glob for the same day. */
  lemma FileNameIsSameDay(db: string, date: string, n: nat)
    ensures IsSameDay(db, date, FileName(db, date, n))
  {
    var prefix := db + "-" + date + "-";
    assert FileName(db, date, n) == prefix + (Decimal(n) + Extension);
  }

  /** With a well-formed date, a built file name is governed by the retention glob. */
  lemma FileNameIsManaged(db: string, date: string, n: nat)
    requires IsDateToken(date)
    ensures IsManaged(db, FileName(db, date, n))
  {
    var name := FileName(db, date, n);
    var p := |db|;
    assert name == db + ("-" + date + "-" + Decimal(n) + Extension);
    assert name[p + 1..p + 11] == date;
  }

  /**
   * The retention glob of one database never matches the files of another
   * database whose name extends it with a dash and a non-digit (for example
   * `app` and `app-old`).
   */
  lemma ManagedIgnoresLongerNames(db: string, other: string, date: string, n: nat)
    requires |other| > |db| + 1 && other[..|db|] == db && other[|db|] == '-'
    requires !IsDigit(other[|db| + 1])
    ensures !IsManaged(db, FileName(other, date, n))
  {
    var name := FileName(other, date, n);
    assert name[|db| + 1] == other[|db| + 1];
  }
}
