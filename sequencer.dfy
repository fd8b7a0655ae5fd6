/**
 * Sequence numbers for same-day reruns (backup.py:104-119): the next backup of
 * a database on a given day is numbered one past the largest number that can
 * be read from that day's existing file names, or 1 when none can.
 */
module Sequencer {
  import opened Wrappers
  import opened Artifacts

  /** The names the sequencer's glob finds, in listing order. */
  function SameDayNames(names: seq<string>, db: string, date: string): (r: seq<string>)
    ensures forall x :: x in r <==> x in names && IsSameDay(db, date, x)
  {
    if names == [] then []
    else (if IsSameDay(db, date, names[0]) then [names[0]] else []) + SameDayNames(names[1..], db, date)
  }

  /**
   * The numbers collected into `nums` (backup.py:109-115): one per name whose
   * trailing number parses, in listing order; unparseable names are skipped.
   */
  function ParsedNumbers(names: seq<string>): (nums: seq<nat>)
    ensures forall x :: x in names && TrailingNumber(x).Some? ==> TrailingNumber(x).value in nums
    ensures forall m :: m in nums ==> exists x :: x in names && TrailingNumber(x) == Some(m as int)
    decreases |names|
  {
    if names == [] then []
    else
      var init := names[..|names| - 1];
      var last := names[|names| - 1];
      assert names == init + [last];
      ParsedNumbers(init) + (if TrailingNumber(last).Some? then [TrailingNumber(last).value as nat] else [])
  }

  /** Python's `max` of a non-empty list. */
  function Max(nums: seq<nat>): (m: nat)
    requires |nums| >= 1
    ensures m in nums
    ensures forall x :: x in nums ==> x <= m
  {
    if |nums| == 1 then nums[0]
    else
      var rest := Max(nums[1..]);
      assert nums == [nums[0]] + nums[1..];
      if nums[0] >= rest then nums[0] else rest
  }

  /** The sequence number the next backup of `db` on `date` receives. */
  function NextNumber(names: seq<string>, db: string, date: string): (n: nat)
    ensures n >= 1
    ensures ParsedNumbers(SameDayNames(names, db, date)) == [] ==> n == 1
    ensures ParsedNumbers(SameDayNames(names, db, date)) != [] ==>
              n - 1 in ParsedNumbers(SameDayNames(names, db, date))
    ensures forall m :: m in ParsedNumbers(SameDayNames(names, db, date)) ==> m < n
  {
    var nums := ParsedNumbers(SameDayNames(names, db, date));
    if nums == [] then 1 else Max(nums) + 1
  }

  /**
   * The sequencer block of `run_backup`: glob the day's files, collect the
   * numbers that parse, and take one past their maximum.
   */
  method NextSequence(names: seq<string>, db: string, date: string) returns (n: nat)
    ensures n == NextNumber(names, db, date)
  {
    var existing := SameDayNames(names, db, date);
    n := 1;
    if existing != [] {
      var nums: seq<nat> := [];
      var i := 0;
      while i < |existing|
        invariant 0 <= i <= |existing|
        invariant nums == ParsedNumbers(existing[..i])
      {
        var parsed := TrailingNumber(existing[i]);
        ParsedNumbersStep(existing, i);
        if parsed.Some? {
          nums := nums + [parsed.value as nat];
        }
        i := i + 1;
      }
      assert existing[..i] == existing;
      if nums != [] {
        n := Max(nums) + 1;
      }
    }
  }

  /** One more name scanned by the loop of `NextSequence`. */
  lemma ParsedNumbersStep(names: seq<string>, i: nat)
    requires i < |names|
    ensures ParsedNumbers(names[..i + 1]) ==
            ParsedNumbers(names[..i]) +
              (if TrailingNumber(names[i]).Some? then [TrailingNumber(names[i]).value as nat] else [])
  {
    assert names[..i + 1][..i] == names[..i];
  }

  /** The name built for the next backup is not already taken in the directory. */
  lemma NextFileNameIsFresh(names: seq<string>, db: string, date: string)
    ensures FileName(db, date, NextNumber(names, db, date)) !in names
  {
    var n := NextNumber(names, db, date);
    FileNameIsSameDay(db, date, n);
    TrailingNumberOfFileName(db, date, n);
  }

  /** A file whose trailing number does not parse does not change the next number. */
  lemma UnparseableNameIgnored(names: seq<string>, db: string, date: string, bad: string)
    requires TrailingNumber(bad).None?
    ensures NextNumber(names + [bad], db, date) == NextNumber(names, db, date)
  {
    SameDayNumbersSkip(names, db, date, bad);
  }

  lemma SameDayNumbersSkip(names: seq<string>, db: string, date: string, bad: string)
    requires TrailingNumber(bad).None?
    ensures ParsedNumbers(SameDayNames(names + [bad], db, date)) == ParsedNumbers(SameDayNames(names, db, date))
  {
    var before := SameDayNames(names, db, date);
    SameDayNamesAppend(names, bad, db, date);
    if IsSameDay(db, date, bad) {
      ParsedNumbersSkip(before, bad);
    } else {
      assert before + [] == before;
    }
  }

  lemma ParsedNumbersSkip(names: seq<string>, bad: string)
    requires TrailingNumber(bad).None?
    ensures ParsedNumbers(names + [bad]) == ParsedNumbers(names)
  {
    assert (names + [bad])[..|names|] == names;
  }

  lemma {:induction false} SameDayNamesAppend(names: seq<string>, x: string, db: string, date: string)
    ensures SameDayNames(names + [x], db, date) ==
            SameDayNames(names, db, date) + (if IsSameDay(db, date, x) then [x] else [])
    decreases |names|
  {
    if names != [] {
      assert (names + [x])[1..] == names[1..] + [x];
      SameDayNamesAppend(names[1..], x, db, date);
    }
  }

  /** Two backups already taken today, numbered 1 and 2: the next one is number 3. */
  lemma ThirdBackupOfTheDay(db: string, date: string)
    ensures NextNumber([FileName(db, date, 1), FileName(db, date, 2)], db, date) == 3
  {
    var a, b := FileName(db, date, 1), FileName(db, date, 2);
    FileNameIsSameDay(db, date, 1);
    FileNameIsSameDay(db, date, 2);
    TrailingNumberOfFileName(db, date, 1);
    TrailingNumberOfFileName(db, date, 2);
    assert SameDayNames([b], db, date) == [b] by {
      assert [b][1..] == [];
    }
    assert SameDayNames([a, b], db, date) == [a, b] by {
      assert [a, b][1..] == [b];
    }
    assert ParsedNumbers([a]) == [1] by {
      assert [a][..0] == [];
    }
    assert ParsedNumbers([a, b]) == [1, 2] by {
      assert [a, b][..1] == [a];
    }
  }

  /** No file of the day: the first backup is number 1. */
  lemma FirstBackupOfTheDay(names: seq<string>, db: string, date: string)
    requires forall x :: x in names ==> !IsSameDay(db, date, x)
    ensures NextNumber(names, db, date) == 1
  {
    var found := SameDayNames(names, db, date);
    if found != [] {
      assert found[0] in found;
    }
  }
}
