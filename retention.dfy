/**
 * The retention pass of `apply_retention` (backup.py:48-95) as a function of
 * the host directory's listing. The pass lists the files of one database
 * newest first, deletes every file past the first `keep_last` (count rule),
 * lists again, and then deletes the oldest remaining file while the total
 * size exceeds the byte bound and a file remains (size rule). Files the
 * database's glob does not find are never touched.
 */
module Retention {
  import opened Artifacts
  import opened Listing
  import opened Policy

  /** The files of `db`, newest first: the `backups` list of backup.py:61 and 73. */
  function Backups(files: seq<Artifact>, db: string): seq<Artifact> {
    NewestFirst(Managed(files, db))
  }

  /** `backups[keep_last:]`, empty when `keep_last` reaches past the end. */
  function PastLimit(backups: seq<Artifact>, keep: nat): seq<Artifact> {
    if keep < |backups| then backups[keep..] else []
  }

  /** The directory after the count rule (backup.py:61-70). */
  function CountPhase(files: seq<Artifact>, db: string, keep: nat): seq<Artifact> {
    Without(files, Names(PastLimit(Backups(files, db), keep)))
  }

  /**
   * The `backups` list the size loop (backup.py:91-95) leaves: it pops the
   * last, oldest entry while the total exceeds the bound and the list is not
   * empty. The result is a prefix of the list that fits the bound (or is
   * empty) and is the longest such prefix reached by popping.
   */
  function SizePrune(backups: seq<Artifact>, maxBytes: int): (kept: seq<Artifact>)
    ensures |kept| <= |backups| && kept == backups[..|kept|]
    ensures kept == [] || Total(kept) <= maxBytes
    ensures |kept| < |backups| ==> Total(backups[..|kept| + 1]) > maxBytes
    decreases |backups|
  {
    if backups != [] && Total(backups) > maxBytes then
      var init := backups[..|backups| - 1];
      var kept := SizePrune(init, maxBytes);
      assert |kept| == |init| ==> backups[..|kept| + 1] == backups;
      assert |kept| < |init| ==> init[..|kept| + 1] == backups[..|kept| + 1];
      kept
    else
      backups
  }

  /** The directory after the size rule, applied to a fresh listing (backup.py:73-95). */
  function SizePhase(files: seq<Artifact>, db: string, maxBytes: int): seq<Artifact> {
    var backups := Backups(files, db);
    Without(files, Names(backups[|SizePrune(backups, maxBytes)|..]))
  }

  /** The directory after a whole retention pass for `db` under `limits`. */
  function Retain(files: seq<Artifact>, db: string, limits: Limits): seq<Artifact> {
    SizePhase(CountPhase(files, db, limits.keepLast), db, limits.maxBytes)
  }

  // ---------------------------------------------------------------------
  // Lemmas

  /** Every file a listing of `db` deletes is one the glob of `db` finds. */
  lemma BackupNamesManaged(files: seq<Artifact>, db: string, part: seq<Artifact>)
    requires forall a :: a in part ==> a in Backups(files, db)
    ensures forall n :: n in Names(part) ==> IsManaged(db, n)
  {
    forall n | n in Names(part) ensures IsManaged(db, n) {
      var a :| a in part && a.name == n;
      assert a in multiset(Backups(files, db));
    }
  }

  /**
   * Deleting the tail `Backups(files, db)[k..]` leaves every other file in
   * place and, of the database's files, exactly those of the head.
   */
  lemma DeleteTail(files: seq<Artifact>, db: string, k: nat)
    requires DistinctNames(files)
    requires k <= |Backups(files, db)|
    ensures var after := Without(files, Names(Backups(files, db)[k..]));
            && multiset(Managed(after, db)) == multiset(Backups(files, db)[..k])
            && Others(after, db) == Others(files, db)
            && DistinctNames(after)
  {
    var b := Backups(files, db);
    var gone := Names(b[k..]);
    PermutationDistinct(Managed(files, db), b);
    ManagedWithout(files, db, gone);
    WithoutTail(Managed(files, db), b, k);
    BackupNamesManaged(files, db, b[k..]);
    OthersWithout(files, db, gone);
  }

  /**
   * Count rule: of the database's files, exactly the `keep_last` newest
   * survive (all of them when there are fewer); no other file changes.
   */
  lemma CountPhaseKeepsNewest(files: seq<Artifact>, db: string, keep: nat)
    requires DistinctNames(files)
    ensures var b := Backups(files, db);
            var k := if keep < |b| then keep else |b|;
            && multiset(Managed(CountPhase(files, db, keep), db)) == multiset(b[..k])
            && |Managed(CountPhase(files, db, keep), db)| == k
            && Others(CountPhase(files, db, keep), db) == Others(files, db)
            && DistinctNames(CountPhase(files, db, keep))
  {
    var b := Backups(files, db);
    var k := if keep < |b| then keep else |b|;
    assert PastLimit(b, keep) == b[k..];
    DeleteTail(files, db, k);
    var m := Managed(CountPhase(files, db, keep), db);
    assert |m| == |multiset(m)|;
  }

  /**
   * Size rule: of the database's files, exactly the prefix the size loop
   * keeps survives; no other file changes.
   */
  lemma SizePhaseKeepsPrefix(files: seq<Artifact>, db: string, maxBytes: int)
    requires DistinctNames(files)
    ensures multiset(Managed(SizePhase(files, db, maxBytes), db)) ==
            multiset(SizePrune(Backups(files, db), maxBytes))
    ensures Others(SizePhase(files, db, maxBytes), db) == Others(files, db)
    ensures DistinctNames(SizePhase(files, db, maxBytes))
  {
    DeleteTail(files, db, |SizePrune(Backups(files, db), maxBytes)|);
  }

  /** A pass never touches a file the database's glob does not find. */
  lemma RetainLeavesOthers(files: seq<Artifact>, db: string, limits: Limits)
    requires DistinctNames(files)
    ensures Others(Retain(files, db, limits), db) == Others(files, db)
    ensures DistinctNames(Retain(files, db, limits))
  {
    CountPhaseKeepsNewest(files, db, limits.keepLast);
    SizePhaseKeepsPrefix(CountPhase(files, db, limits.keepLast), db, limits.maxBytes);
  }

  /**
   * After a pass at most `keep_last` files of the database remain, and either
   * their total size is within the bound or none remains.
   */
  lemma RetainBounds(files: seq<Artifact>, db: string, limits: Limits)
    requires DistinctNames(files)
    ensures |Managed(Retain(files, db, limits), db)| <= limits.keepLast
    ensures |Managed(Retain(files, db, limits), db)| <= |Managed(files, db)|
    ensures var left := Managed(Retain(files, db, limits), db);
            left == [] || Total(left) <= limits.maxBytes
  {
    var f1 := CountPhase(files, db, limits.keepLast);
    CountPhaseKeepsNewest(files, db, limits.keepLast);
    SizePhaseKeepsPrefix(f1, db, limits.maxBytes);
    var kept := SizePrune(Backups(f1, db), limits.maxBytes);
    var left := Managed(Retain(files, db, limits), db);
    assert |left| == |multiset(left)| == |multiset(kept)| == |kept|;
    assert |Backups(f1, db)| == |multiset(Managed(f1, db))|;
    assert |Backups(files, db)| == |multiset(Managed(files, db))|;
    TotalPermutation(left, kept);
  }

  lemma OrderedSplit(b: seq<Artifact>, k: nat, s: Artifact, d: Artifact)
    requires NewestFirstOrder(b) && k <= |b|
    requires s in b[..k] && d in b[k..]
    ensures s.mtime >= d.mtime
  {
    var i :| 0 <= i < k && b[i] == s;
    var j :| k <= j < |b| && b[j] == d;
  }

  /**
   * A file of the database survives a phase exactly when it is in the part
   * of that phase's listing the phase keeps.
   */
  lemma SurvivesPhase(files: seq<Artifact>, db: string, k: nat, a: Artifact)
    requires DistinctNames(files)
    requires k <= |Backups(files, db)|
    ensures a in Managed(Without(files, Names(Backups(files, db)[k..])), db) <==> a in Backups(files, db)[..k]
  {
    DeleteTail(files, db, k);
    assert a in multiset(Managed(Without(files, Names(Backups(files, db)[k..])), db)) <==> a in multiset(Backups(files, db)[..k]);
  }

  /**
   * Two newest-first listings, the second a reordering of a head of the
   * first: whatever is kept from the head of the second is no older than
   * anything of the first that was not kept.
   */
  lemma HeadOfHeadIsNewest(b0: seq<Artifact>, k: nat, b1: seq<Artifact>, j: nat, s: Artifact, d: Artifact)
    requires NewestFirstOrder(b0) && NewestFirstOrder(b1)
    requires k <= |b0| && j <= |b1| && multiset(b1) == multiset(b0[..k])
    requires s in b1[..j] && d in b0 && d !in b1[..j]
    ensures s.mtime >= d.mtime
  {
    assert s in multiset(b1);
    assert b0 == b0[..k] + b0[k..];
    if d in b0[k..] {
      OrderedSplit(b0, k, s, d);
    } else {
      assert d in multiset(b1);
      assert b1 == b1[..j] + b1[j..];
      OrderedSplit(b1, j, s, d);
    }
  }

  /**
   * Survivors are a prefix of the newest-first order: no file of the
   * database that survives a pass is older than one the pass deleted.
   */
  lemma RetainKeepsNewest(files: seq<Artifact>, db: string, limits: Limits, s: Artifact, d: Artifact)
    requires DistinctNames(files)
    requires s in Managed(Retain(files, db, limits), db)
    requires d in Managed(files, db) && d !in Managed(Retain(files, db, limits), db)
    ensures s.mtime >= d.mtime
  {
    var b0 := Backups(files, db);
    var k := if limits.keepLast < |b0| then limits.keepLast else |b0|;
    var f1 := CountPhase(files, db, limits.keepLast);
    var b1 := Backups(f1, db);
    var j := |SizePrune(b1, limits.maxBytes)|;
    CountedBackups(files, db, limits.keepLast);
    SurvivesPhase(f1, db, j, s);
    SurvivesPhase(f1, db, j, d);
    assert d in multiset(b0);
    HeadOfHeadIsNewest(b0, k, b1, j, s, d);
  }

  /** The re-listing after the count rule is a reordering of the head of the first listing. */
  lemma CountedBackups(files: seq<Artifact>, db: string, keep: nat)
    requires DistinctNames(files)
    ensures var b0 := Backups(files, db);
            var k := if keep < |b0| then keep else |b0|;
            && multiset(Backups(CountPhase(files, db, keep), db)) == multiset(b0[..k])
            && DistinctNames(CountPhase(files, db, keep))
  {
    CountPhaseKeepsNewest(files, db, keep);
  }

  /** `keep_last = 0` deletes every file of the database. */
  lemma KeepNoneDeletesAll(files: seq<Artifact>, db: string, maxBytes: int)
    requires DistinctNames(files)
    ensures Managed(Retain(files, db, Limits(0, maxBytes)), db) == []
  {
    RetainBounds(files, db, Limits(0, maxBytes));
  }

  /** A directory already within both limits is left as it is. */
  lemma WithinLimitsUnchanged(files: seq<Artifact>, db: string, limits: Limits)
    requires |Managed(files, db)| <= limits.keepLast
    requires Managed(files, db) == [] || Total(Managed(files, db)) <= limits.maxBytes
    ensures Retain(files, db, limits) == files
  {
    var b := Backups(files, db);
    assert |b| == |multiset(Managed(files, db))|;
    assert PastLimit(b, limits.keepLast) == [];
    assert Names([]) == {};
    WithoutNothing(files);
    TotalPermutation(b, Managed(files, db));
    if Managed(files, db) == [] {
      assert multiset(b) == multiset{};
    }
    assert SizePrune(b, limits.maxBytes) == b;
    assert b[|b|..] == [];
  }

  /** A second pass right after a first deletes nothing more. */
  lemma RetainIdempotent(files: seq<Artifact>, db: string, limits: Limits)
    requires DistinctNames(files)
    ensures Retain(Retain(files, db, limits), db, limits) == Retain(files, db, limits)
  {
    RetainBounds(files, db, limits);
    WithinLimitsUnchanged(Retain(files, db, limits), db, limits);
  }

  /**
   * When the newest `keep_last` files fit the byte bound, the size rule
   * deletes nothing and exactly `min(keep_last, N)` files of the database remain.
   */
  lemma RetainWithinBudget(files: seq<Artifact>, db: string, limits: Limits)
    requires DistinctNames(files)
    requires var b := Backups(files, db);
             Total(b[..if limits.keepLast < |b| then limits.keepLast else |b|]) <= limits.maxBytes
    ensures var n := |Managed(files, db)|;
            |Managed(Retain(files, db, limits), db)| == if limits.keepLast < n then limits.keepLast else n
  {
    var b0 := Backups(files, db);
    var k := if limits.keepLast < |b0| then limits.keepLast else |b0|;
    var f1 := CountPhase(files, db, limits.keepLast);
    CountPhaseKeepsNewest(files, db, limits.keepLast);
    var b1 := Backups(f1, db);
    TotalPermutation(b1, b0[..k]);
    assert SizePrune(b1, limits.maxBytes) == b1;
    SizePhaseKeepsPrefix(f1, db, limits.maxBytes);
    var left := Managed(Retain(files, db, limits), db);
    assert |left| == |multiset(left)| == |multiset(b1)|;
    assert |b0| == |multiset(Managed(files, db))|;
  }

  /** A filter that matches every file keeps the listing as it is. */
  lemma {:induction false} ManagedAll(s: seq<Artifact>, db: string)
    requires forall a :: a in s ==> IsManaged(db, a.name)
    ensures Managed(s, db) == s
    decreases |s|
  {
    if s != [] {
      assert s[0] in s;
      assert forall i :: 0 <= i < |s| - 1 ==> s[1..][i] == s[i + 1];
      ManagedAll(s[1..], db);
      ConsTail(s);
    }
  }

  lemma {:induction false} TotalUniform(s: seq<Artifact>, size: nat)
    requires forall i :: 0 <= i < |s| ==> s[i].size == size
    ensures Total(s) == size * |s|
    decreases |s|
  {
    if s != [] {
      var init := s[..|s| - 1];
      assert forall i :: 0 <= i < |init| ==> init[i] == s[i];
      TotalUniform(init, size);
    }
  }

  /**
   * The count-rule scenario of tests/test_backup_logic.py:56-78: five
   * 13-byte backups `test_db-<date>-<i>.sql.gz` (the test uses 18-01-2026)
   * with increasing modification times, under `keep_last: 2` and
   * `max_gb: 0.000001`.
   */
  function CountScenarioFiles(date: string): (files: seq<Artifact>)
    ensures |files| == 5
  {
    seq(5, i requires 0 <= i < 5 => Artifact(FileName("test_db", date, i), i, 13))
  }

  lemma CountScenarioDistinct(date: string)
    ensures DistinctNames(CountScenarioFiles(date))
  {
    var files := CountScenarioFiles(date);
    forall i, j | 0 <= i < j < |files| ensures files[i].name != files[j].name {
      TrailingNumberOfFileName("test_db", date, i);
      TrailingNumberOfFileName("test_db", date, j);
    }
  }

  lemma CountScenarioManaged(date: string)
    requires IsDateToken(date)
    ensures Managed(CountScenarioFiles(date), "test_db") == CountScenarioFiles(date)
  {
    var files := CountScenarioFiles(date);
    forall a | a in files ensures IsManaged("test_db", a.name) {
      var i :| 0 <= i < |files| && files[i] == a;
      FileNameIsManaged("test_db", date, i);
    }
    ManagedAll(files, "test_db");
  }

  /**
   * With every file of the database the same size, exactly
   * `min(keep_last, N)` files remain whenever that many fit the byte bound.
   */
  lemma RetainUniform(files: seq<Artifact>, db: string, limits: Limits, size: nat)
    requires DistinctNames(files)
    requires forall a :: a in Managed(files, db) ==> a.size == size
    requires var n := |Managed(files, db)|;
             size * (if limits.keepLast < n then limits.keepLast else n) <= limits.maxBytes
    ensures var n := |Managed(files, db)|;
            |Managed(Retain(files, db, limits), db)| == if limits.keepLast < n then limits.keepLast else n
  {
    var b := Backups(files, db);
    UniformBackups(files, db, size);
    var k := if limits.keepLast < |b| then limits.keepLast else |b|;
    assert forall i :: 0 <= i < k ==> b[..k][i] == b[i];
    TotalUniform(b[..k], size);
    RetainWithinBudget(files, db, limits);
  }

  lemma UniformBackups(files: seq<Artifact>, db: string, size: nat)
    requires forall a :: a in Managed(files, db) ==> a.size == size
    ensures |Backups(files, db)| == |Managed(files, db)|
    ensures forall i :: 0 <= i < |Backups(files, db)| ==> Backups(files, db)[i].size == size
  {
    var b := Backups(files, db);
    assert |b| == |multiset(b)|;
    forall i | 0 <= i < |b| ensures b[i].size == size {
      assert b[i] in multiset(b);
    }
  }

  /** Two backups remain after the pass in that scenario. */
  lemma CountScenarioKeepsTwo(date: string)
    requires IsDateToken(date)
    ensures |Managed(Retain(CountScenarioFiles(date), "test_db", Limits(2, 1073)), "test_db")| == 2
  {
    CountScenarioDistinct(date);
    CountScenarioManaged(date);
    RetainUniform(CountScenarioFiles(date), "test_db", Limits(2, 1073), 13);
  }
}
