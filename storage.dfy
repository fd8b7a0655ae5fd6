/**
 * One host's backup directory, `<storage>/<host>/`, as the object the backup
 * and retention code changes in place: a listing of files with distinct
 * names. `RunBackup` models `run_backup` (backup.py:97-174) with the dump
 * pipeline reduced to its outcome, and `ApplyRetention` models
 * `apply_retention` (backup.py:48-95).
 */
module Storage {
  import opened Artifacts
  import opened Listing
  import opened Policy
  import opened Retention
  import opened Sequencer

  /** Why the dump pipeline failed (backup.py:144-157, 166-169). */
  datatype DumpError =
    | ToolMissing              // `mariadb-dump` is not installed
    | ProducerFailed(stderr: string)
    | CompressionFailed
    | TimedOut(seconds: int)

  /** What the dump and compression processes produced. */
  datatype DumpOutcome = Completed(size: nat) | Failed(error: DumpError)

  /** The notification `run_backup` sends (backup.py:161-162, 171-172). */
  datatype Event = BackupSucceeded | BackupFailed(error: DumpError)

  /** The names of a listing, in order: what the sequencer's glob scans. */
  function NameList(files: seq<Artifact>): (r: seq<string>)
    ensures forall n :: n in r <==> n in Names(files)
  {
    var r := seq(|files|, i requires 0 <= i < |files| => files[i].name);
    assert forall n :: n in Names(files) ==> n in r by {
      forall n | n in Names(files) ensures n in r {
        var a :| a in files && a.name == n;
        var i :| 0 <= i < |files| && files[i] == a;
        assert r[i] == n;
      }
    }
    r
  }

  /** Before the first unlink nothing is deleted. */
  lemma CountLoopEntry(listed: seq<Artifact>, doomed: seq<Artifact>)
    ensures listed == Without(listed, Names(doomed[..0]))
  {
    WithoutNothing(listed);
    assert Names(doomed[..0]) == {};
  }

  /** Before the first pop nothing is deleted. */
  lemma SizeLoopEntry(counted: seq<Artifact>, listed: seq<Artifact>)
    ensures counted == Without(counted, Names(listed[|listed|..]))
  {
    WithoutNothing(counted);
    assert Names(listed[|listed|..]) == {};
  }

  /**
   * The files left after the size loop popped and unlinked `listed[k..]`,
   * the oldest first.
   */
  ghost function Popped(counted: seq<Artifact>, listed: seq<Artifact>, k: nat): seq<Artifact>
    requires k <= |listed|
    decreases |listed| - k
  {
    if k == |listed| then counted else Without(Popped(counted, listed, k + 1), {listed[k].name})
  }

  /** Popping one file at a time deletes exactly the popped names. */
  lemma {:induction false} PoppedIsWithout(counted: seq<Artifact>, listed: seq<Artifact>, k: nat)
    requires k <= |listed|
    ensures Popped(counted, listed, k) == Without(counted, Names(listed[k..]))
    decreases |listed| - k
  {
    if k == |listed| {
      SizeLoopEntry(counted, listed);
    } else {
      PoppedIsWithout(counted, listed, k + 1);
      UnlinkLast(counted, listed, k + 1);
    }
  }

  /** The size of the head `s[..k]`, summed from the newest file down. */
  ghost function HeadTotal(s: seq<Artifact>, k: nat): int
    requires k <= |s|
  {
    if k == 0 then 0 else HeadTotal(s, k - 1) + s[k - 1].size
  }

  /** How many files of the head `s[..k]` the size loop keeps. */
  ghost function HeadKept(s: seq<Artifact>, k: nat, maxBytes: int): nat
    requires k <= |s|
  {
    if k > 0 && HeadTotal(s, k) > maxBytes then HeadKept(s, k - 1, maxBytes) else k
  }

  lemma {:induction false} HeadTotalIsTotal(s: seq<Artifact>, k: nat)
    requires k <= |s|
    ensures HeadTotal(s, k) == Total(s[..k])
  {
    if k > 0 {
      HeadTotalIsTotal(s, k - 1);
      assert s[..k][..k - 1] == s[..k - 1];
    }
  }

  /** The loop's count agrees with the size rule of the retention model. */
  lemma {:induction false} HeadKeptIsSizePrune(s: seq<Artifact>, k: nat, maxBytes: int)
    requires k <= |s|
    ensures HeadKept(s, k, maxBytes) == |SizePrune(s[..k], maxBytes)|
  {
    HeadTotalIsTotal(s, k);
    if k > 0 && HeadTotal(s, k) > maxBytes {
      HeadKeptIsSizePrune(s, k - 1, maxBytes);
      assert s[..k][..k - 1] == s[..k - 1];
    }
  }

  /**
   * The state of the size loop after it popped `listed[k..]`: `total` is the
   * size of the head `listed[..k]`, the loop keeps as many files as it would
   * have from the start, and the popped files are deleted from `counted`.
   */
  ghost predicate PopState(counted: seq<Artifact>, listed: seq<Artifact>, k: nat,
                           total: int, files: seq<Artifact>, maxBytes: int)
  {
    && k <= |listed|
    && total == HeadTotal(listed, k)
    && HeadKept(listed, k, maxBytes) == HeadKept(listed, |listed|, maxBytes)
    && files == Popped(counted, listed, k)
  }

  /** Before the first pop. */
  lemma PopStart(counted: seq<Artifact>, listed: seq<Artifact>, maxBytes: int)
    ensures PopState(counted, listed, |listed|, Total(listed), counted, maxBytes)
  {
    HeadTotalIsTotal(listed, |listed|);
    assert listed[..|listed|] == listed;
  }

  /**
   * One pass of the size loop: the popped file, the oldest of the kept head,
   * is still present; the total drops by its size; the number of files the
   * loop keeps is unchanged.
   */
  lemma PopStep(counted: seq<Artifact>, listed: seq<Artifact>, k: nat,
                total: int, files: seq<Artifact>, maxBytes: int)
    requires DistinctNames(listed) && forall a :: a in listed ==> a in counted
    requires PopState(counted, listed, k, total, files, maxBytes)
    requires k > 0 && total > maxBytes
    ensures listed[k - 1].name in Names(files)
    ensures PopState(counted, listed, k - 1, total - listed[k - 1].size,
                     Without(files, {listed[k - 1].name}), maxBytes)
  {
    PoppedIsWithout(counted, listed, k);
    LastStillPresent(counted, listed, k);
  }

  /** When the loop stops, the head it kept is what the size rule keeps. */
  lemma PopEnd(counted: seq<Artifact>, listed: seq<Artifact>, k: nat,
               total: int, files: seq<Artifact>, maxBytes: int)
    requires PopState(counted, listed, k, total, files, maxBytes)
    requires !(total > maxBytes && k > 0)
    ensures files == Without(counted, Names(listed[|SizePrune(listed, maxBytes)|..]))
  {
    HeadKeptIsSizePrune(listed, |listed|, maxBytes);
    assert listed[..|listed|] == listed;
    PoppedIsWithout(counted, listed, k);
  }

  class HostDirectory {
    var files: seq<Artifact>

    /** A directory never holds two files of the same name. */
    ghost predicate Valid()
      reads this
    {
      DistinctNames(files)
    }

    constructor (listing: seq<Artifact>)
      requires DistinctNames(listing)
      ensures Valid() && files == listing
    {
      files := listing;
    }

    /** `Path.unlink`: the file must exist, and afterwards it is gone. */
    method Unlink(name: string)
      requires Valid() && name in Names(files)
      modifies this
      ensures Valid()
      ensures files == Without(old(files), {name})
    {
      files := Without(files, {name});
    }

    /**
     * `apply_retention(config, host, db)`: the count rule, then the size rule
     * on a fresh listing. Every file it unlinks exists at that point.
     */
    method ApplyRetention(db: string, config: RetentionConfig)
      requires Valid()
      modifies this
      ensures Valid()
      ensures files == Retain(old(files), db, LimitsOf(PolicyFor(config, db)))
    {
      var limits := LimitsOf(PolicyFor(config, db));
      ApplyCountRule(db, limits.keepLast);
      ApplySizeRule(db, limits.maxBytes);
    }

    /** backup.py:61-70: unlink every file of `db` past the `keep` newest. */
    method ApplyCountRule(db: string, keep: nat)
      requires Valid()
      modifies this
      ensures Valid()
      ensures files == CountPhase(old(files), db, keep)
    {
      var backups := NewestFirst(Managed(files, db));
      BackupsFromListing(files, db);
      var toDelete := PastLimit(backups, keep);
      SuffixDistinct(backups, |backups| - |toDelete|);
      assert toDelete == backups[|backups| - |toDelete|..];
      UnlinkAll(toDelete);
    }

    /** backup.py:68-69: unlink each file of `doomed`, in order; each is present when its turn comes. */
    method UnlinkAll(doomed: seq<Artifact>)
      requires Valid() && DistinctNames(doomed)
      requires forall a :: a in doomed ==> a in files
      modifies this
      ensures Valid()
      ensures files == Without(old(files), Names(doomed))
    {
      ghost var listed := files;
      CountLoopEntry(listed, doomed);
      for i := 0 to |doomed|
        invariant Valid()
        invariant files == Without(listed, Names(doomed[..i]))
      {
        NextStillPresent(listed, doomed, i);
        UnlinkNext(listed, doomed, i);
        Unlink(doomed[i].name);
      }
      assert doomed[..|doomed|] == doomed;
    }

    /**
     * backup.py:73-95: list `db`'s files again, newest first, and unlink the
     * oldest while their total size exceeds `maxBytes` and one remains.
     */
    method ApplySizeRule(db: string, maxBytes: int)
      requires Valid()
      modifies this
      ensures Valid()
      ensures files == SizePhase(old(files), db, maxBytes)
    {
      var backups := NewestFirst(Managed(files, db));
      BackupsFromListing(files, db);
      PopOldest(backups, maxBytes);
    }

    /**
     * backup.py:80, 91-95: with the running total of `listed`, pop and unlink
     * its last, oldest file while the total exceeds `maxBytes`.
     */
    method PopOldest(listed: seq<Artifact>, maxBytes: int)
      requires Valid() && DistinctNames(listed)
      requires forall a :: a in listed ==> a in files
      modifies this
      ensures Valid()
      ensures files == Without(old(files), Names(listed[|SizePrune(listed, maxBytes)|..]))
    {
      var backups := listed;
      var total := Total(backups);
      ghost var counted := files;
      PopStart(counted, listed, maxBytes);
      while total > maxBytes && backups != []
        invariant Valid()
        invariant |backups| <= |listed|
        invariant forall i :: 0 <= i < |backups| ==> backups[i] == listed[i]
        invariant PopState(counted, listed, |backups|, total, files, maxBytes)
        decreases |backups|
      {
        PopStep(counted, listed, |backups|, total, files, maxBytes);
        var oldest := backups[|backups| - 1];
        backups := backups[..|backups| - 1];
        total := total - oldest.size;
        Unlink(oldest.name);
      }
      PopEnd(counted, listed, |backups|, total, files, maxBytes);
    }

    /**
     * `run_backup` for database `db` on day `date` at time `mtime`: the new
     * file is named with the next sequence number and created; if the dump
     * completes it holds the dump and retention runs, otherwise it is removed.
     */
    method RunBackup(db: string, date: string, mtime: int, outcome: DumpOutcome, config: RetentionConfig)
      returns (name: string, event: Event)
      requires Valid()
      modifies this
      ensures Valid()
      ensures name == FileName(db, date, NextNumber(NameList(old(files)), db, date))
      ensures name !in Names(old(files))
      ensures event == if outcome.Completed? then BackupSucceeded else BackupFailed(outcome.error)
      ensures outcome.Completed? ==>
                files == Retain(old(files) + [Artifact(name, mtime, outcome.size)], db, LimitsOf(PolicyFor(config, db)))
      ensures outcome.Failed? ==> files == old(files)
    {
      var n := NextSequence(NameList(files), db, date);
      name := FileName(db, date, n);
      NextFileNameIsFresh(NameList(files), db, date);
      ghost var before := files;
      DistinctAppend(files, Artifact(name, mtime, 0));
      files := files + [Artifact(name, mtime, 0)];
      match outcome {
        case Completed(size) =>
          assert files[..|files| - 1] == before;
          DistinctAppend(before, Artifact(name, mtime, size));
          files := files[..|files| - 1] + [Artifact(name, mtime, size)];
          event := BackupSucceeded;
          ApplyRetention(db, config);
        case Failed(error) =>
          event := BackupFailed(error);
          NamesAppend(before, Artifact(name, mtime, 0));
          Unlink(name);
          WithoutAppend(before, Artifact(name, mtime, 0), {name});
          WithoutAbsent(before, {name});
      }
    }
  }
}
