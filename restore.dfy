/**
 * Resolving a restore reference `<host>/<artifact name or stem>`
 * (backup.py:193-220): which file to load, into which database, on which
 * server. The stored files are given as (host, file name) pairs.
 */
module Restore {
  import opened Wrappers
  import opened Text
  import opened Artifacts
  import opened Config

  datatype RestoreError =
    | InvalidReference
    | FileNotFound(host: string, file: string)
    | UnknownHost(host: string)

  /** What a resolved reference restores: the file of `host`, into database `db`, on `server`. */
  datatype RestorePlan = RestorePlan(host: string, file: string, db: string, server: Server)

  /** The file named by a reference: the extension is appended unless already there. */
  function WithExtension(name: string): (file: string)
    ensures EndsWith(file, Extension)
    ensures EndsWith(name, Extension) ==> file == name
    ensures !EndsWith(name, Extension) ==> file == name + Extension
  {
    if EndsWith(name, Extension) then name else name + Extension
  }

  /** The first server whose host is exactly `host`. */
  function FindServer(servers: seq<Server>, host: string): (r: Option<nat>)
    ensures r.Some? ==> r.value < |servers| && servers[r.value].host == host
    ensures r.Some? ==> forall i :: 0 <= i < r.value ==> servers[i].host != host
    ensures r.None? ==> forall i :: 0 <= i < |servers| ==> servers[i].host != host
    decreases |servers|
  {
    if servers == [] then None
    else if servers[0].host == host then Some(0)
    else match FindServer(servers[1..], host)
      case None => None
      case Some(i) => Some(i + 1)
  }

  /**
   * `restore_backup` up to the point where it starts the client: split the
   * reference at `/` (exactly two parts), check the file exists, take the
   * database name before the first `-`, find the server.
   */
  function ResolveReference(ref: string, stored: set<(string, string)>, servers: seq<Server>)
    : (r: Result<RestorePlan, RestoreError>)
    ensures r.Success? ==> ref == r.value.host + "/" + r.value.file || ref + Extension == r.value.host + "/" + r.value.file
    ensures r.Success? ==> '/' !in r.value.host && '/' !in r.value.file
    ensures r.Success? ==> (r.value.host, r.value.file) in stored && r.value.server in servers
    ensures r.Success? ==> r.value.server.host == r.value.host && '-' !in r.value.db
    ensures r.Failure? && r.error.FileNotFound? ==> (r.error.host, r.error.file) !in stored
  {
    var parts := Split(ref, '/');
    if |parts| != 2 then Failure(InvalidReference)
    else
      var host := parts[0];
      JoinSplit(ref, '/');
      assert Join(parts, '/') == parts[0] + ['/'] + parts[1];
      var file := WithExtension(parts[1]);
      if (host, file) !in stored then Failure(FileNotFound(host, file))
      else
        var db := FirstField(parts[1], '-');
        match FindServer(servers, host)
        case None => Failure(UnknownHost(host))
        case Some(i) => Success(RestorePlan(host, file, db, servers[i]))
  }

  /** A reference is malformed exactly when it does not hold exactly one `/`. */
  lemma InvalidIffNotOneSlash(ref: string, stored: set<(string, string)>, servers: seq<Server>)
    ensures ResolveReference(ref, stored, servers) == Failure(InvalidReference) <==> multiset(ref)['/'] != 1
  {
    SplitCount(ref, '/');
  }

  /** Appending the extension is idempotent. */
  lemma WithExtensionIdempotent(name: string)
    ensures WithExtension(WithExtension(name)) == WithExtension(name)
  {
  }

  /**
   * The checks come in the source's order: for a reference with one `/`, a
   * missing file is reported before an unknown host, and the plan takes the
   * first server with that host and the database name before the first `-`.
   */
  lemma ResolveWellFormed(ref: string, stored: set<(string, string)>, servers: seq<Server>)
    requires multiset(ref)['/'] == 1
    ensures var host, name := FirstField(ref, '/'), LastField(ref, '/');
            var file := WithExtension(name);
            var r := ResolveReference(ref, stored, servers);
            && ((host, file) !in stored ==> r == Failure(FileNotFound(host, file)))
            && ((host, file) in stored && (forall i :: 0 <= i < |servers| ==> servers[i].host != host) ==>
                  r == Failure(UnknownHost(host)))
            && ((host, file) in stored && (exists i :: 0 <= i < |servers| && servers[i].host == host) ==>
                  && r.Success? && r.value.host == host && r.value.file == file
                  && r.value.db == FirstField(name, '-')
                  && (exists i :: 0 <= i < |servers| && servers[i] == r.value.server
                             && forall k :: 0 <= k < i ==> servers[k].host != host))
  {
    SplitCount(ref, '/');
    var host := FirstField(ref, '/');
    var r := ResolveReference(ref, stored, servers);
    var found := FindServer(servers, host);
    if found.Some? {
      assert servers[found.value] == servers[found.value];
    }
  }

  /** No `/` occurs in a backup's file name. */
  lemma FileNameHasNoSlash(db: string, date: string, n: nat)
    requires '/' !in db && IsDateToken(date)
    ensures '/' !in FileName(db, date, n)
  {
    var digits := Decimal(n);
    assert forall i :: 0 <= i < |digits| ==> IsDigit(digits[i]);
    assert forall i :: 0 <= i < |date| ==> IsDigit(date[i]) || date[i] == '-';
  }

  /** The reference form `<db>-<date>-<n>` of a backup, without its extension. */
  function Stem(db: string, date: string, n: nat): (stem: string)
    ensures stem + Extension == FileName(db, date, n)
    ensures !EndsWith(stem, Extension)
  {
    var stem := db + "-" + date + "-" + Decimal(n);
    assert IsDigit(stem[|stem| - 1]);
    stem
  }

  /** A stem starts with the database name and a `-`, and holds no `/`. */
  lemma StemShape(db: string, date: string, n: nat)
    requires '/' !in db && IsDateToken(date)
    ensures var stem := Stem(db, date, n);
            && '/' !in stem && |stem| > |db| && stem[..|db|] == db && stem[|db|] == '-'
  {
    var stem := Stem(db, date, n);
    FileNameHasNoSlash(db, date, n);
    assert forall i :: 0 <= i < |stem| ==> stem[i] == FileName(db, date, n)[i];
    assert stem == db + "-" + (date + "-" + Decimal(n));
  }

  /** Extending a name keeps what it starts with. */
  lemma ExtendedShape(stem: string, db: string)
    requires '/' !in stem && |stem| > |db| && stem[..|db|] == db && stem[|db|] == '-'
    ensures var file := stem + Extension;
            && '/' !in file && |file| > |db| && file[..|db|] == db && file[|db|] == '-'
  {
    var file := stem + Extension;
    assert file[..|stem|] == stem;
    assert file[..|db|] == stem[..|db|];
  }

  /**
   * Round trip: for a database name without `-` or `/`, the reference
   * `<host>/<file name>` of a stored backup resolves to that file of that
   * host and to the database it was taken of.
   */
  lemma ResolveFileName(host: string, db: string, date: string, n: nat, stored: set<(string, string)>, servers: seq<Server>)
    requires '/' !in host && '/' !in db && '-' !in db && IsDateToken(date)
    requires (host, FileName(db, date, n)) in stored
    requires exists i :: 0 <= i < |servers| && servers[i].host == host
    ensures var r := ResolveReference(host + "/" + FileName(db, date, n), stored, servers);
            r.Success? && r.value.host == host && r.value.file == FileName(db, date, n) && r.value.db == db
  {
    var stem := Stem(db, date, n);
    StemShape(db, date, n);
    ExtendedShape(stem, db);
    ResolveNamed(host, stem + Extension, db, stored, servers);
  }

  /** The same round trip for the stem reference `<host>/<db>-<date>-<n>`, as backups are listed. */
  lemma ResolveStem(host: string, db: string, date: string, n: nat, stored: set<(string, string)>, servers: seq<Server>)
    requires '/' !in host && '/' !in db && '-' !in db && IsDateToken(date)
    requires (host, FileName(db, date, n)) in stored
    requires exists i :: 0 <= i < |servers| && servers[i].host == host
    ensures var r := ResolveReference(host + "/" + Stem(db, date, n), stored, servers);
            r.Success? && r.value.host == host && r.value.file == FileName(db, date, n) && r.value.db == db
  {
    StemShape(db, date, n);
    ResolveNamed(host, Stem(db, date, n), db, stored, servers);
  }

  /** The database name read from `<db>-<rest>` is `db` when `db` holds no `-`. */
  lemma ResolveNamed(host: string, name: string, db: string, stored: set<(string, string)>, servers: seq<Server>)
    requires '/' !in host && '/' !in name && '-' !in db
    requires |name| > |db| && name[..|db|] == db && name[|db|] == '-'
    requires (host, WithExtension(name)) in stored
    requires exists i :: 0 <= i < |servers| && servers[i].host == host
    ensures var r := ResolveReference(host + "/" + name, stored, servers);
            r.Success? && r.value.host == host && r.value.file == WithExtension(name) && r.value.db == db
  {
    var ref := host + "/" + name;
    assert ref == host + ['/'] + name;
    SplitAt(host, name, '/');
    SplitWithout(host, '/');
    SplitWithout(name, '/');
    assert name == db + ['-'] + name[|db| + 1..];
    FirstFieldAt(db, name[|db| + 1..], '-');
  }

  /**
   * The database name is cut at the first `-`: a backup of `my-db` restores
   * into `my`.
   */
  lemma DashedDatabaseName(host: string, stored: set<(string, string)>, servers: seq<Server>)
    requires '/' !in host
    requires (host, FileName("my-db", "18-01-2026", 1)) in stored
    requires exists i :: 0 <= i < |servers| && servers[i].host == host
    ensures var r := ResolveReference(host + "/" + FileName("my-db", "18-01-2026", 1), stored, servers);
            r.Success? && r.value.db == "my"
  {
    var name := FileName("my-db", "18-01-2026", 1);
    FileNameHasNoSlash("my-db", "18-01-2026", 1);
    ResolveNamed(host, name, "my", stored, servers);
  }
}
