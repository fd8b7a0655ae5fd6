/**
 * Listings of a host directory: filtering by the retention glob, the stable
 * newest-first sort `sorted(..., key=os.path.getmtime, reverse=True)`,
 * removal of files by name, and total size.
 */
module Listing {
  import opened Artifacts

  /** The names present in a listing. */
  function Names(s: seq<Artifact>): set<string> {
    set a | a in s :: a.name
  }

  /** No two files of a listing share a name, as in one directory. */
  predicate DistinctNames(s: seq<Artifact>) {
    forall i, j :: 0 <= i < j < |s| ==> s[i].name != s[j].name
  }

  /** Ordered newest first by modification time. */
  predicate NewestFirstOrder(s: seq<Artifact>) {
    forall i, j :: 0 <= i < j < |s| ==> s[i].mtime >= s[j].mtime
  }

  /** The files the retention glob of `db` finds, in listing order. */
  function Managed(s: seq<Artifact>, db: string): (r: seq<Artifact>)
    ensures forall a :: a in r <==> a in s && IsManaged(db, a.name)
    ensures DistinctNames(s) ==> DistinctNames(r)
    decreases |s|
  {
    if s == [] then []
    else
      var rest := Managed(s[1..], db);
      if IsManaged(db, s[0].name) then
        DistinctCons(s[0], rest);
        [s[0]] + rest
      else rest
  }

  /** The files the retention glob of `db` does not find, in listing order. */
  function Others(s: seq<Artifact>, db: string): (r: seq<Artifact>)
    ensures forall a :: a in r <==> a in s && !IsManaged(db, a.name)
    decreases |s|
  {
    if s == [] then []
    else (if IsManaged(db, s[0].name) then [] else [s[0]]) + Others(s[1..], db)
  }

  /** The listing after the files named in `gone` are deleted; order is kept. */
  function Without(s: seq<Artifact>, gone: set<string>): (r: seq<Artifact>)
    ensures forall a :: a in r <==> a in s && a.name !in gone
    ensures |r| <= |s|
    ensures DistinctNames(s) ==> DistinctNames(r)
    decreases |s|
  {
    if s == [] then []
    else
      var rest := Without(s[1..], gone);
      if s[0].name in gone then rest
      else
        DistinctCons(s[0], rest);
        [s[0]] + rest
  }

  /** `sum(f.stat().st_size for f in s)`. */
  function Total(s: seq<Artifact>): nat
    decreases |s|
  {
    if s == [] then 0 else Total(s[..|s| - 1]) + s[|s| - 1].size
  }

  /**
   * Places `x`, listed before every element of `s`, into the newest-first
   * listing `s`: after the strictly newer files and before the rest, so that
   * files of equal age keep their listing order.
   */
  function Insert(x: Artifact, s: seq<Artifact>): (r: seq<Artifact>)
    requires NewestFirstOrder(s)
    ensures NewestFirstOrder(r)
    ensures multiset(r) == multiset(s) + multiset{x}
    decreases |s|
  {
    if s == [] then [x]
    else if s[0].mtime <= x.mtime then
      HeadIsNewest(s);
      SortedCons(x, s);
      [x] + s
    else
      var rest := Insert(x, s[1..]);
      HeadIsNewest(s);
      TailMultiset(s);
      InsertedBelowHead(x, s, rest);
      SortedCons(s[0], rest);
      [s[0]] + rest
  }

  /** The head of a newest-first listing is at least as new as every file in it. */
  lemma HeadIsNewest(s: seq<Artifact>)
    requires NewestFirstOrder(s) && s != []
    ensures forall a :: a in s ==> a.mtime <= s[0].mtime
  {
    forall a | a in s ensures a.mtime <= s[0].mtime {
      var j :| 0 <= j < |s| && s[j] == a;
    }
  }

  lemma ConsTail(s: seq<Artifact>)
    requires s != []
    ensures s == [s[0]] + s[1..]
  {
  }

  /** A listing is its head followed by its tail. */
  lemma TailMultiset(s: seq<Artifact>)
    requires s != []
    ensures multiset(s) == multiset{s[0]} + multiset(s[1..])
  {
    assert s == [s[0]] + s[1..];
  }

  /** Inserting an older file into the tail keeps every file no newer than the head. */
  lemma InsertedBelowHead(x: Artifact, s: seq<Artifact>, rest: seq<Artifact>)
    requires s != [] && x.mtime < s[0].mtime
    requires forall a :: a in s ==> a.mtime <= s[0].mtime
    requires multiset(rest) == multiset(s[1..]) + multiset{x}
    ensures forall a :: a in rest ==> a.mtime <= s[0].mtime
  {
    forall a | a in rest ensures a.mtime <= s[0].mtime {
      assert a in multiset(rest);
      if a != x {
        assert a in s[1..];
        assert a in s;
      }
    }
  }

  /** Putting a file no older than any in a newest-first listing at its head keeps the order. */
  lemma SortedCons(h: Artifact, t: seq<Artifact>)
    requires NewestFirstOrder(t)
    requires forall a :: a in t ==> a.mtime <= h.mtime
    ensures NewestFirstOrder([h] + t)
  {
    var r := [h] + t;
    forall i, j | 0 <= i < j < |r| ensures r[i].mtime >= r[j].mtime {
      assert r[j] == t[j - 1];
      if i > 0 {
        assert r[i] == t[i - 1];
      } else {
        assert r[j] in t;
      }
    }
  }

  /** The stable newest-first sort of a listing. */
  function NewestFirst(s: seq<Artifact>): (r: seq<Artifact>)
    ensures NewestFirstOrder(r)
    ensures multiset(r) == multiset(s)
    decreases |s|
  {
    if s == [] then []
    else
      TailMultiset(s);
      Insert(s[0], NewestFirst(s[1..]))
  }

  /** Reordering a listing keeps its names. */
  lemma PermutationNames(s: seq<Artifact>, t: seq<Artifact>)
    requires multiset(s) == multiset(t)
    ensures Names(s) == Names(t)
  {
    forall n | n in Names(s) ensures n in Names(t) {
      var a :| a in s && a.name == n;
      assert a in multiset(t);
    }
    forall n | n in Names(t) ensures n in Names(s) {
      var a :| a in t && a.name == n;
      assert a in multiset(s);
    }
  }

  /** Reordering a directory listing keeps its names distinct. */
  lemma PermutationDistinct(s: seq<Artifact>, t: seq<Artifact>)
    requires multiset(s) == multiset(t) && DistinctNames(s)
    ensures DistinctNames(t)
  {
    forall i, j | 0 <= i < j < |t| ensures t[i].name != t[j].name {
      if t[i] == t[j] {
        assert t == t[..j] + t[j..];
        assert t[i] in t[..j] && t[j] in t[j..];
        assert multiset(t)[t[i]] == multiset(t[..j])[t[i]] + multiset(t[j..])[t[i]];
        DistinctOnce(s, t[i]);
      } else {
        assert t[i] in multiset(s) && t[j] in multiset(s);
        var p :| 0 <= p < |s| && s[p] == t[i];
        var q :| 0 <= q < |s| && s[q] == t[j];
        assert p != q;
      }
    }
  }

  /** A listing with a head is distinct exactly when its tail is and the head's name is new. */
  lemma DistinctCons(x: Artifact, s: seq<Artifact>)
    ensures DistinctNames([x] + s) <==> DistinctNames(s) && x.name !in Names(s)
  {
    var t := [x] + s;
    assert forall i :: 0 <= i < |s| ==> t[i + 1] == s[i];
    if DistinctNames(s) && x.name !in Names(s) {
      forall i, j | 0 <= i < j < |t| ensures t[i].name != t[j].name {
        if i == 0 {
          assert t[j] in s;
        }
      }
    }
    if DistinctNames(t) {
      assert DistinctNames(s);
      forall a | a in s ensures a.name != x.name {
        var k :| 0 <= k < |s| && s[k] == a;
        assert t[k + 1] == a && t[0] == x;
      }
    }
  }

  // ---------------------------------------------------------------------
  // Lemmas

  /** Deleting by name removes every copy of a deleted name and nothing else. */
  lemma {:induction false} WithoutCount(s: seq<Artifact>, gone: set<string>, a: Artifact)
    ensures multiset(Without(s, gone))[a] == if a.name in gone then 0 else multiset(s)[a]
    decreases |s|
  {
    if s != [] {
      WithoutCount(s[1..], gone, a);
      TailMultiset(s);
    }
  }

  /** Two deletion passes are one deletion of both name sets. */
  lemma {:induction false} WithoutWithout(s: seq<Artifact>, g1: set<string>, g2: set<string>)
    ensures Without(Without(s, g1), g2) == Without(s, g1 + g2)
    decreases |s|
  {
    if s != [] {
      WithoutWithout(s[1..], g1, g2);
    }
  }

  lemma {:induction false} WithoutNothing(s: seq<Artifact>)
    ensures Without(s, {}) == s
    decreases |s|
  {
    if s != [] {
      WithoutNothing(s[1..]);
    }
  }

  /** Deleting and then globbing is globbing and then deleting. */
  lemma {:induction false} ManagedWithout(s: seq<Artifact>, db: string, gone: set<string>)
    ensures Managed(Without(s, gone), db) == Without(Managed(s, db), gone)
    decreases |s|
  {
    if s != [] {
      ManagedWithout(s[1..], db, gone);
    }
  }

  /** Deleting only names the glob finds leaves every other file where it was. */
  lemma {:induction false} OthersWithout(s: seq<Artifact>, db: string, gone: set<string>)
    requires forall n :: n in gone ==> IsManaged(db, n)
    ensures Others(Without(s, gone), db) == Others(s, db)
    decreases |s|
  {
    if s != [] {
      OthersWithout(s[1..], db, gone);
    }
  }

  lemma {:induction false} TotalAppend(s: seq<Artifact>, t: seq<Artifact>)
    ensures Total(s + t) == Total(s) + Total(t)
    decreases |t|
  {
    if t == [] {
      assert s + t == s;
    } else {
      assert (s + t)[..|s + t| - 1] == s + t[..|t| - 1];
      assert (s + t)[|s + t| - 1] == t[|t| - 1];
      TotalAppend(s, t[..|t| - 1]);
    }
  }

  /** Taking the file at index `i` out of a listing removes one copy of it. */
  lemma TakeOutMultiset(t: seq<Artifact>, i: nat)
    requires i < |t|
    ensures multiset(t[..i] + t[i + 1..]) == multiset(t) - multiset{t[i]}
  {
    Splice(t, i);
  }

  lemma Splice(t: seq<Artifact>, i: nat)
    requires i < |t|
    ensures t == t[..i] + [t[i]] + t[i + 1..]
  {
  }

  /** Taking the file at index `i` out of a listing removes its size from the total. */
  lemma TakeOutTotal(t: seq<Artifact>, i: nat)
    requires i < |t|
    ensures Total(t) == Total(t[..i] + t[i + 1..]) + t[i].size
  {
    var a, x, b := t[..i], t[i], t[i + 1..];
    calc {
      Total(t);
      == { Splice(t, i); }
      Total(a + [x] + b);
      == { TotalSplice(a, x, b); }
      Total(a + b) + x.size;
    }
  }

  lemma TotalSplice(a: seq<Artifact>, x: Artifact, b: seq<Artifact>)
    ensures Total(a + [x] + b) == Total(a + b) + x.size
  {
    TotalAppend(a + [x], b);
    assert (a + [x])[..|a|] == a;
    TotalAppend(a, b);
  }

  /** The total size does not depend on the listing order. */
  lemma {:induction false} TotalPermutation(s: seq<Artifact>, t: seq<Artifact>)
    requires multiset(s) == multiset(t)
    ensures Total(s) == Total(t)
    decreases |s|
  {
    if s != [] {
      var init, x := s[..|s| - 1], s[|s| - 1];
      assert s == init + [x];
      assert x in multiset(t);
      var i :| 0 <= i < |t| && t[i] == x;
      TakeOutMultiset(t, i);
      TakeOutTotal(t, i);
      assert multiset(init) == multiset(s) - multiset{x};
      TotalPermutation(init, t[..i] + t[i + 1..]);
    }
  }

  /** In a distinct listing, no name of a head recurs in the tail. */
  lemma HeadTailDisjoint(b: seq<Artifact>, k: nat, a: Artifact)
    requires DistinctNames(b) && k <= |b| && a in b[..k]
    ensures a.name !in Names(b[k..])
  {
    var i :| 0 <= i < k && b[i] == a;
    forall c | c in b[k..] ensures c.name != a.name {
      var j :| k <= j < |b| && b[j] == c;
    }
  }

  /** In a distinct listing, no name of the tail occurs in the head. */
  lemma TailHeadDisjoint(b: seq<Artifact>, k: nat, a: Artifact)
    requires DistinctNames(b) && k <= |b| && a in b[k..]
    ensures a.name !in Names(b[..k])
  {
    var j :| k <= j < |b| && b[j] == a;
    forall c | c in b[..k] ensures c.name != a.name {
      var i :| 0 <= i < k && b[i] == c;
    }
  }

  /**
   * Deleting the names of the tail `b[k..]` of a distinct reordering `b` of a
   * listing leaves exactly the files of the head `b[..k]`.
   */
  lemma WithoutTail(m: seq<Artifact>, b: seq<Artifact>, k: nat)
    requires multiset(b) == multiset(m) && DistinctNames(b) && k <= |b|
    ensures multiset(Without(m, Names(b[k..]))) == multiset(b[..k])
  {
    var w, h := multiset(Without(m, Names(b[k..]))), multiset(b[..k]);
    forall a ensures w[a] == h[a] {
      WithoutTailCount(m, b, k, a);
    }
    MultisetExt(w, h);
  }

  lemma MultisetExt(x: multiset<Artifact>, y: multiset<Artifact>)
    requires forall a :: x[a] == y[a]
    ensures x == y
  {
  }

  lemma WithoutTailCount(m: seq<Artifact>, b: seq<Artifact>, k: nat, a: Artifact)
    requires multiset(b) == multiset(m) && DistinctNames(b) && k <= |b|
    ensures multiset(Without(m, Names(b[k..])))[a] == multiset(b[..k])[a]
  {
    var gone := Names(b[k..]);
    assert multiset(b) == multiset(b[..k]) + multiset(b[k..]) by { assert b == b[..k] + b[k..]; }
    WithoutCount(m, gone, a);
    if a in b[..k] {
      HeadTailDisjoint(b, k, a);
    }
    if a.name !in gone {
      assert a !in b[k..];
    }
  }


  /** In a distinct listing no file occurs twice. */
  lemma {:induction false} DistinctOnce(s: seq<Artifact>, a: Artifact)
    requires DistinctNames(s)
    ensures multiset(s)[a] <= 1
    decreases |s|
  {
    if s != [] {
      DistinctCons(s[0], s[1..]);
      assert s == [s[0]] + s[1..];
      DistinctOnce(s[1..], a);
      if a == s[0] {
        assert a.name in Names([a]);
        assert a !in s[1..];
      }
    }
  }

  lemma NamesAppend(s: seq<Artifact>, x: Artifact)
    ensures Names(s + [x]) == Names(s) + {x.name}
  {
    assert forall a :: a in s + [x] <==> a in s || a == x;
  }

  lemma NamesCons(x: Artifact, s: seq<Artifact>)
    ensures Names([x] + s) == {x.name} + Names(s)
  {
    assert forall a :: a in [x] + s <==> a == x || a in s;
  }

  /** Adding a file with a new name to a directory keeps its names distinct. */
  lemma DistinctAppend(s: seq<Artifact>, x: Artifact)
    requires DistinctNames(s) && x.name !in Names(s)
    ensures DistinctNames(s + [x])
  {
    var t := s + [x];
    forall i, j | 0 <= i < j < |t| ensures t[i].name != t[j].name {
      if j == |s| {
        assert t[i] in s;
      } else {
        assert t[i] == s[i] && t[j] == s[j];
      }
    }
  }

  /** Deleting by name from a listing with one more file at its end. */
  lemma {:induction false} WithoutAppend(s: seq<Artifact>, x: Artifact, gone: set<string>)
    ensures Without(s + [x], gone) == Without(s, gone) + (if x.name in gone then [] else [x])
    decreases |s|
  {
    if s == [] {
      assert [x][1..] == [];
    } else {
      assert (s + [x])[1..] == s[1..] + [x];
      WithoutAppend(s[1..], x, gone);
    }
  }

  /** Deleting names that are not present changes nothing. */
  lemma {:induction false} WithoutAbsent(s: seq<Artifact>, gone: set<string>)
    requires forall n :: n in gone ==> n !in Names(s)
    ensures Without(s, gone) == s
    decreases |s|
  {
    if s != [] {
      assert s[0].name in Names(s);
      assert Names(s[1..]) <= Names(s) by {
        forall n | n in Names(s[1..]) ensures n in Names(s) {
          var a :| a in s[1..] && a.name == n;
          assert a in s;
        }
      }
      WithoutAbsent(s[1..], gone);
      ConsTail(s);
    }
  }

  /** A suffix of a distinct listing is distinct. */
  lemma SuffixDistinct(s: seq<Artifact>, k: nat)
    requires DistinctNames(s) && k <= |s|
    ensures DistinctNames(s[k..])
  {
    forall i, j | 0 <= i < j < |s| - k ensures s[k..][i].name != s[k..][j].name {
      assert s[k..][i] == s[k + i] && s[k..][j] == s[k + j];
    }
  }

  /** While the files of `doomed` are unlinked in order, the next one is still present. */
  lemma NextStillPresent(listed: seq<Artifact>, doomed: seq<Artifact>, i: nat)
    requires DistinctNames(doomed) && i < |doomed|
    requires forall a :: a in doomed ==> a in listed
    ensures doomed[i].name in Names(Without(listed, Names(doomed[..i])))
  {
    var f := doomed[i];
    assert f in doomed[i..];
    TailHeadDisjoint(doomed, i, f);
    assert f in Without(listed, Names(doomed[..i]));
  }

  /** Unlinking the next file of `doomed` extends the removed names by its own. */
  lemma UnlinkNext(listed: seq<Artifact>, doomed: seq<Artifact>, i: nat)
    requires i < |doomed|
    ensures Without(Without(listed, Names(doomed[..i])), {doomed[i].name}) == Without(listed, Names(doomed[..i + 1]))
  {
    var f := doomed[i];
    var done := doomed[..i];
    assert doomed[..i + 1] == done + [f];
    NamesAppend(done, f);
    WithoutWithout(listed, Names(done), {f.name});
  }

  /** While `kept` is popped from its end, the last file of the head `kept[..k]` is still present. */
  lemma LastStillPresent(listed: seq<Artifact>, kept: seq<Artifact>, k: nat)
    requires DistinctNames(kept) && 0 < k <= |kept|
    requires forall a :: a in kept ==> a in listed
    ensures kept[k - 1].name in Names(Without(listed, Names(kept[k..])))
  {
    var f := kept[k - 1];
    assert f in kept[..k];
    HeadTailDisjoint(kept, k, f);
    assert f in Without(listed, Names(kept[k..]));
  }

  /** Unlinking the last file of the head `kept[..k]` extends the removed names by its own. */
  lemma UnlinkLast(listed: seq<Artifact>, kept: seq<Artifact>, k: nat)
    requires 0 < k <= |kept|
    ensures Without(Without(listed, Names(kept[k..])), {kept[k - 1].name}) == Without(listed, Names(kept[k - 1..]))
  {
    SuffixNames(kept, k);
    WithoutWithout(listed, Names(kept[k..]), {kept[k - 1].name});
  }

  /** The names of a suffix one longer. */
  lemma SuffixNames(kept: seq<Artifact>, k: nat)
    requires 0 < k <= |kept|
    ensures Names(kept[k - 1..]) == Names(kept[k..]) + {kept[k - 1].name}
  {
    assert kept[k - 1..] == [kept[k - 1]] + kept[k..];
    NamesCons(kept[k - 1], kept[k..]);
  }

  /** A newest-first listing of the glob's files: distinct, and drawn from the directory. */
  lemma BackupsFromListing(files: seq<Artifact>, db: string)
    requires DistinctNames(files)
    ensures DistinctNames(NewestFirst(Managed(files, db)))
    ensures forall a :: a in NewestFirst(Managed(files, db)) ==> a in files
  {
    var b := NewestFirst(Managed(files, db));
    PermutationDistinct(Managed(files, db), b);
    forall a | a in b ensures a in files {
      assert a in multiset(b);
    }
  }
}
