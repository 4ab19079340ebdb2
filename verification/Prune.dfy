/** Deleting old versions (internal/certwriter/prune.go). */
module Prune {
  import opened Basics
  import opened Ordering
  import opened CertWriter
  import opened HubStore
  import Integrity

  const KEEP_VERSIONS := 3

  /** The names that sort after `v`. */
  function Above(names: set<string>, v: string): set<string>
  {
    set w | w in names && Less(v, w)
  }

  /** Prune may not touch `v`: it is one of the newest by name, or what `current` points at. */
  predicate Kept(d: Dir, v: string)
  {
    |Above(d.versions.Keys, v)| < KEEP_VERSIONS || d.current == Link(v)
  }

  /** No version and no file is new. */
  ghost predicate Fewer(d: Dir, d': Dir)
  {
    forall v :: v in d'.versions ==> v in d.versions && d'.versions[v].Keys <= d.versions[v].Keys
  }

  /** What a Prune may leave, wherever it stopped. */
  ghost predicate AfterPrune(d: Dir, d': Dir)
  {
    && d'.current == d.current && d'.tmpLink == d.tmpLink
    && Fewer(d, d')
    && forall v :: v in d.versions && Kept(d, v) ==> v in d'.versions && d'.versions[v] == d.versions[v]
  }

  /** What a Prune that ran to its end leaves: exactly the kept versions. */
  function Pruned(d: Dir): Dir
  {
    d.(versions := map v | v in d.versions && Kept(d, v) :: d.versions[v])
  }

  /** In a sorted list of the names, the ones above the i-th are those after it. */
  lemma AboveInOrder(names: seq<string>, i: nat)
    requires StrictlySorted(names, Less) && i < |names|
    ensures |Above(Elements(names), names[i])| == |names| - 1 - i
  {
    var rest := names[i + 1..];
    forall j | 0 <= j < |names| ensures Less(names[i], names[j]) <==> j > i {
      if j < i { LessAsymmetric(names[j], names[i]); }
      LessIrreflexive(names[i]);
    }
    forall n | n in names && Less(names[i], n) ensures n in rest {
      var j :| 0 <= j < |names| && names[j] == n;
      assert rest[j - i - 1] == n;
    }
    assert Above(Elements(names), names[i]) == Elements(rest);
    SortedSize(rest);
  }

  lemma SortedSize(s: seq<string>)
    requires StrictlySorted(s, Less)
    ensures |Elements(s)| == |s|
  {
    forall a, b | 0 <= a < b < |s| ensures s[a] != s[b] { LessIrreflexive(s[a]); }
    DistinctSize(s);
  }

  lemma {:induction false} DistinctSize(s: seq<string>)
    requires forall a, b :: 0 <= a < b < |s| ==> s[a] != s[b]
    ensures |Elements(s)| == |s|
  {
    if s == [] {
      assert Elements(s) == {};
    } else {
      DistinctSize(s[1..]);
      assert Elements(s) == {s[0]} + Elements(s[1..]);
    }
  }

  /** Nothing but version `v` differs, and it got no file. */
  predicate SameBut(d: Dir, d': Dir, v: string)
  {
    && d'.current == d.current && d'.tmpLink == d.tmpLink
    && d'.versions - {v} == d.versions - {v}
    && (v in d'.versions ==> v in d.versions && d'.versions[v].Keys <= d.versions[v].Keys)
  }

  lemma SameButChains(d: Dir, d': Dir, d'': Dir, v: string)
    requires SameBut(d, d', v) && SameBut(d', d'', v)
    ensures SameBut(d, d'', v)
  {
  }

  /** os.RemoveAll of one version: its files in some order, then the directory. */
  method RemoveAll(disk: Disk, v: string) returns (ok: bool)
    modifies disk
    ensures SameBut(old(disk.dir), disk.dir, v)
    ensures ok ==> v !in disk.dir.versions
    ensures old(Calm(disk)) && v in old(disk.dir).versions ==> ok && Calm(disk)
  {
    if v !in disk.dir.versions { return true; }
    ghost var d := disk.dir;
    while disk.dir.versions[v] != map[]
      invariant v in disk.dir.versions && SameBut(d, disk.dir, v)
      invariant old(Calm(disk)) ==> Calm(disk)
      decreases |disk.dir.versions[v]|
    {
      var files := disk.dir.versions[v];
      assert files.Keys != {};
      var f :| f in files.Keys;
      ghost var before := disk.dir;
      ok := disk.Call(RemoveFile(v, f));
      assert (files - {f}).Keys == files.Keys - {f};
      assert SameBut(before, disk.dir, v);
      SameButChains(d, before, disk.dir, v);
      if !ok { return false; }
    }
    ghost var before := disk.dir;
    ok := disk.Call(RemoveVersion(v));
    assert SameBut(before, disk.dir, v);
    SameButChains(d, before, disk.dir, v);
  }

  /** readCurrentVersion: the empty string when `current` is absent, an error when it is no link. */
  method ReadCurrentVersion(disk: Disk) returns (version: Option<string>)
    modifies disk
    ensures disk.dir == old(disk.dir)
    ensures version.Some? ==> version.value == match disk.dir.current
      case Link(v) => v
      case _ => ""
    ensures disk.dir.current.EmptyDirectory? ==> version == None
    ensures old(Calm(disk)) ==> Calm(disk) && (version.Some? <==> !disk.dir.current.EmptyDirectory?)
  {
    var ok := disk.Call(Other);
    if !ok { return None; }
    match disk.dir.current
    case Absent => return Some("");
    case EmptyDirectory => return None;
    case Link(v) => return Some(v);
  }

  /** `now` agrees with `d` on every version in `safe`, and has no version and no file `d` lacks. */
  ghost predicate Spared(d: Dir, now: Dir, safe: set<string>)
  {
    && now.current == d.current && now.tmpLink == d.tmpLink && Fewer(d, now)
    && forall v :: v in safe && v in d.versions ==> v in now.versions && now.versions[v] == d.versions[v]
  }

  /** In a sorted list no name occurs twice. */
  lemma NotAhead(names: seq<string>, i: nat)
    requires StrictlySorted(names, Less) && i < |names|
    ensures names[i] !in names[i + 1..] && Elements(names[i..]) == Elements(names[i + 1..]) + {names[i]}
  {
    LessIrreflexive(names[i]);
    assert names[i..] == [names[i]] + names[i + 1..];
  }

  /** The removal loop: everything not in `keep`, in sorted order. */
  method RemoveOthers(disk: Disk, names: seq<string>, keep: set<string>) returns (ok: bool)
    requires StrictlySorted(names, Less) && Elements(names) == disk.dir.versions.Keys
    modifies disk
    ensures Spared(old(disk.dir), disk.dir, keep)
    ensures ok ==> disk.dir.versions.Keys == old(disk.dir).versions.Keys * keep
    ensures old(Calm(disk)) ==> ok && Calm(disk)
  {
    ghost var d := disk.dir;
    for i := 0 to |names|
      invariant Spared(d, disk.dir, keep + Elements(names[i..]))
      invariant disk.dir.versions.Keys <= keep + Elements(names[i..])
      invariant old(Calm(disk)) ==> Calm(disk)
    {
      var name := names[i];
      ghost var rest := keep + Elements(names[i + 1..]);
      NotAhead(names, i);
      assert keep + Elements(names[i..]) == rest + {name};
      if name !in keep {
        ghost var before := disk.dir;
        assert name in d.versions by { assert name in Elements(names); }
        ok := RemoveAll(disk, name);
        SparedWithout(d, before, disk.dir, name, rest);
        if !ok { return false; }
      } else {
        assert rest + {name} == rest;
      }
    }
    assert keep + Elements(names[|names|..]) == keep;
    return true;
  }

  lemma SparedWithout(d: Dir, before: Dir, after: Dir, name: string, rest: set<string>)
    requires Spared(d, before, rest + {name}) && before.versions.Keys <= rest + {name} && name !in rest
    requires SameBut(before, after, name)
    ensures Spared(d, after, rest)
    ensures name !in after.versions ==> after.versions.Keys <= rest
  {
    forall v | v != name
      ensures v in after.versions <==> v in before.versions
      ensures v in before.versions ==> after.versions[v] == before.versions[v]
    {
      assert v in after.versions - {name} <==> v in before.versions - {name};
      assert v in before.versions ==> (after.versions - {name})[v] == (before.versions - {name})[v];
    }
  }

  /** The names of a directory, sorted, with the number of names above each. */
  method SortedNames(disk: Disk) returns (names: seq<string>)
    ensures Ranked(disk.dir, names)
  {
    var listed := ReadRows(disk.dir.versions.Keys);
    LessIsOrder();
    names := Sort(listed, Less);
    assert Elements(names) == disk.dir.versions.Keys;
    forall i | 0 <= i < |names| ensures |Above(disk.dir.versions.Keys, names[i])| == |names| - 1 - i {
      AboveInOrder(names, i);
    }
  }

  /**
   * Prune: list, sort, keep the three newest names and the current one, delete the rest. At every point where it may
   * stop, each version it has to keep is whole; if it finishes, exactly those versions remain.
   */
  method Prune(disk: Disk) returns (ok: bool)
    requires "" !in disk.dir.versions
    modifies disk
    ensures AfterPrune(old(disk.dir), disk.dir)
    ensures ok ==> disk.dir == Pruned(old(disk.dir))
    ensures old(Calm(disk)) && !old(disk.dir).current.EmptyDirectory? ==> ok && Calm(disk)
  {
    ghost var d := disk.dir;
    ok := disk.Call(Other);  // ReadDir
    if !ok { return false; }
    var names := SortedNames(disk);
    if |names| <= KEEP_VERSIONS {
      FewAreKept(d, names);
      return true;
    }
    var current := ReadCurrentVersion(disk);
    if current == None { return false; }
    var keep := Elements(names[|names| - KEEP_VERSIONS..]) + {current.value};
    KeepIsKept(d, names, current.value);
    ok := RemoveOthers(disk, names, keep);
    if ok { ExactlyKept(d, disk.dir, keep); }
  }

  /** `names` lists the versions in order. */
  ghost predicate Ranked(d: Dir, names: seq<string>)
  {
    && StrictlySorted(names, Less) && Elements(names) == d.versions.Keys
    && forall i :: 0 <= i < |names| ==> |Above(d.versions.Keys, names[i])| == |names| - 1 - i
  }

  lemma FewAreKept(d: Dir, names: seq<string>)
    requires Ranked(d, names) && |names| <= KEEP_VERSIONS
    ensures Pruned(d) == d
  {
    forall v | v in d.versions ensures Kept(d, v) {
      assert v in Elements(names);
      var i :| 0 <= i < |names| && names[i] == v;
    }
    assert Pruned(d).versions == d.versions;
  }

  lemma KeepIsKept(d: Dir, names: seq<string>, current: string)
    requires Ranked(d, names) && |names| > KEEP_VERSIONS
    requires "" !in d.versions && if d.current.Link? then current == d.current.version else current == ""
    ensures forall v :: v in d.versions ==>
      (v in Elements(names[|names| - KEEP_VERSIONS..]) + {current} <==> Kept(d, v))
  {
    forall v | v in d.versions ensures v in Elements(names[|names| - KEEP_VERSIONS..]) + {current} <==> Kept(d, v) {
      assert v in Elements(names);
      var i :| 0 <= i < |names| && names[i] == v;
      NewestThree(names, i);
    }
  }

  lemma ExactlyKept(d: Dir, after: Dir, keep: set<string>)
    requires Spared(d, after, keep) && after.versions.Keys == d.versions.Keys * keep
    requires forall v :: v in d.versions ==> (v in keep <==> Kept(d, v))
    ensures after == Pruned(d)
  {
    assert after.versions == Pruned(d).versions;
  }

  lemma NewestThree(names: seq<string>, i: nat)
    requires StrictlySorted(names, Less) && i < |names| && |names| > KEEP_VERSIONS
    ensures names[i] in names[|names| - KEEP_VERSIONS..] <==> |names| - 1 - i < KEEP_VERSIONS
  {
    var newest := names[|names| - KEEP_VERSIONS..];
    if i >= |names| - KEEP_VERSIONS {
      assert newest[i - (|names| - KEEP_VERSIONS)] == names[i];
    } else {
      forall j | 0 <= j < |newest| ensures newest[j] != names[i] {
        LessIrreflexive(names[i]);
        assert Less(names[i], names[|names| - KEEP_VERSIONS + j]);
      }
    }
  }

  /** What stays is, with its files, each version that is current or that fewer than three names sort after. */
  lemma PrunedExactly(d: Dir, v: string)
    ensures var newer := set w | w in d.versions && Less(v, w);
      && (v in Pruned(d).versions <==> v in d.versions && (|newer| < 3 || d.current == Link(v)))
      && (v in Pruned(d).versions ==> Pruned(d).versions[v] == d.versions[v])
    ensures Pruned(d).current == d.current
  {
    assert Above(d.versions.Keys, v) == set w | w in d.versions && Less(v, w);
  }

  /** Prune never removes the current version and leaves at most four. */
  lemma PrunedIsSmall(d: Dir)
    ensures forall v :: v in d.versions && d.current == Link(v) ==> v in Pruned(d).versions
    ensures |Pruned(d).versions| <= 4
  {
    var kept := Pruned(d).versions.Keys;
    var newest := set v | v in d.versions && |Above(d.versions.Keys, v)| < KEEP_VERSIONS;
    NewestAreFew(d.versions.Keys, newest);
    var current := if d.current.Link? then {d.current.version} else {};
    assert kept <= newest + current;
    Integrity.SubsetSize(kept, newest + current);
    assert |newest + current| <= |newest| + |current|;
  }

  /** At most three names have fewer than three above them. */
  lemma NewestAreFew(names: set<string>, newest: set<string>)
    requires newest <= names && forall v :: v in newest ==> |Above(names, v)| < KEEP_VERSIONS
    ensures |newest| <= KEEP_VERSIONS
  {
    if newest != {} {
      var low := Least(newest);
      assert newest - {low} <= Above(names, low);
      Integrity.SubsetSize(newest - {low}, Above(names, low));
    }
  }

  lemma {:induction false} Least(names: set<string>) returns (low: string)
    requires names != {}
    ensures low in names && forall v :: v in names && v != low ==> Less(low, v)
    decreases |names|
  {
    LessIsOrder();
    var x :| x in names;
    low := x;
    if names - {x} != {} {
      var rest := Least(names - {x});
      if Less(rest, x) {
        low := rest;
      } else {
        assert Less(x, rest);
      }
    }
  }
}
