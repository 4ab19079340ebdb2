/** Installing a certificate bundle, system call by system call (internal/certwriter). */
module CertWriter {
  import opened Basics

  type Bytes = seq<bv8>

  datatype Platform = Unix | Windows

  /** What `current` is: nothing, a plain empty directory, or a link to a version. */
  datatype Current = Absent | EmptyDirectory | Link(version: string)

  /** One certificate's directory: the files of each version, `current`, and the symlink swapCurrent prepares. */
  datatype Dir = Dir(versions: map<string, map<string, Bytes>>, current: Current, tmpLink: Option<string>)

  datatype Bundle = Bundle(key: Bytes, leaf: Bytes, issuer: Bytes)

  const KEY_FILE := "privkey.pem"
  const LEAF_FILE := "cert.pem"
  const CHAIN_FILE := "fullchain.pem"

  function Files(b: Bundle): map<string, Bytes>
  {
    map[KEY_FILE := b.key, LEAF_FILE := b.leaf, CHAIN_FILE := b.leaf + b.issuer]
  }

  /** A system call with an effect on the directory, or `Other`: chmod, protect, sync, mkdir of a parent. */
  datatype Op =
    | Other
    | MakeVersion(version: string)
    | CreateFile(version: string, file: string)  // O_CREATE | O_TRUNC
    | Append(version: string, file: string, byte: bv8)
    | RenameFile(version: string, file: string, target: string)
    | RemoveFile(version: string, file: string)
    | RemoveVersion(version: string)
    | RemoveTmpLink
    | SymlinkTmp(version: string)
    | RenameTmpLink
    | MakeCurrent
    | ClearJunction
    | SetJunction(version: string)

  predicate HasFile(d: Dir, version: string, file: string)
  {
    version in d.versions && file in d.versions[version]
  }

  /** The call can succeed on `d`; otherwise it returns an error and has no effect. */
  predicate Possible(d: Dir, op: Op)
  {
    match op
    case CreateFile(v, f) => v in d.versions
    case Append(v, f, b) => HasFile(d, v, f)
    case RenameFile(v, f, g) => HasFile(d, v, f)
    case RemoveFile(v, f) => HasFile(d, v, f)
    case RemoveVersion(v) => v in d.versions && d.versions[v] == map[]
    case RemoveTmpLink => d.tmpLink.Some?
    case SymlinkTmp(v) => d.tmpLink.None?
    case RenameTmpLink => d.tmpLink.Some? && !d.current.EmptyDirectory?
    case ClearJunction => d.current.Link?
    case SetJunction(v) => d.current.EmptyDirectory?
    case _ => true
  }

  function WithFiles(d: Dir, v: string, files: map<string, Bytes>): Dir
  {
    d.(versions := d.versions[v := files])
  }

  function Effect(d: Dir, op: Op): Dir
    requires Possible(d, op)
  {
    match op
    case Other => d
    case MakeVersion(v) => if v in d.versions then d else WithFiles(d, v, map[])
    case CreateFile(v, f) => WithFiles(d, v, d.versions[v][f := []])
    case Append(v, f, b) => WithFiles(d, v, d.versions[v][f := d.versions[v][f] + [b]])
    case RenameFile(v, f, g) => WithFiles(d, v, (d.versions[v] - {f})[g := d.versions[v][f]])
    case RemoveFile(v, f) => WithFiles(d, v, d.versions[v] - {f})
    case RemoveVersion(v) => d.(versions := d.versions - {v})
    case RemoveTmpLink => d.(tmpLink := None)
    case SymlinkTmp(v) => d.(tmpLink := Some(v))
    case RenameTmpLink => d.(current := Link(d.tmpLink.value), tmpLink := None)
    case MakeCurrent => if d.current.Absent? then d.(current := EmptyDirectory) else d
    case ClearJunction => d.(current := EmptyDirectory)
    case SetJunction(v) => d.(current := Link(v))
  }

  lemma Overwrite(d: Dir, v: string, a: map<string, Bytes>, b: map<string, Bytes>)
    ensures WithFiles(WithFiles(d, v, a), v, b) == WithFiles(d, v, b)
  {
    assert d.versions[v := a][v := b] == d.versions[v := b];
  }

  /** What befalls one system call: it is carried out, it fails, or the process dies before it. */
  datatype Fate = Works | Fails | Dies

  class Disk {
    var dir: Dir
    var calls: nat
    var dead: bool
    const fate: nat -> Fate  // of the n-th call, chosen by the environment

    constructor (dir: Dir, fate: nat -> Fate)
      ensures this.dir == dir && !dead && this.fate == fate && calls == 0
    {
      this.dir, this.fate, this.calls, this.dead := dir, fate, 0, false;
    }

    /** Whatever the caller does after its process has died has no effect. */
    method Call(op: Op) returns (ok: bool)
      modifies this
      ensures ok ==> Possible(old(dir), op) && dir == Effect(old(dir), op) && dead == old(dead)
      ensures !ok ==> dir == old(dir)
      ensures old(dead) ==> !ok && dead
      ensures !old(dead) ==> calls == old(calls) + 1 && (dead <==> fate(old(calls)) == Dies)
      ensures !old(dead) && fate(old(calls)) == Works ==> (ok <==> Possible(old(dir), op))
    {
      if dead { return false; }
      var f := fate(calls);
      calls := calls + 1;
      if f == Dies {
        dead := true;
        return false;
      }
      if f == Fails || !Possible(dir, op) { return false; }
      dir := Effect(dir, op);
      return true;
    }
  }

  /** Nothing but the files of version `v` differs. */
  predicate OnlyFiles(d: Dir, d': Dir, v: string)
  {
    v in d'.versions && d' == WithFiles(d, v, d'.versions[v])
  }

  /** The environment lets every call through. */
  ghost predicate Calm(disk: Disk)
    reads disk
  {
    !disk.dead && forall n :: disk.fate(n) == Works
  }

  /** The next `n` calls will be let through. */
  ghost predicate WorksFor(disk: Disk, n: nat)
    reads disk
  {
    !disk.dead && forall i :: disk.calls <= i < disk.calls + n ==> disk.fate(i) == Works
  }

  /** The process dies at the call after the next `n`. */
  ghost predicate DiesAfter(disk: Disk, n: nat)
    reads disk
  {
    WorksFor(disk, n) && disk.fate(disk.calls + n) == Dies
  }

  /** The calls FillTemporary makes when all go through. */
  function FillCalls(data: Bytes, protect: bool): nat
  {
    4 + |data| + if protect then 1 else 0
  }

  /** Create, write, sync, close, chmod and protect the temporary file; a write may stop after any byte. */
  method FillTemporary(disk: Disk, v: string, tmp: string, data: Bytes, protect: bool) returns (ok: bool)
    requires v in disk.dir.versions
    modifies disk
    ensures OnlyFiles(old(disk.dir), disk.dir, v)
    ensures ok ==> disk.dir.versions[v] == old(disk.dir).versions[v][tmp := data]
    ensures disk.dir.versions[v] - {tmp} == old(disk.dir).versions[v] - {tmp}
    ensures old(Calm(disk)) ==> ok && Calm(disk)
    ensures old(WorksFor(disk, FillCalls(data, protect))) ==>
      ok && !disk.dead && disk.calls == old(disk.calls) + FillCalls(data, protect)
    ensures old(disk.dead) ==> !ok && disk.dead && disk.dir == old(disk.dir)
  {
    ghost var before := disk.dir.versions[v];
    ok := disk.Call(CreateFile(v, tmp));
    if !ok { return false; }
    for i := 0 to |data|
      invariant disk.dir == WithFiles(old(disk.dir), v, before[tmp := data[..i]])
      invariant old(Calm(disk)) ==> Calm(disk)
      invariant old(WorksFor(disk, FillCalls(data, protect))) ==> !disk.dead && disk.calls == old(disk.calls) + 1 + i
      invariant !old(disk.dead)
    {
      ok := disk.Call(Append(v, tmp, data[i]));
      if !ok { return false; }
      assert data[..i + 1] == data[..i] + [data[i]];
      Overwrite(old(disk.dir), v, before[tmp := data[..i]], before[tmp := data[..i + 1]]);
      assert before[tmp := data[..i]][tmp := data[..i + 1]] == before[tmp := data[..i + 1]];
    }
    assert data[..|data|] == data;
    ok := disk.Call(Other);                       // sync
    if ok { ok := disk.Call(Other); }             // close
    if ok { ok := disk.Call(Other); }             // chmod
    if ok && protect { ok := disk.Call(Other); }  // secureperm.Protect
  }

  /** The calls of WriteAtomic up to and including its rename. */
  function AtomicCalls(data: Bytes, protect: bool): nat
  {
    FillCalls(data, protect) + 1
  }

  /** writeAtomic: temporary file, all bytes, then one rename; the deferred remove clears what a failure left. */
  method WriteAtomic(disk: Disk, v: string, name: string, data: Bytes, protect: bool) returns (ok: bool)
    requires v in disk.dir.versions
    modifies disk
    ensures OnlyFiles(old(disk.dir), disk.dir, v)
    ensures ok ==> disk.dir.versions[v] == (old(disk.dir).versions[v] - {name + ".tmp"})[name := data]
    ensures !ok ==> disk.dir.versions[v] - {name + ".tmp"} == old(disk.dir).versions[v] - {name + ".tmp"}
    ensures old(Calm(disk)) ==> ok && Calm(disk)
    ensures old(WorksFor(disk, AtomicCalls(data, protect))) ==>
      && ok && disk.calls == old(disk.calls) + AtomicCalls(data, protect) + 1
      && (disk.dead <==> disk.fate(old(disk.calls) + AtomicCalls(data, protect)) == Dies)
    ensures old(disk.dead) ==> !ok && disk.dead && disk.dir == old(disk.dir)
  {
    var tmp := name + ".tmp";
    assert tmp != name;
    ghost var before := disk.dir.versions[v];
    ok := FillTemporary(disk, v, tmp, data, protect);
    if ok {
      ok := disk.Call(RenameFile(v, tmp, name));
      assert ok ==> disk.dir.versions[v] == (before - {tmp})[name := data];
    }
    ghost var last := disk.dir.versions[v];
    var removed := disk.Call(RemoveFile(v, tmp));
    assert removed ==> disk.dir.versions[v] == last - {tmp};
  }

  // ----- swapCurrent -----

  /** What a swap to `v` may leave of `current`, finished or not. */
  predicate AfterSwap(platform: Platform, before: Current, v: string, after: Current)
  {
    after == before || after == Link(v) || (platform == Windows && after == EmptyDirectory)
  }

  /** Unix: one rename of a prepared symlink. */
  method SwapSymlink(disk: Disk, v: string) returns (ok: bool)
    modifies disk
    ensures disk.dir.versions == old(disk.dir).versions
    ensures AfterSwap(Unix, old(disk.dir).current, v, disk.dir.current)
    ensures old(disk.dead) ==> !ok && disk.dir == old(disk.dir)
    ensures ok ==> disk.dir.current == Link(v)
    ensures old(Calm(disk)) && !old(disk.dir).current.EmptyDirectory? ==> ok && Calm(disk)
  {
    var _ := disk.Call(RemoveTmpLink);  // a leftover of an earlier crash; the error is ignored
    ok := disk.Call(SymlinkTmp(v));
    if ok { ok := disk.Call(RenameTmpLink); }
  }

  /** Windows: the junction is cleared, then set. */
  method SwapJunction(disk: Disk, v: string) returns (ok: bool)
    modifies disk
    ensures disk.dir.versions == old(disk.dir).versions
    ensures AfterSwap(Windows, old(disk.dir).current, v, disk.dir.current)
    ensures old(disk.dead) ==> !ok && disk.dir == old(disk.dir)
    ensures ok ==> disk.dir.current == Link(v)
    ensures old(Calm(disk)) ==> ok && Calm(disk)
  {
    ok := disk.Call(MakeCurrent);
    if !ok { return false; }
    var _ := disk.Call(ClearJunction);  // nothing to clear is not an error
    ok := disk.Call(SetJunction(v));
  }

  method SwapCurrent(platform: Platform, disk: Disk, v: string) returns (ok: bool)
    modifies disk
    ensures disk.dir.versions == old(disk.dir).versions
    ensures AfterSwap(platform, old(disk.dir).current, v, disk.dir.current)
    ensures old(disk.dead) ==> !ok && disk.dir == old(disk.dir)
    ensures ok ==> disk.dir.current == Link(v)
    ensures old(Calm(disk)) && (platform == Unix ==> !old(disk.dir).current.EmptyDirectory?) ==> ok && Calm(disk)
  {
    match platform
    case Unix => ok := SwapSymlink(disk, v);
    case Windows => ok := SwapJunction(disk, v);
  }

  // ----- Write -----

  const OWN_NAMES := {KEY_FILE, LEAF_FILE, CHAIN_FILE, KEY_FILE + ".tmp", LEAF_FILE + ".tmp", CHAIN_FILE + ".tmp"}

  lemma NamesDiffer()
    ensures KEY_FILE != LEAF_FILE && LEAF_FILE != CHAIN_FILE && KEY_FILE != CHAIN_FILE
    ensures {KEY_FILE, LEAF_FILE, CHAIN_FILE} !! {KEY_FILE + ".tmp", LEAF_FILE + ".tmp", CHAIN_FILE + ".tmp"}
  {
    assert |KEY_FILE| == 11 && |LEAF_FILE| == 8 && |CHAIN_FILE| == 13;
    assert (LEAF_FILE + ".tmp")[0] == 'c' && KEY_FILE[0] == 'p' && CHAIN_FILE[0] == 'f';
    assert |KEY_FILE + ".tmp"| == 15 && |LEAF_FILE + ".tmp"| == 12 && |CHAIN_FILE + ".tmp"| == 17;
  }

  function FilesOf(d: Dir, v: string): map<string, Bytes>
  {
    if v in d.versions then d.versions[v] else map[]
  }

  /** The three installed files of a version, each there or not. */
  datatype Triple = Triple(key: Option<Bytes>, leaf: Option<Bytes>, chain: Option<Bytes>)

  function FileAt(files: map<string, Bytes>, name: string): Option<Bytes>
  {
    if name in files then Some(files[name]) else None
  }

  function Three(files: map<string, Bytes>): Triple
  {
    Triple(FileAt(files, KEY_FILE), FileAt(files, LEAF_FILE), FileAt(files, CHAIN_FILE))
  }

  /** The three files after the first `k` of the three renames. */
  function Stage(before: Triple, b: Bundle, k: nat): Triple
  {
    Triple(if k >= 1 then Some(b.key) else before.key, if k >= 2 then Some(b.leaf) else before.leaf,
           if k >= 3 then Some(b.leaf + b.issuer) else before.chain)
  }

  /** A version after all three files were written over what it held. */
  function Overlay(before: map<string, Bytes>, b: Bundle): map<string, Bytes>
  {
    var one := (before - {KEY_FILE + ".tmp"})[KEY_FILE := b.key];
    var two := (one - {LEAF_FILE + ".tmp"})[LEAF_FILE := b.leaf];
    (two - {CHAIN_FILE + ".tmp"})[CHAIN_FILE := b.leaf + b.issuer]
  }

  /** A version that held nothing but such files then holds exactly the bundle. */
  lemma OverlayIsBundle(before: map<string, Bytes>, b: Bundle)
    ensures Three(Overlay(before, b)) == Three(Files(b))
    ensures before.Keys <= OWN_NAMES ==> Overlay(before, b) == Files(b)
  {
    NamesDiffer();
  }

  lemma OverlayHolds(before: map<string, Bytes>, b: Bundle)
    ensures var files := Overlay(before, b);
      && {"privkey.pem", "cert.pem", "fullchain.pem"} <= files.Keys
      && files["privkey.pem"] == b.key && files["cert.pem"] == b.leaf && files["fullchain.pem"] == b.leaf + b.issuer
  {
    NamesDiffer();
  }

  /** What writing the three files may leave of one version: some of the renames done, in order, and no foreign file. */
  ghost predicate FilesStaged(before: map<string, Bytes>, b: Bundle, after: map<string, Bytes>)
  {
    && after.Keys <= before.Keys + OWN_NAMES
    && exists k :: 0 <= k <= 3 && Three(after) == Stage(Three(before), b, k)
  }

  /**
   * What a Write of `b` as version `v` may leave behind, wherever it stopped: no other version touched, the files of
   * `v` replaced up to some point, and `current` as it was, or at `v` with the whole bundle in place, or (Windows) an
   * empty directory.
   */
  ghost predicate AfterWrite(platform: Platform, d: Dir, v: string, b: Bundle, d': Dir)
  {
    && d'.versions - {v} == d.versions - {v} && (v in d.versions ==> v in d'.versions)
    && FilesStaged(FilesOf(d, v), b, FilesOf(d', v))
    && AfterSwap(platform, d.current, v, d'.current)
    && (d'.current != d.current ==> v in d'.versions && d'.versions[v] == Overlay(FilesOf(d, v), b))
  }

  /** What a Write that ran to its end leaves behind. */
  ghost predicate Installed(d: Dir, v: string, b: Bundle, d': Dir)
  {
    d'.versions == d.versions[v := Overlay(FilesOf(d, v), b)] && d'.current == Link(v)
  }

  const DIRECTORY_CALLS := 12

  /** The calls of Write up to and including the rename of the first or the second file. */
  function CallsUntil(b: Bundle, k: nat): nat
  {
    DIRECTORY_CALLS + AtomicCalls(b.key, true) + if k >= 2 then 1 + AtomicCalls(b.leaf, false) else 0
  }

  /** The directories, one mkdir, chmod and protect each; one that is already there is kept with its files. */
  method MakeDirectories(disk: Disk, v: string) returns (ok: bool)
    modifies disk
    ensures disk.dir == old(disk.dir) || disk.dir == WithFiles(old(disk.dir), v, FilesOf(old(disk.dir), v))
    ensures ok ==> disk.dir == WithFiles(old(disk.dir), v, FilesOf(old(disk.dir), v))
    ensures old(Calm(disk)) ==> ok && Calm(disk)
    ensures old(WorksFor(disk, DIRECTORY_CALLS)) ==> ok && !disk.dead && disk.calls == old(disk.calls) + DIRECTORY_CALLS
    ensures old(disk.dead) ==> !ok && disk.dir == old(disk.dir)
  {
    ghost var made := WithFiles(disk.dir, v, FilesOf(disk.dir, v));
    assert v in disk.dir.versions ==> made == disk.dir;
    var ops := [Other, Other, Other, MakeVersion(v)];  // parent, dir, versions, and the version itself
    for i := 0 to |ops|
      invariant disk.dir == if i < 4 then old(disk.dir) else made
      invariant old(Calm(disk)) ==> Calm(disk)
      invariant old(WorksFor(disk, DIRECTORY_CALLS)) ==> !disk.dead && disk.calls == old(disk.calls) + 3 * i
      invariant old(disk.dead) ==> i == 0 && disk.dead
    {
      ok := disk.Call(ops[i]);
      if ok { ok := disk.Call(Other); }
      if ok { ok := disk.Call(Other); }
      if !ok { return false; }
    }
    return true;
  }

  /** One WriteAtomic as a step of the three. */
  lemma OneFileMore(before: map<string, Bytes>, files: map<string, Bytes>, after: map<string, Bytes>, b: Bundle, k: nat,
                    name: string, data: Bytes, ok: bool)
    requires k < 3 && Three(files) == Stage(Three(before), b, k) && files.Keys <= before.Keys + OWN_NAMES
    requires name == [KEY_FILE, LEAF_FILE, CHAIN_FILE][k] && data == [b.key, b.leaf, b.leaf + b.issuer][k]
    requires if ok then after == (files - {name + ".tmp"})[name := data]
             else after - {name + ".tmp"} == files - {name + ".tmp"}
    ensures Three(after) == Stage(Three(before), b, if ok then k + 1 else k) && after.Keys <= before.Keys + OWN_NAMES
  {
    NamesDiffer();
    assert name + ".tmp" in OWN_NAMES && name in OWN_NAMES;
    if !ok {
      forall n | n != name + ".tmp" ensures FileAt(after, n) == FileAt(files, n) {
        assert FileAt(after - {name + ".tmp"}, n) == FileAt(files - {name + ".tmp"}, n);
      }
      assert forall n :: n in after && n != name + ".tmp" ==> n in after - {name + ".tmp"};
    }
  }

  /** The three files, each by writeAtomic. */
  method WriteFiles(disk: Disk, v: string, b: Bundle) returns (ok: bool)
    requires v in disk.dir.versions
    modifies disk
    ensures OnlyFiles(old(disk.dir), disk.dir, v)
    ensures FilesStaged(old(disk.dir).versions[v], b, disk.dir.versions[v])
    ensures ok ==> disk.dir.versions[v] == Overlay(old(disk.dir).versions[v], b)
    ensures old(Calm(disk)) ==> ok && Calm(disk)
    ensures forall k :: 1 <= k <= 2 && old(DiesAfter(disk, CallsUntil(b, k) - DIRECTORY_CALLS)) ==>
      disk.dead && Three(disk.dir.versions[v]) == Stage(Three(old(disk.dir).versions[v]), b, k)
    ensures old(disk.dead) ==> !ok && disk.dead && disk.dir == old(disk.dir)
  {
    var fullchain := b.leaf + b.issuer;
    ghost var d0 := disk.dir;
    ghost var before := d0.versions[v];
    ok := WriteAtomic(disk, v, KEY_FILE, b.key, true);
    ghost var d1 := disk.dir;
    OneFileMore(before, before, d1.versions[v], b, 0, KEY_FILE, b.key, ok);
    if !ok { return false; }
    ok := WriteAtomic(disk, v, LEAF_FILE, b.leaf, false);
    ghost var d2 := disk.dir;
    OnlyFilesChains(d0, d1, d2, v);
    OneFileMore(before, d1.versions[v], d2.versions[v], b, 1, LEAF_FILE, b.leaf, ok);
    if !ok { return false; }
    ok := WriteAtomic(disk, v, CHAIN_FILE, fullchain, false);
    OnlyFilesChains(d0, d2, disk.dir, v);
    OneFileMore(before, d2.versions[v], disk.dir.versions[v], b, 2, CHAIN_FILE, fullchain, ok);
  }

  lemma OnlyFilesChains(d: Dir, d': Dir, d'': Dir, v: string)
    requires OnlyFiles(d, d', v) && OnlyFiles(d', d'', v)
    ensures OnlyFiles(d, d'', v)
  {
    Overwrite(d, v, d'.versions[v], d''.versions[v]);
  }

  /**
   * Write, with the version name its clock and random suffix gave it, new or not. The contract holds for every fate of
   * every system call, so in particular at every point where the process may die; and dying right after the first or
   * the second rename leaves exactly that much of the bundle.
   */
  method Write(platform: Platform, disk: Disk, v: string, b: Bundle) returns (ok: bool)
    modifies disk
    ensures AfterWrite(platform, old(disk.dir), v, b, disk.dir)
    ensures ok ==> Installed(old(disk.dir), v, b, disk.dir)
    ensures ok ==>
      && disk.dir.current == Link(v) && {"privkey.pem", "cert.pem", "fullchain.pem"} <= disk.dir.versions[v].Keys
      && disk.dir.versions[v]["privkey.pem"] == b.key && disk.dir.versions[v]["cert.pem"] == b.leaf
      && disk.dir.versions[v]["fullchain.pem"] == b.leaf + b.issuer
    ensures old(Calm(disk)) && (platform == Unix ==> !old(disk.dir).current.EmptyDirectory?) ==> ok && Calm(disk)
    ensures forall k :: 1 <= k <= 2 && old(DiesAfter(disk, CallsUntil(b, k))) ==>
      && disk.dir.current == old(disk.dir).current && v in disk.dir.versions
      && Three(disk.dir.versions[v]) == Stage(Three(FilesOf(old(disk.dir), v)), b, k)
  {
    ghost var d := disk.dir;
    NothingWritten(platform, d, v, b);
    OverlayHolds(FilesOf(d, v), b);
    ok := MakeDirectories(disk, v);
    if !ok { return false; }
    ok := WriteFiles(disk, v, b);
    ghost var filled := disk.dir;
    Overwrite(d, v, FilesOf(d, v), filled.versions[v]);
    WrittenThenSwapped(platform, d, v, b, filled, filled);
    if !ok { return false; }
    ok := disk.Call(Other);  // fsyncDir of the version
    if !ok { return false; }
    ok := SwapCurrent(platform, disk, v);
    WrittenThenSwapped(platform, d, v, b, filled, disk.dir);
    if !ok { return false; }
    ok := disk.Call(Other);  // fsyncDir of the directory
  }

  lemma NothingWritten(platform: Platform, d: Dir, v: string, b: Bundle)
    ensures AfterWrite(platform, d, v, b, d)
    ensures AfterWrite(platform, d, v, b, WithFiles(d, v, FilesOf(d, v)))
  {
    assert Three(FilesOf(d, v)) == Stage(Three(FilesOf(d, v)), b, 0);
    assert WithFiles(d, v, FilesOf(d, v)).versions - {v} == d.versions - {v};
  }

  lemma WrittenThenSwapped(platform: Platform, d: Dir, v: string, b: Bundle, filled: Dir, d': Dir)
    requires OnlyFiles(d, filled, v) && FilesStaged(FilesOf(d, v), b, filled.versions[v])
    requires d'.versions == filled.versions && AfterSwap(platform, d.current, v, d'.current)
    requires d'.current != d.current ==> filled.versions[v] == Overlay(FilesOf(d, v), b)
    ensures AfterWrite(platform, d, v, b, d')
  {
    assert d'.versions - {v} == d.versions - {v};
  }

  // ----- When a Write is safe -----

  /** The three files of `v` are those of one bundle. */
  ghost predicate WholeOf(d: Dir, v: string, b: Bundle)
  {
    v in d.versions && Three(d.versions[v]) == Three(Files(b))
  }

  /** `current` resolves to one of the two bundles, or (Windows) to an empty directory. */
  ghost predicate CurrentWhole(platform: Platform, d: Dir, installed: Bundle, b: Bundle)
  {
    match d.current
    case Absent => false
    case EmptyDirectory => platform == Windows
    case Link(v) => WholeOf(d, v, installed) || WholeOf(d, v, b)
  }

  /** Of key, certificate and chain, at most one file changes. */
  predicate AtMostOneDiffers(a: Bundle, b: Bundle)
  {
    var chain := a.leaf + a.issuer == b.leaf + b.issuer;
    (a.key == b.key && a.leaf == b.leaf) || (a.key == b.key && chain) || (a.leaf == b.leaf && chain)
  }

  lemma ThreeOfFiles(b: Bundle)
    ensures Three(Files(b)) == Triple(Some(b.key), Some(b.leaf), Some(b.leaf + b.issuer))
  {
    NamesDiffer();
  }

  lemma StagesAreWholeExactlyWhen(a: Bundle, b: Bundle)
    ensures AtMostOneDiffers(a, b) <==>
      forall k :: 1 <= k <= 2 ==>
        Stage(Three(Files(a)), b, k) == Three(Files(a)) || Stage(Three(Files(a)), b, k) == Three(Files(b))
  {
    ThreeOfFiles(a);
    ThreeOfFiles(b);
    var one, two := Stage(Three(Files(a)), b, 1), Stage(Three(Files(a)), b, 2);
    assert one == Triple(Some(b.key), Some(a.leaf), Some(a.leaf + a.issuer));
    assert two == Triple(Some(b.key), Some(b.leaf), Some(a.leaf + a.issuer));
  }

  lemma OthersStay(platform: Platform, d: Dir, v: string, b: Bundle, d': Dir, u: string)
    requires AfterWrite(platform, d, v, b, d') && u in d.versions && u != v
    ensures u in d'.versions && d'.versions[u] == d.versions[u]
  {
    assert u in d.versions - {v} && (d.versions - {v})[u] == d.versions[u];
    assert u in d'.versions - {v} && (d'.versions - {v})[u] == d'.versions[u];
  }

  lemma SafeWriteStaysWhole(platform: Platform, d: Dir, u: string, installed: Bundle, v: string, b: Bundle, d': Dir)
    requires d.current == Link(u) && WholeOf(d, u, installed) && AfterWrite(platform, d, v, b, d')
    requires u != v || AtMostOneDiffers(installed, b)
    ensures CurrentWhole(platform, d', installed, b)
  {
    OverlayIsBundle(FilesOf(d, v), b);
    if d'.current == d.current {
      if u != v {
        OthersStay(platform, d, v, b, d', u);
      } else {
        StagesAreWholeExactlyWhen(installed, b);
        ThreeOfFiles(installed);
        ThreeOfFiles(b);
        var k :| 0 <= k <= 3 && Three(FilesOf(d', v)) == Stage(Three(FilesOf(d, v)), b, k);
      }
    }
  }

  /** The state in which a Write over the current version died right after its k-th rename. */
  lemma TornState(platform: Platform, d: Dir, v: string, installed: Bundle, b: Bundle, k: nat) returns (d': Dir)
    requires d.current == Link(v) && WholeOf(d, v, installed) && 1 <= k <= 2
    ensures AfterWrite(platform, d, v, b, d') && d'.current == Link(v)
    ensures Three(FilesOf(d', v)) == Stage(Three(Files(installed)), b, k)
  {
    NamesDiffer();
    var one := d.versions[v][KEY_FILE := b.key];
    var files := if k == 1 then one else one[LEAF_FILE := b.leaf];
    d' := WithFiles(d, v, files);
    assert d'.versions - {v} == d.versions - {v};
    assert Three(files) == Stage(Three(d.versions[v]), b, k);
  }

  /**
   * From an installed bundle, every way a Write may stop leaves a whole bundle in place if and only if its version name
   * is not the current one, or at most one of the three files changes.
   */
  lemma WriteIsSafeExactlyWhen(platform: Platform, d: Dir, u: string, installed: Bundle, v: string, b: Bundle)
    requires d.current == Link(u) && WholeOf(d, u, installed)
    ensures (forall d' :: AfterWrite(platform, d, v, b, d') ==> CurrentWhole(platform, d', installed, b))
      <==> u != v || AtMostOneDiffers(installed, b)
  {
    if u != v || AtMostOneDiffers(installed, b) {
      forall d' | AfterWrite(platform, d, v, b, d') ensures CurrentWhole(platform, d', installed, b) {
        SafeWriteStaysWhole(platform, d, u, installed, v, b, d');
      }
    } else {
      StagesAreWholeExactlyWhen(installed, b);
      var k :| 1 <= k <= 2 && Stage(Three(Files(installed)), b, k) != Three(Files(installed))
                           && Stage(Three(Files(installed)), b, k) != Three(Files(b));
      var d' := TornState(platform, d, v, installed, b, k);
      assert !CurrentWhole(platform, d', installed, b);
    }
  }

  /** Such a stop is real: this run of Write dies between two renames and leaves a torn bundle under `current`. */
  method TornWrite(platform: Platform, d: Dir, v: string, b: Bundle, ghost installed: Bundle) returns (disk: Disk)
    requires d.current == Link(v) && WholeOf(d, v, installed) && !AtMostOneDiffers(installed, b)
    ensures disk.dir.current == Link(v) && !CurrentWhole(platform, disk.dir, installed, b)
  {
    StagesAreWholeExactlyWhen(installed, b);
    ThreeOfFiles(installed);
    ThreeOfFiles(b);
    var k := if FileAt(d.versions[v], KEY_FILE) != Some(b.key) then 1 else 2;
    var until := CallsUntil(b, k);
    disk := new Disk(d, n => if n < until then Works else Dies);
    assert DiesAfter(disk, CallsUntil(b, k));
    var _ := Write(platform, disk, v, b);
  }
}
