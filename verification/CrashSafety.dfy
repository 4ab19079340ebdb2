/** Whole histories of installs and prunes, each of which may stop anywhere (internal/certwriter). */
module CrashSafety {
  import opened Basics
  import opened Ordering
  import opened CertWriter
  import opened Prune

  /** One call of the single writer, finished or cut short. */
  datatype Session = Writing(version: string, bundle: Bundle) | Pruning

  /**
   * `dirs` are the states between the sessions: each session left what it may leave, and no Write was given the name of
   * the version that was current when it began. Any other name may come again.
   */
  ghost predicate IsHistory(platform: Platform, dirs: seq<Dir>, sessions: seq<Session>)
  {
    && |dirs| == |sessions| + 1
    && dirs[0].versions == map[] && dirs[0].current == Absent
    && (forall i :: 0 <= i < |sessions| && sessions[i].Writing? ==> dirs[i].current != Link(sessions[i].version))
    && forall i :: 0 <= i < |sessions| ==> Left(platform, dirs[i], sessions[i], dirs[i + 1])
  }

  ghost predicate Left(platform: Platform, d: Dir, session: Session, d': Dir)
  {
    match session
    case Writing(v, b) => AfterWrite(platform, d, v, b, d')
    case Pruning => AfterPrune(d, d')
  }

  /** `current` resolves to nothing, to an empty directory (Windows), or to the whole bundle of one earlier Write. */
  ghost predicate Safe(platform: Platform, d: Dir, sessions: seq<Session>)
  {
    match d.current
    case Absent => true
    case EmptyDirectory => platform == Windows
    case Link(v) =>
      v in d.versions
      && exists j :: 0 <= j < |sessions| && sessions[j].Writing? && sessions[j].version == v
           && d.versions[v] == Files(sessions[j].bundle)
  }

  /** No version holds anything but the three files and their temporary ones. */
  ghost predicate OnlyOwnFiles(d: Dir)
  {
    forall v :: v in d.versions ==> d.versions[v].Keys <= OWN_NAMES
  }

  /**
   * Crash safety: after any number of Writes and Prunes by one writer, each stopped at any system call, `current` is
   * never a mix of bundles and never a partial one.
   */
  lemma {:induction false} CurrentIsAlwaysWhole(platform: Platform, dirs: seq<Dir>, sessions: seq<Session>, i: nat)
    requires IsHistory(platform, dirs, sessions) && i < |dirs|
    ensures Safe(platform, dirs[i], sessions[..i]) && OnlyOwnFiles(dirs[i])
  {
    if i > 0 {
      CurrentIsAlwaysWhole(platform, dirs, sessions, i - 1);
      assert Left(platform, dirs[i - 1], sessions[i - 1], dirs[i]);
      assert sessions[..i] == sessions[..i - 1] + [sessions[i - 1]];
      SessionKeepsSafe(platform, dirs[i - 1], sessions[..i - 1], sessions[i - 1], dirs[i]);
    }
  }

  lemma SessionKeepsSafe(platform: Platform, d: Dir, past: seq<Session>, session: Session, d': Dir)
    requires Safe(platform, d, past) && OnlyOwnFiles(d) && Left(platform, d, session, d')
    requires session.Writing? ==> d.current != Link(session.version)
    ensures Safe(platform, d', past + [session]) && OnlyOwnFiles(d')
  {
    var all := past + [session];
    match session
    case Writing(v, b) =>
      forall u | u in d'.versions ensures d'.versions[u].Keys <= OWN_NAMES {
        if u != v { assert u in d'.versions - {v} && d'.versions[u] == (d.versions - {v})[u]; }
      }
      OverlayIsBundle(FilesOf(d, v), b);
      if d'.current != d.current {
        assert all[|past|] == session;
      } else if d.current.Link? {
        OthersStay(platform, d, v, b, d', d.current.version);
        StaysSafe(platform, d, past, session, d');
      }
    case Pruning =>
      if d.current.Link? { assert Kept(d, d.current.version); }
      StaysSafe(platform, d, past, session, d');
  }

  lemma StaysSafe(platform: Platform, d: Dir, past: seq<Session>, session: Session, d': Dir)
    requires Safe(platform, d, past) && d'.current == d.current
    requires d.current.Link? ==>
      d.current.version in d'.versions && d'.versions[d.current.version] == d.versions[d.current.version]
    ensures Safe(platform, d', past + [session])
  {
    if d.current.Link? {
      var v := d.current.version;
      var j :| 0 <= j < |past| && past[j].Writing? && past[j].version == v && d.versions[v] == Files(past[j].bundle);
      assert (past + [session])[j] == past[j];
    }
  }

  // ----- Uninterrupted rounds -----

  /** Each round is a Write of the next name that finished, followed by a Prune that finished. */
  ghost predicate AreRounds(dirs: seq<Dir>, names: seq<string>, bundles: seq<Bundle>)
    decreases |names|
  {
    var k := |names|;
    && |dirs| == k + 1 && |bundles| == k
    && if k == 0 then dirs[0].versions == map[] && dirs[0].current == Absent
       else
         && IsRound(dirs[k - 1], names[k - 1], bundles[k - 1], dirs[k])
         && AreRounds(dirs[..k], names[..k - 1], bundles[..k - 1])
  }

  ghost predicate IsRound(d: Dir, v: string, b: Bundle, d': Dir)
  {
    exists installed :: Installed(d, v, b, installed) && d' == Pruned(installed)
  }

  /** The last three of `s`, or all when there are fewer. */
  function LastThree(s: seq<string>): seq<string>
  {
    if |s| <= 3 then s else s[|s| - 3..]
  }

  lemma InLastThree(s: seq<string>, i: nat)
    requires StrictlySorted(s, Less) && i < |s|
    ensures s[i] in LastThree(s) <==> |s| - 1 - i < 3
  {
    LessIsOrder();
    var last := LastThree(s);
    var lo := |s| - |last|;
    forall j | 0 <= j < |last| ensures last[j] == s[lo + j] && (last[j] == s[i] <==> lo + j == i) {
      assert lo + j < i ==> Less(s[lo + j], s[i]);
      assert i < lo + j ==> Less(s[i], s[lo + j]);
    }
    if i >= lo { assert last[i - lo] == s[i]; }
  }

  /** A finished Prune right after a Write keeps the last three of the names present, whatever their number. */
  lemma PruneKeepsLastThree(d: Dir, names: seq<string>)
    requires StrictlySorted(names, Less) && names != []
    requires d.versions.Keys == Elements(names) && d.current == Link(names[|names| - 1])
    ensures Pruned(d).versions.Keys == Elements(LastThree(names))
  {
    forall v | v in d.versions ensures Kept(d, v) <==> v in LastThree(names) {
      assert v in Elements(names);
      var i :| 0 <= i < |names| && names[i] == v;
      AboveInOrder(names, i);
      InLastThree(names, i);
      InLastThree(names, |names| - 1);
    }
    assert forall v :: v in LastThree(names) ==> v in Elements(names);
  }

  /** Every version holds the bundle written under its name. */
  ghost predicate HoldsBundles(d: Dir, names: seq<string>, bundles: seq<Bundle>)
    requires |names| == |bundles|
  {
    forall i :: 0 <= i < |names| && names[i] in d.versions ==> d.versions[names[i]] == Files(bundles[i])
  }

  /** Exactly the last min(k, 3) of the k versions remain, each whole, and the newest is current. */
  ghost predicate RoundsLeave(d: Dir, names: seq<string>, bundles: seq<Bundle>)
    requires |names| == |bundles|
  {
    && d.versions.Keys == Elements(LastThree(names))
    && d.current == (if names == [] then Absent else Link(names[|names| - 1]))
    && HoldsBundles(d, names, bundles)
  }

  /** After any number of rounds with increasing names. */
  lemma {:induction false} RoundsKeepTheLastThree(dirs: seq<Dir>, names: seq<string>, bundles: seq<Bundle>)
    requires AreRounds(dirs, names, bundles) && StrictlySorted(names, Less)
    ensures RoundsLeave(dirs[|names|], names, bundles)
    decreases |names|
  {
    if names != [] {
      var k := |names| - 1;
      RoundsKeepTheLastThree(dirs[..k + 1], names[..k], bundles[..k]);
      RoundMore(dirs[k], names, bundles, dirs[k + 1]);
    }
  }

  lemma BackTogether<T>(s: seq<T>)
    requires s != []
    ensures s[..|s| - 1] + [s[|s| - 1]] == s
  {
  }

  lemma RoundMore(d: Dir, names: seq<string>, bundles: seq<Bundle>, d': Dir)
    requires names != [] && |names| == |bundles| && StrictlySorted(names, Less)
    requires var k := |names| - 1; RoundsLeave(d, names[..k], bundles[..k]) && IsRound(d, names[k], bundles[k], d')
    ensures RoundsLeave(d', names, bundles)
  {
    var k := |names| - 1;
    var names0, bundles0, v, b := names[..k], bundles[..k], names[k], bundles[k];
    BackTogether(names);
    BackTogether(bundles);
    assert StrictlySorted(names0 + [v], Less);
    OneRound(d, names0, bundles0, v, b, d');
  }

  lemma LastThreeOfThree(names: seq<string>, v: string)
    requires StrictlySorted(names + [v], Less)
    ensures LastThree(LastThree(names) + [v]) == LastThree(names + [v])
    ensures StrictlySorted(LastThree(names) + [v], Less)
    ensures v !in names
  {
    var all, present := names + [v], LastThree(names) + [v];
    var lo := |all| - |present|;
    assert forall i :: 0 <= i < |present| ==> present[i] == all[lo + i];
    LessIrreflexive(v);
    assert forall i :: 0 <= i < |names| ==> names[i] == all[i] && Less(all[i], all[|names|]);
  }

  lemma OneRound(d: Dir, names: seq<string>, bundles: seq<Bundle>, v: string, b: Bundle, d': Dir)
    requires StrictlySorted(names + [v], Less) && |names| == |bundles|
    requires d.versions.Keys == Elements(LastThree(names)) && HoldsBundles(d, names, bundles) && IsRound(d, v, b, d')
    ensures d'.versions.Keys == Elements(LastThree(names + [v])) && d'.current == Link(v)
    ensures HoldsBundles(d', names + [v], bundles + [b])
  {
    var installed :| Installed(d, v, b, installed) && d' == Pruned(installed);
    LastThreeOfThree(names, v);
    OverlayIsBundle(FilesOf(d, v), b);
    assert FilesOf(d, v) == map[];
    var present := LastThree(names) + [v];
    assert installed.versions.Keys == Elements(present);
    PruneKeepsLastThree(installed, present);
    BundlesKept(d, names, bundles, v, b, installed);
  }

  lemma BundlesKept(d: Dir, names: seq<string>, bundles: seq<Bundle>, v: string, b: Bundle, installed: Dir)
    requires |names| == |bundles| && v !in names && HoldsBundles(d, names, bundles)
    requires installed.versions == d.versions[v := Files(b)]
    ensures HoldsBundles(Pruned(installed), names + [v], bundles + [b])
  {
    var names', bundles' := names + [v], bundles + [b];
    forall i | 0 <= i < |names'| && names'[i] in Pruned(installed).versions
      ensures Pruned(installed).versions[names'[i]] == Files(bundles'[i])
    {
      if i < |names| { assert names[i] in names && names[i] in d.versions; }
    }
  }
}
