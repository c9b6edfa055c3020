/**
 * The recursive walks of src/bagit/bag.rs: `move_into_dir`, which moves or
 * copies a directory's files into the payload, and `calculate_digests`,
 * which records the files below a directory. The walk is given as the
 * sequence of entries `WalkDir` would yield without any filter, in its
 * pre-order; `filter_entry` pruning then follows from the names on the way
 * from the start directory down to each entry.
 */
module Walk {
  import opened Common
  import opened Errors
  import opened Digest
  import Utf8
  import Decimal
  import Consts
  import Paths
  import Meta

  datatype FileType = RegularFile | Directory | OtherType

  /**
   * An entry of the walk: its path relative to the start directory (`[]` for
   * the start directory itself), its type, its size, and the digests the
   * multi-digest writer computes from its contents.
   */
  datatype WalkEntry = WalkEntry(path: Path, fileType: FileType, size: u64, digests: map<DigestAlgorithm, HexDigest>)

  /** The three `filter_entry` closures of the source. */
  datatype Filter =
    | CreateFilter(tempName: OsStr, includeHidden: bool, inPlace: bool)  // `create_bag`
    | AllEntries                                                          // `update_payload_manifests`
    | TagFilter                                                           // `update_tag_manifests`

  /** Whether a closure lets an entry with this file name (and its subtree) through. */
  predicate Keep(f: Filter, name: OsStr)
  {
    match f
    case CreateFilter(tempName, includeHidden, inPlace) =>
      name != tempName && !(!includeHidden && !inPlace && Paths.IsHiddenFile(name))
    case AllEntries => true
    case TagFilter =>
      name != Meta.DATA_NAME &&
      match Utf8.Decode(name)
      case None => true
      case Some(n) => Consts.TagManifestMatch(n).None?
  }

  /** What one walk is run with: the start directory, its file name as the walk reports it, and the filter. */
  datatype WalkConfig = WalkConfig(srcDir: Path, rootName: OsStr, includeHidden: bool, filter: Filter)

  /** The file names from the start directory down to the entry. */
  function Names(cfg: WalkConfig, e: WalkEntry): (ns: seq<OsStr>)
    ensures |ns| == |e.path| + 1 && ns[0] == cfg.rootName
  {
    [cfg.rootName] + e.path
  }

  /** An entry below a directory with this name is never reached: it was pruned or deleted. */
  predicate Stops(cfg: WalkConfig, name: OsStr)
  {
    !Keep(cfg.filter, name) || (!cfg.includeHidden && Paths.IsHiddenFile(name))
  }

  /** Some name of `ns` stops the walk. */
  predicate AnyStops(cfg: WalkConfig, ns: seq<OsStr>)
  {
    ns != [] && (Stops(cfg, ns[0]) || AnyStops(cfg, ns[1..]))
  }

  lemma {:induction false} AnyStopsAt(cfg: WalkConfig, ns: seq<OsStr>)
    ensures AnyStops(cfg, ns) <==> exists i | 0 <= i < |ns| :: Stops(cfg, ns[i])
  {
    if ns != [] {
      AnyStopsAt(cfg, ns[1..]);
      if Stops(cfg, ns[0]) {
        assert Stops(cfg, ns[0]);
      }
      if exists i | 0 <= i < |ns| :: Stops(cfg, ns[i]) {
        var i :| 0 <= i < |ns| && Stops(cfg, ns[i]);
        if i > 0 { assert Stops(cfg, ns[1..][i - 1]); }
      }
    }
  }

  /** The ancestors' names, those of the start directory down to the parent, are what `AnyStops` scans in `Classify`. */
  lemma AncestorsStop(cfg: WalkConfig, e: WalkEntry)
    ensures AnyStops(cfg, Names(cfg, e)[..|e.path|]) <==> exists i | 0 <= i < |e.path| :: Stops(cfg, Names(cfg, e)[i])
  {
    var ns := Names(cfg, e);
    AnyStopsAt(cfg, ns[..|e.path|]);
    assert forall i | 0 <= i < |e.path| :: ns[..|e.path|][i] == ns[i];
  }

  /** What `move_into_dir` does with an entry of the unfiltered walk. */
  datatype Action = Skipped | Deleted | Recorded | DirectorySeen | Rejected

  function Classify(cfg: WalkConfig, e: WalkEntry): Action
  {
    var ns := Names(cfg, e);
    var own := ns[|ns| - 1];
    if AnyStops(cfg, ns[..|e.path|]) then Skipped
    else if !Keep(cfg.filter, own) then Skipped
    else if !cfg.includeHidden && Paths.IsHiddenFile(own) then Deleted
    else
      match e.fileType
      case RegularFile => Recorded
      case Directory => DirectorySeen
      case OtherType => Rejected
  }

  /** The entries with a given action, in walk order. */
  function Select(cfg: WalkConfig, entries: seq<WalkEntry>, a: Action): seq<WalkEntry>
  {
    if entries == [] then []
    else
      var rest := Select(cfg, entries[..|entries| - 1], a);
      var e := entries[|entries| - 1];
      if Classify(cfg, e) == a then rest + [e] else rest
  }

  /** The directories that the sweep removes: every seen directory but the start directory. */
  function Dangling(cfg: WalkConfig, entries: seq<WalkEntry>): seq<WalkEntry>
  {
    if entries == [] then []
    else
      var rest := Dangling(cfg, entries[..|entries| - 1]);
      var e := entries[|entries| - 1];
      if Classify(cfg, e) == DirectorySeen && e.path != [] then rest + [e] else rest
  }

  function MetaOf(e: WalkEntry): Meta.FileMeta
  {
    Meta.FileMeta(e.path, e.size, e.digests)
  }

  function MetasOf(es: seq<WalkEntry>): (ms: seq<Meta.FileMeta>)
    ensures |ms| == |es| && forall i | 0 <= i < |es| :: ms[i] == MetaOf(es[i])
  {
    if es == [] then [] else MetasOf(es[..|es| - 1]) + [MetaOf(es[|es| - 1])]
  }

  function FullPaths(srcDir: Path, es: seq<WalkEntry>): (ps: seq<Path>)
    ensures |ps| == |es| && forall i | 0 <= i < |es| :: ps[i] == srcDir + es[i].path
  {
    if es == [] then [] else FullPaths(srcDir, es[..|es| - 1]) + [srcDir + es[|es| - 1].path]
  }

  /** Position of the first entry that aborts the walk. */
  function FirstRejected(cfg: WalkConfig, entries: seq<WalkEntry>): (r: Option<nat>)
    ensures r.None? <==> forall i | 0 <= i < |entries| :: Classify(cfg, entries[i]) != Rejected
    ensures r.Some? ==> r.value < |entries| && Classify(cfg, entries[r.value]) == Rejected
                        && forall i | 0 <= i < r.value :: Classify(cfg, entries[i]) != Rejected
  {
    if entries == [] then None
    else if Classify(cfg, entries[0]) == Rejected then Some(0)
    else
      match FirstRejected(cfg, entries[1..])
      case None => None
      case Some(k) => Some(k + 1)
  }

  /** The outcome of the loop over the walk, before the sweep. */
  datatype Moved = Moved(fileMeta: seq<Meta.FileMeta>, deleted: seq<Path>, dirs: seq<Path>)

  /**
   * `move_into_dir`: walk `entries`, deleting hidden entries, recording and
   * transferring regular files, remembering directories when moving, and
   * stopping at the first entry of another type; then sweep the remembered
   * directories other than the start directory. `deleted` and `swept` are
   * the removals made.
   */
  method MoveIntoDir(copyOp: bool, cfg: WalkConfig, entries: seq<WalkEntry>)
    returns (r: Result<seq<Meta.FileMeta>>, deleted: seq<Path>, swept: seq<Path>)
    ensures FirstRejected(cfg, entries).None? ==>
      && r == Ok(MetasOf(Select(cfg, entries, Recorded)))
      && deleted == FullPaths(cfg.srcDir, Select(cfg, entries, Deleted))
      && swept == (if copyOp then [] else FullPaths(cfg.srcDir, Dangling(cfg, entries)))
    ensures FirstRejected(cfg, entries).Some? ==>
      var k := FirstRejected(cfg, entries).value;
      && r == Err(UnsupportedFile(cfg.srcDir + entries[k].path))
      && deleted == FullPaths(cfg.srcDir, Select(cfg, entries[..k], Deleted))
      && swept == []
  {
    var moved;
    r, moved := WalkLoop(copyOp, cfg, entries);
    deleted := moved.deleted;
    swept := [];
    if r.Ok? {
      swept := Sweep(cfg, entries, moved.dirs, copyOp);
    }
  }

  /** The `for file in WalkDir::new(src_dir)...` loop. */
  method WalkLoop(copyOp: bool, cfg: WalkConfig, entries: seq<WalkEntry>) returns (r: Result<seq<Meta.FileMeta>>, moved: Moved)
    ensures FirstRejected(cfg, entries).None? ==>
      && r == Ok(MetasOf(Select(cfg, entries, Recorded)))
      && moved.deleted == FullPaths(cfg.srcDir, Select(cfg, entries, Deleted))
      && moved.dirs == (if copyOp then [] else FullPaths(cfg.srcDir, Select(cfg, entries, DirectorySeen)))
    ensures FirstRejected(cfg, entries).Some? ==>
      var k := FirstRejected(cfg, entries).value;
      && r == Err(UnsupportedFile(cfg.srcDir + entries[k].path))
      && moved.deleted == FullPaths(cfg.srcDir, Select(cfg, entries[..k], Deleted))
  {
    var fileMeta := [];
    var deleted := [];
    var dirs := [];
    var i := 0;
    while i < |entries|
      invariant 0 <= i <= |entries|
      invariant forall j | 0 <= j < i :: Classify(cfg, entries[j]) != Rejected
      invariant fileMeta == MetasOf(Select(cfg, entries[..i], Recorded))
      invariant deleted == FullPaths(cfg.srcDir, Select(cfg, entries[..i], Deleted))
      invariant dirs == (if copyOp then [] else FullPaths(cfg.srcDir, Select(cfg, entries[..i], DirectorySeen)))
    {
      var e := entries[i];
      var action := Classify(cfg, e);
      if action == Rejected {
        FirstRejectedAt(cfg, entries, i);
        return Err(UnsupportedFile(cfg.srcDir + e.path)), Moved(fileMeta, deleted, dirs);
      }
      NoneRejectedStep(cfg, entries, i);
      SelectStep(cfg, entries, i, Recorded);
      SelectStep(cfg, entries, i, Deleted);
      SelectStep(cfg, entries, i, DirectorySeen);
      if action == Deleted {
        FullPathsSnoc(cfg.srcDir, Select(cfg, entries[..i], Deleted), e);
        deleted := deleted + [cfg.srcDir + e.path];
      } else if action == Recorded {
        MetasOfSnoc(Select(cfg, entries[..i], Recorded), e);
        fileMeta := fileMeta + [MetaOf(e)];
      } else if action == DirectorySeen {
        if !copyOp {
          FullPathsSnoc(cfg.srcDir, Select(cfg, entries[..i], DirectorySeen), e);
          dirs := dirs + [cfg.srcDir + e.path];
        }
      }
      i := i + 1;
    }
    assert entries[..i] == entries;
    r := Ok(fileMeta);
    moved := Moved(fileMeta, deleted, dirs);
  }

  lemma SelectStep(cfg: WalkConfig, entries: seq<WalkEntry>, i: nat, a: Action)
    requires i < |entries|
    ensures Select(cfg, entries[..i + 1], a) ==
      if Classify(cfg, entries[i]) == a then Select(cfg, entries[..i], a) + [entries[i]] else Select(cfg, entries[..i], a)
  {
    assert entries[..i + 1][..i] == entries[..i];
  }

  lemma NoneRejectedStep(cfg: WalkConfig, entries: seq<WalkEntry>, i: nat)
    requires i < |entries| && Classify(cfg, entries[i]) != Rejected
    requires forall j | 0 <= j < i :: Classify(cfg, entries[j]) != Rejected
    ensures forall j | 0 <= j < i + 1 :: Classify(cfg, entries[j]) != Rejected
  {
  }

  lemma MetasOfSnoc(es: seq<WalkEntry>, e: WalkEntry)
    ensures MetasOf(es + [e]) == MetasOf(es) + [MetaOf(e)]
  {
    assert (es + [e])[..|es|] == es;
  }

  lemma FullPathsSnoc(srcDir: Path, es: seq<WalkEntry>, e: WalkEntry)
    ensures FullPaths(srcDir, es + [e]) == FullPaths(srcDir, es) + [srcDir + e.path]
  {
    assert (es + [e])[..|es|] == es;
  }

  lemma FirstRejectedAt(cfg: WalkConfig, entries: seq<WalkEntry>, i: nat)
    requires i < |entries| && Classify(cfg, entries[i]) == Rejected
    requires forall j | 0 <= j < i :: Classify(cfg, entries[j]) != Rejected
    ensures FirstRejected(cfg, entries) == Some(i)
  {
    var k := FirstRejected(cfg, entries).value;
    assert !(k < i) && !(i < k);
  }

  /** The dangling-directory sweep: every remembered directory except the start directory itself. */
  method Sweep(cfg: WalkConfig, entries: seq<WalkEntry>, dirs: seq<Path>, copyOp: bool) returns (swept: seq<Path>)
    requires dirs == (if copyOp then [] else FullPaths(cfg.srcDir, Select(cfg, entries, DirectorySeen)))
    ensures swept == (if copyOp then [] else FullPaths(cfg.srcDir, Dangling(cfg, entries)))
  {
    swept := [];
    if copyOp {
      return;
    }
    swept := SweepLoop(cfg.srcDir, Select(cfg, entries, DirectorySeen), dirs);
    DanglingIsNonRoot(cfg, entries);
  }

  /** The `for dir in dirs` loop of the sweep, over the directories `seen` that the walk remembered. */
  method SweepLoop(srcDir: Path, seen: seq<WalkEntry>, dirs: seq<Path>) returns (swept: seq<Path>)
    requires dirs == FullPaths(srcDir, seen)
    ensures swept == FullPaths(srcDir, NonRoot(seen))
  {
    swept := [];
    var i := 0;
    while i < |dirs|
      invariant 0 <= i <= |dirs|
      invariant swept == FullPaths(srcDir, NonRoot(seen[..i]))
    {
      SweepStep(srcDir, seen, i);
      if dirs[i] != srcDir {
        swept := swept + [dirs[i]];
      }
      i := i + 1;
    }
    assert seen[..i] == seen;
  }

  lemma SweepStep(srcDir: Path, seen: seq<WalkEntry>, i: nat)
    requires i < |seen|
    ensures FullPaths(srcDir, NonRoot(seen[..i + 1])) ==
      FullPaths(srcDir, NonRoot(seen[..i])) + if srcDir + seen[i].path != srcDir then [srcDir + seen[i].path] else []
  {
    assert seen[..i + 1][..i] == seen[..i];
    RootPathEquality(srcDir, seen[i].path);
    var rest := NonRoot(seen[..i]);
    if seen[i].path != [] {
      assert FullPaths(srcDir, rest + [seen[i]]) == FullPaths(srcDir, rest) + [srcDir + seen[i].path] by {
        assert (rest + [seen[i]])[..|rest|] == rest;
      }
    }
  }

  /** The entries with a non-empty path. */
  function NonRoot(es: seq<WalkEntry>): seq<WalkEntry>
  {
    if es == [] then []
    else
      var rest := NonRoot(es[..|es| - 1]);
      if es[|es| - 1].path != [] then rest + [es[|es| - 1]] else rest
  }

  lemma RootPathEquality(srcDir: Path, p: Path)
    ensures srcDir + p == srcDir <==> p == []
  {
    if srcDir + p == srcDir {
      assert |srcDir + p| == |srcDir| + |p|;
    }
  }

  lemma {:induction false} DanglingIsNonRoot(cfg: WalkConfig, entries: seq<WalkEntry>)
    ensures Dangling(cfg, entries) == NonRoot(Select(cfg, entries, DirectorySeen))
  {
    if entries != [] {
      var init := entries[..|entries| - 1];
      DanglingIsNonRoot(cfg, init);
      var e := entries[|entries| - 1];
      if Classify(cfg, e) == DirectorySeen {
        var s := Select(cfg, init, DirectorySeen);
        assert Select(cfg, entries, DirectorySeen) == s + [e];
        assert (s + [e])[..|s + [e]| - 1] == s;
      }
    }
  }

  /** An entry is selected for an action exactly when it is in the walk and has that action. */
  lemma {:induction false} SelectMembers(cfg: WalkConfig, entries: seq<WalkEntry>, a: Action, e: WalkEntry)
    ensures e in Select(cfg, entries, a) <==> e in entries && Classify(cfg, e) == a
  {
    if entries != [] {
      var init := entries[..|entries| - 1];
      SelectMembers(cfg, init, a, e);
      assert entries == init + [entries[|entries| - 1]];
    }
  }

  /** `calculate_digests`: the regular files the filter lets through, in walk order; nothing is deleted. */
  method CalculateDigests(baseDir: Path, rootName: OsStr, entries: seq<WalkEntry>, filter: Filter)
    returns (fileMeta: seq<Meta.FileMeta>)
    ensures fileMeta == MetasOf(Select(WalkConfig(baseDir, rootName, true, filter), entries, Recorded))
  {
    var cfg := WalkConfig(baseDir, rootName, true, filter);
    fileMeta := [];
    var i := 0;
    while i < |entries|
      invariant 0 <= i <= |entries|
      invariant fileMeta == MetasOf(Select(cfg, entries[..i], Recorded))
    {
      assert entries[..i + 1][..i] == entries[..i];
      var e := entries[i];
      if Classify(cfg, e) == Recorded {
        fileMeta := fileMeta + [MetaOf(e)];
      }
      i := i + 1;
    }
    assert entries[..i] == entries;
  }

  /** Every recorded entry is a regular file that the filter and the hidden-file rule let through, all the way down. */
  lemma RecordedEntries(cfg: WalkConfig, e: WalkEntry)
    requires Classify(cfg, e) == Recorded
    ensures e.fileType == RegularFile
    ensures forall i | 0 <= i < |Names(cfg, e)| :: Keep(cfg.filter, Names(cfg, e)[i])
    ensures !cfg.includeHidden ==> forall i | 0 <= i < |Names(cfg, e)| :: !Paths.IsHiddenFile(Names(cfg, e)[i])
  {
    AncestorsStop(cfg, e);
  }

  /** Conversely, every such regular file is recorded. */
  lemma RecordedWhenReachable(cfg: WalkConfig, e: WalkEntry)
    requires e.fileType == RegularFile
    requires forall i | 0 <= i < |Names(cfg, e)| :: !Stops(cfg, Names(cfg, e)[i])
    ensures Classify(cfg, e) == Recorded
  {
    AncestorsStop(cfg, e);
    var ns := Names(cfg, e);
    assert !Stops(cfg, ns[|ns| - 1]);
  }

  /** The configuration `create_bag` uses: the same hidden-file setting for the walk and the filter. */
  predicate CreateConfig(cfg: WalkConfig, tempName: OsStr, inPlace: bool)
  {
    cfg.filter == CreateFilter(tempName, cfg.includeHidden, inPlace)
  }

  /** The temporary directory is always pruned, at any depth, together with everything below it. */
  lemma TempDirPruned(cfg: WalkConfig, tempName: OsStr, inPlace: bool, e: WalkEntry)
    requires CreateConfig(cfg, tempName, inPlace)
    requires tempName in Names(cfg, e)
    ensures Classify(cfg, e) == Skipped
  {
    AncestorsStop(cfg, e);
    var ns := Names(cfg, e);
    var i :| 0 <= i < |ns| && ns[i] == tempName;
    if i < |ns| - 1 {
      assert Stops(cfg, ns[i]);
    }
  }

  /** Copying without hidden files: a hidden name anywhere on the way prunes the entry, and nothing is deleted. */
  lemma CopyModeNeverDeletes(cfg: WalkConfig, tempName: OsStr, e: WalkEntry)
    requires CreateConfig(cfg, tempName, false)
    ensures Classify(cfg, e) != Deleted
    ensures (exists i | 0 <= i < |Names(cfg, e)| :: Paths.IsHiddenFile(Names(cfg, e)[i])) && !cfg.includeHidden
            ==> Classify(cfg, e) == Skipped
  {
    AncestorsStop(cfg, e);
    var ns := Names(cfg, e);
    if !cfg.includeHidden && exists i | 0 <= i < |ns| :: Paths.IsHiddenFile(ns[i]) {
      var i :| 0 <= i < |ns| && Paths.IsHiddenFile(ns[i]);
      if i < |ns| - 1 {
        assert Stops(cfg, ns[i]);
      }
    }
  }

  /** In place without hidden files: a reachable hidden entry is deleted, whatever its type, and not recorded. */
  lemma InPlaceDeletesHidden(cfg: WalkConfig, tempName: OsStr, e: WalkEntry)
    requires CreateConfig(cfg, tempName, true) && !cfg.includeHidden
    requires forall i | 0 <= i < |Names(cfg, e)| - 1 :: !Stops(cfg, Names(cfg, e)[i])
    requires Paths.IsHiddenFile(Names(cfg, e)[|e.path|]) && Names(cfg, e)[|e.path|] != tempName
    ensures Classify(cfg, e) == Deleted
  {
    AncestorsStop(cfg, e);
  }

  /** With hidden files included nothing is ever deleted. */
  lemma IncludeHiddenNeverDeletes(cfg: WalkConfig, entries: seq<WalkEntry>)
    requires cfg.includeHidden
    ensures Select(cfg, entries, Deleted) == []
  {
    if Select(cfg, entries, Deleted) != [] {
      var e := Select(cfg, entries, Deleted)[0];
      SelectMembers(cfg, entries, Deleted, e);
    }
  }

  /** A reachable entry that is neither a regular file nor a directory aborts the walk with its full path. */
  lemma OtherTypeRejected(cfg: WalkConfig, e: WalkEntry)
    requires e.fileType == OtherType
    requires forall i | 0 <= i < |Names(cfg, e)| :: !Stops(cfg, Names(cfg, e)[i])
    ensures Classify(cfg, e) == Rejected
  {
    AncestorsStop(cfg, e);
    var ns := Names(cfg, e);
    assert !Stops(cfg, ns[|ns| - 1]);
  }

  /** `update_tag_manifests` skips the `data` directory and tag manifests; non-UTF-8 names pass. */
  lemma TagFilterRule(n: string)
    ensures !Keep(TagFilter, Meta.DATA_NAME)
    ensures Keep(TagFilter, Utf8.Encode(n)) <==> n != Consts.DATA && Consts.TagManifestMatch(n).None?
  {
    Utf8.DecodeEncode(n);
    Meta.DataNameIsData();
    Utf8.DecodeEncode(Consts.DATA);
  }

  /** The tag filter also applies to the start directory: a bag directory named `data` yields no tag files. */
  lemma TagWalkOfDataDir(cfg: WalkConfig, e: WalkEntry)
    requires cfg.filter == TagFilter && cfg.rootName == Meta.DATA_NAME
    ensures Classify(cfg, e) == Skipped
  {
    AncestorsStop(cfg, e);
    var ns := Names(cfg, e);
    if |ns| > 1 {
      assert Stops(cfg, ns[0]);
    }
  }

  /** `format!("temp-{}", epoch_seconds())` as a file name. */
  function TempName(epochSeconds: nat): OsStr
  {
    Utf8.Encode("temp-" + Decimal.Format(epochSeconds))
  }

  /** Different start times give different temporary directory names. */
  lemma TempNameInjective(s: nat, t: nat)
    requires TempName(s) == TempName(t)
    ensures s == t
  {
    Utf8.DecodeEncode("temp-" + Decimal.Format(s));
    Utf8.DecodeEncode("temp-" + Decimal.Format(t));
    assert ("temp-" + Decimal.Format(s))[5..] == Decimal.Format(s);
    assert ("temp-" + Decimal.Format(t))[5..] == Decimal.Format(t);
    Decimal.FormatInjective(s, t);
  }
}
