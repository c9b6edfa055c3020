/**
 * The flat directory scans of src/bagit/bag.rs: `for_matching_files` and its
 * two users, `detect_digest_algorithms` and `delete_matching_files`. The
 * directory is given as the sequence of items `fs::read_dir` yields.
 */
module Listing {
  import opened Common
  import opened Errors
  import opened Digest
  import Utf8
  import Consts

  /** What `DirEntry::file_type` reports. */
  datatype FileKind = IsFile | NotFile | StatFailure(kind: IoErrorKind)

  /** One item of `fs::read_dir`: an entry, or an error while reading the directory. */
  datatype Listed = Entry(name: OsStr, fileKind: FileKind) | ReadFailure(kind: IoErrorKind)

  /** A matched file: its name and the text the regex captured. */
  datatype Match = Match(name: OsStr, capture: string)

  /** The match of `^<prefix>-([[:alnum:]]+)\.txt$` for an item: a file whose name is UTF-8 and matches. */
  function MatchOf(item: Listed, prefix: string): (r: Option<Match>)
    ensures r.Some? <==> item.Entry? && item.fileKind == IsFile && Utf8.Decode(item.name).Some?
                         && Consts.ManifestCapture(prefix, Utf8.Decode(item.name).value).Some?
    ensures r.Some? ==> r.value.name == item.name && Some(r.value.capture) == Consts.ManifestCapture(prefix, Utf8.Decode(item.name).value)
  {
    if item.Entry? && item.fileKind == IsFile then
      match Utf8.Decode(item.name)
      case None => None
      case Some(n) =>
        match Consts.ManifestCapture(prefix, n)
        case None => None
        case Some(c) => Some(Match(item.name, c))
    else None
  }

  /** An item that aborts the scan. */
  predicate Fails(item: Listed)
  {
    item.ReadFailure? || (item.Entry? && item.fileKind.StatFailure?)
  }

  /** The error an aborting item produces: `IoReadDir` on the directory or `IoStat` on the entry. */
  function FailureOf(baseDir: Path, item: Listed): Error
    requires Fails(item)
  {
    if item.ReadFailure? then IoReadDir(item.kind, baseDir)
    else IoStat(item.fileKind.kind, baseDir + [item.name])
  }

  /** The matches of the items, in listing order. */
  function Matches(listing: seq<Listed>, prefix: string): seq<Match>
  {
    if listing == [] then []
    else
      var rest := Matches(listing[1..], prefix);
      match MatchOf(listing[0], prefix)
      case None => rest
      case Some(m) => [m] + rest
  }

  /** Position of the first aborting item, if there is one. */
  function FirstFailure(listing: seq<Listed>): (r: Option<nat>)
    ensures r.None? <==> forall i | 0 <= i < |listing| :: !Fails(listing[i])
    ensures r.Some? ==> r.value < |listing| && Fails(listing[r.value])
                        && forall i | 0 <= i < r.value :: !Fails(listing[i])
  {
    if listing == [] then None
    else if Fails(listing[0]) then Some(0)
    else
      match FirstFailure(listing[1..])
      case None => None
      case Some(k) => Some(k + 1)
  }

  lemma {:induction false} MatchesAppend(a: seq<Listed>, b: seq<Listed>, prefix: string)
    ensures Matches(a + b, prefix) == Matches(a, prefix) + Matches(b, prefix)
  {
    if a == [] {
      assert a + b == b;
    } else {
      assert (a + b)[0] == a[0] && (a + b)[1..] == a[1..] + b;
      MatchesAppend(a[1..], b, prefix);
    }
  }

  /** Every match comes from one item of the listing, and every matching item contributes its match. */
  lemma {:induction false} MatchesMembers(listing: seq<Listed>, prefix: string, m: Match)
    ensures m in Matches(listing, prefix) <==> exists i | 0 <= i < |listing| :: MatchOf(listing[i], prefix) == Some(m)
  {
    if listing != [] {
      MatchesMembers(listing[1..], prefix, m);
      if exists i | 0 <= i < |listing| :: MatchOf(listing[i], prefix) == Some(m) {
        var i :| 0 <= i < |listing| && MatchOf(listing[i], prefix) == Some(m);
        if i > 0 { assert listing[1..][i - 1] == listing[i]; }
      }
      if exists i | 0 <= i < |listing| - 1 :: MatchOf(listing[1..][i], prefix) == Some(m) {
        var i :| 0 <= i < |listing| - 1 && MatchOf(listing[1..][i], prefix) == Some(m);
        assert listing[i + 1] == listing[1..][i];
      }
    }
  }

  /**
   * `for_matching_files`: open the directory, then visit its items in order,
   * collecting the matching files, until an item fails.
   */
  method ForMatchingFiles(baseDir: Path, openFailure: Option<IoErrorKind>, listing: seq<Listed>, prefix: string)
    returns (r: Result<()>, matched: seq<Match>)
    ensures openFailure.Some? ==> r == Err(IoReadDir(openFailure.value, baseDir)) && matched == []
    ensures openFailure.None? && FirstFailure(listing).None? ==> r == Ok(()) && matched == Matches(listing, prefix)
    ensures openFailure.None? && FirstFailure(listing).Some? ==>
      var k := FirstFailure(listing).value;
      r == Err(FailureOf(baseDir, listing[k])) && matched == Matches(listing[..k], prefix)
  {
    matched := [];
    if openFailure.Some? {
      return Err(IoReadDir(openFailure.value, baseDir)), matched;
    }
    var i := 0;
    while i < |listing|
      invariant 0 <= i <= |listing|
      invariant forall j | 0 <= j < i :: !Fails(listing[j])
      invariant matched == Matches(listing[..i], prefix)
    {
      var item := listing[i];
      if Fails(item) {
        return Err(FailureOf(baseDir, item)), matched;
      }
      MatchesAppend(listing[..i], [item], prefix);
      assert listing[..i + 1] == listing[..i] + [item];
      assert [item][1..] == [];
      match MatchOf(item, prefix) {
        case Some(m) => matched := matched + [m];
        case None =>
      }
      i := i + 1;
    }
    assert listing[..i] == listing;
    r := Ok(());
  }

  /** The algorithms whose names the captures are, skipping unsupported ones, in order. */
  function AlgorithmsOf(ms: seq<Match>): seq<DigestAlgorithm>
  {
    if ms == [] then []
    else
      var rest := AlgorithmsOf(ms[1..]);
      match FromName(ms[0].capture)
      case None => rest
      case Some(a) => [a] + rest
  }

  lemma {:induction false} AlgorithmsOfAppend(a: seq<Match>, b: seq<Match>)
    ensures AlgorithmsOf(a + b) == AlgorithmsOf(a) + AlgorithmsOf(b)
  {
    if a == [] {
      assert a + b == b;
    } else {
      assert (a + b)[0] == a[0] && (a + b)[1..] == a[1..] + b;
      AlgorithmsOfAppend(a[1..], b);
    }
  }

  /**
   * `detect_digest_algorithms`: the algorithm of each payload manifest found,
   * in listing order. Unsupported names are skipped; nothing is sorted or
   * deduplicated.
   */
  method DetectDigestAlgorithms(baseDir: Path, openFailure: Option<IoErrorKind>, listing: seq<Listed>)
    returns (r: Result<seq<DigestAlgorithm>>)
    ensures openFailure.Some? ==> r == Err(IoReadDir(openFailure.value, baseDir))
    ensures openFailure.None? && FirstFailure(listing).None? ==>
      r == Ok(AlgorithmsOf(Matches(listing, Consts.PAYLOAD_MANIFEST_PREFIX)))
    ensures openFailure.None? && FirstFailure(listing).Some? ==>
      r == Err(FailureOf(baseDir, listing[FirstFailure(listing).value]))
  {
    var scanned, matched := ForMatchingFiles(baseDir, openFailure, listing, Consts.PAYLOAD_MANIFEST_PREFIX);
    var algorithms := ConvertEach(matched);
    if scanned.Err? {
      return Err(scanned.error);
    }
    r := Ok(algorithms);
  }

  /** The scan callback of `detect_digest_algorithms`: push each supported capture, skip the others. */
  method ConvertEach(matched: seq<Match>) returns (algorithms: seq<DigestAlgorithm>)
    ensures algorithms == AlgorithmsOf(matched)
  {
    algorithms := [];
    var i := 0;
    while i < |matched|
      invariant 0 <= i <= |matched|
      invariant algorithms == AlgorithmsOf(matched[..i])
    {
      AlgorithmsOfAppend(matched[..i], [matched[i]]);
      assert matched[..i + 1] == matched[..i] + [matched[i]];
      assert [matched[i]][1..] == [];
      match FromName(matched[i].capture) {
        case Some(a) => algorithms := algorithms + [a];
        case None =>
      }
      i := i + 1;
    }
    assert matched[..i] == matched;
  }

  /** A detected algorithm is named, up to ASCII case, by some payload manifest file of the listing. */
  lemma DetectedHasManifest(listing: seq<Listed>, a: DigestAlgorithm)
    requires a in AlgorithmsOf(Matches(listing, Consts.PAYLOAD_MANIFEST_PREFIX))
    ensures exists i | 0 <= i < |listing| ::
      listing[i].Entry? && listing[i].fileKind == IsFile && Utf8.Decode(listing[i].name).Some?
      && var t := Consts.PayloadManifestMatch(Utf8.Decode(listing[i].name).value);
         t.Some? && FromName(t.value) == Some(a)
  {
    var ms := Matches(listing, Consts.PAYLOAD_MANIFEST_PREFIX);
    var m := AlgorithmFrom(ms, a);
    MatchesMembers(listing, Consts.PAYLOAD_MANIFEST_PREFIX, m);
  }

  /** The match that contributed `a`. */
  lemma {:induction false} AlgorithmFrom(ms: seq<Match>, a: DigestAlgorithm) returns (m: Match)
    requires a in AlgorithmsOf(ms)
    ensures m in ms && FromName(m.capture) == Some(a)
  {
    if FromName(ms[0].capture) == Some(a) {
      m := ms[0];
    } else {
      m := AlgorithmFrom(ms[1..], a);
    }
  }

  /** A listed file whose UTF-8 name is a payload manifest name of a supported algorithm contributes that algorithm. */
  lemma ManifestFileDetected(listing: seq<Listed>, i: nat, name: string, a: DigestAlgorithm)
    requires i < |listing| && listing[i] == Entry(Utf8.Encode(name), IsFile)
    requires Consts.PayloadManifestMatch(name).Some? && FromName(Consts.PayloadManifestMatch(name).value) == Some(a)
    ensures a in AlgorithmsOf(Matches(listing, Consts.PAYLOAD_MANIFEST_PREFIX))
  {
    var prefix := Consts.PAYLOAD_MANIFEST_PREFIX;
    Utf8.DecodeEncode(name);
    var m := Match(listing[i].name, Consts.PayloadManifestMatch(name).value);
    assert MatchOf(listing[i], prefix) == Some(m);
    MatchesAround(listing, i, prefix, m);
    AlgorithmsAround(Matches(listing[..i], prefix), m, Matches(listing[i + 1..], prefix), a);
  }

  /** The matches of a listing around one matching item. */
  lemma MatchesAround(listing: seq<Listed>, i: nat, prefix: string, m: Match)
    requires i < |listing| && MatchOf(listing[i], prefix) == Some(m)
    ensures Matches(listing, prefix) == Matches(listing[..i], prefix) + [m] + Matches(listing[i + 1..], prefix)
  {
    var before, after := listing[..i], listing[i + 1..];
    assert listing == before + [listing[i]] + after;
    MatchesAppend(before + [listing[i]], after, prefix);
    MatchesAppend(before, [listing[i]], prefix);
    assert [listing[i]][1..] == [];
  }

  lemma AlgorithmsAround(mb: seq<Match>, m: Match, ma: seq<Match>, a: DigestAlgorithm)
    requires FromName(m.capture) == Some(a)
    ensures a in AlgorithmsOf(mb + [m] + ma)
  {
    AlgorithmsOfAppend(mb, [m]);
    AlgorithmsOfAppend(mb + [m], ma);
    assert [m][1..] == [];
    assert AlgorithmsOf([m]) == [a];
    var all := AlgorithmsOf(mb) + [a] + AlgorithmsOf(ma);
    assert all[|AlgorithmsOf(mb)|] == a;
  }

  /** The file `manifest-<name>.txt` of each algorithm is one such file. */
  lemma AlgorithmManifestDetected(a: DigestAlgorithm)
    ensures Consts.PayloadManifestMatch(Consts.PAYLOAD_MANIFEST_PREFIX + "-" + Name(a) + ".txt") == Some(Name(a))
    ensures FromName(Name(a)) == Some(a)
  {
    Consts.AlgorithmManifestMatches(Consts.PAYLOAD_MANIFEST_PREFIX, a);
    FromNameOfName(a);
  }

  /**
   * Two payload manifests give their algorithms in listing order and with
   * repetition: `manifest-sha512.txt` listed before `manifest-md5.txt` gives
   * `[Sha512, Md5]`, and `manifest-sha512.txt` with `manifest-SHA512.txt`
   * gives `Sha512` twice.
   */
  lemma DetectKeepsListingOrder(na: string, a: DigestAlgorithm, nb: string, b: DigestAlgorithm)
    requires Consts.PayloadManifestMatch(na).Some? && FromName(Consts.PayloadManifestMatch(na).value) == Some(a)
    requires Consts.PayloadManifestMatch(nb).Some? && FromName(Consts.PayloadManifestMatch(nb).value) == Some(b)
    ensures AlgorithmsOf(Matches([Entry(Utf8.Encode(na), IsFile), Entry(Utf8.Encode(nb), IsFile)],
                                 Consts.PAYLOAD_MANIFEST_PREFIX)) == [a, b]
  {
    var prefix := Consts.PAYLOAD_MANIFEST_PREFIX;
    var ea := Entry(Utf8.Encode(na), IsFile);
    var eb := Entry(Utf8.Encode(nb), IsFile);
    Utf8.DecodeEncode(na);
    Utf8.DecodeEncode(nb);
    var ma := Match(ea.name, Consts.PayloadManifestMatch(na).value);
    var mb := Match(eb.name, Consts.PayloadManifestMatch(nb).value);
    assert MatchOf(ea, prefix) == Some(ma);
    assert MatchOf(eb, prefix) == Some(mb);
    assert [ea, eb][1..] == [eb];
    assert [eb][1..] == [];
    assert Matches([eb], prefix) == [mb];
    assert Matches([ea, eb], prefix) == [ma, mb];
    assert [ma, mb][1..] == [mb];
    assert AlgorithmsOf([mb]) == [b];
    assert AlgorithmsOf([ma, mb]) == [a] + [b];
  }

  /**
   * `delete_matching_files`: the files whose names match are removed in
   * listing order; removal failures are only logged, so the result depends on
   * the scan alone.
   */
  method DeleteMatchingFiles(baseDir: Path, openFailure: Option<IoErrorKind>, listing: seq<Listed>, prefix: string)
    returns (r: Result<()>, removed: seq<Path>)
    ensures openFailure.Some? ==> r == Err(IoReadDir(openFailure.value, baseDir)) && removed == []
    ensures openFailure.None? && FirstFailure(listing).None? ==>
      r == Ok(()) && removed == PathsOf(baseDir, Matches(listing, prefix))
    ensures openFailure.None? && FirstFailure(listing).Some? ==>
      var k := FirstFailure(listing).value;
      r == Err(FailureOf(baseDir, listing[k])) && removed == PathsOf(baseDir, Matches(listing[..k], prefix))
  {
    var matched;
    r, matched := ForMatchingFiles(baseDir, openFailure, listing, prefix);
    removed := RemoveEach(baseDir, matched);
  }

  /** The removal loop of the scan callback: one `remove_file` per matched file, in order. */
  method RemoveEach(baseDir: Path, matched: seq<Match>) returns (removed: seq<Path>)
    ensures removed == PathsOf(baseDir, matched)
  {
    removed := [];
    var i := 0;
    while i < |matched|
      invariant 0 <= i <= |matched|
      invariant removed == PathsOf(baseDir, matched[..i])
    {
      assert matched[..i + 1] == matched[..i] + [matched[i]];
      removed := removed + [baseDir + [matched[i].name]];
      i := i + 1;
    }
    assert matched[..i] == matched;
  }

  /** The full paths of matched files. */
  function PathsOf(baseDir: Path, ms: seq<Match>): (ps: seq<Path>)
    ensures |ps| == |ms|
    ensures forall i | 0 <= i < |ms| :: ps[i] == baseDir + [ms[i].name]
  {
    if ms == [] then [] else PathsOf(baseDir, ms[..|ms| - 1]) + [baseDir + [ms[|ms| - 1].name]]
  }

  /** Deleting payload manifests never touches a tag manifest, and the other way round. */
  lemma DeletionsDisjoint(listing: seq<Listed>, m: Match)
    requires m in Matches(listing, Consts.PAYLOAD_MANIFEST_PREFIX)
    ensures m !in Matches(listing, Consts.TAG_MANIFEST_PREFIX)
  {
    MatchesMembers(listing, Consts.PAYLOAD_MANIFEST_PREFIX, m);
    MatchesMembers(listing, Consts.TAG_MANIFEST_PREFIX, m);
    var i :| 0 <= i < |listing| && MatchOf(listing[i], Consts.PAYLOAD_MANIFEST_PREFIX) == Some(m);
    Consts.MatchersDisjoint(Utf8.Decode(m.name).value);
  }
}
