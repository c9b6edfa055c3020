/**
 * `write_manifests` (src/bagit/bag.rs): one manifest file per algorithm,
 * holding one line `<digest>  <encoded path>` per file, in path order.
 * The order is that of `PathBuf`, component by component, on the paths
 * before they are percent-encoded.
 */
module Manifests {
  import opened Common
  import opened Errors
  import opened Digest
  import Utf8
  import Paths
  import Encoding
  import Consts
  import LineSplit
  import Meta

  type FileMeta = Meta.FileMeta

  /** Ordered by path: no later entry has a smaller path. */
  predicate Sorted(s: seq<FileMeta>)
  {
    forall i, j | 0 <= i < j < |s| :: Paths.PathLe(s[i].path, s[j].path)
  }

  /** `x`, which came after every entry of `s`, put before the first entry with a greater path. */
  function Insert(s: seq<FileMeta>, x: FileMeta): (r: seq<FileMeta>)
    ensures |r| == |s| + 1
    ensures multiset(r) == multiset(s) + multiset{x}
  {
    if s == [] then [x]
    else if Paths.PathLess(x.path, s[0].path) then [x] + s
    else
      assert s == [s[0]] + s[1..];
      [s[0]] + Insert(s[1..], x)
  }

  /** Reference definition of `sort_by(|a, b| a.path.cmp(&b.path))`: a stable insertion sort. */
  function SortedByPath(s: seq<FileMeta>): (r: seq<FileMeta>)
    ensures |r| == |s|
    ensures multiset(r) == multiset(s)
  {
    if s == [] then []
    else
      assert s == s[..|s| - 1] + [s[|s| - 1]];
      Insert(SortedByPath(s[..|s| - 1]), s[|s| - 1])
  }

  lemma {:induction false} InsertSorted(s: seq<FileMeta>, x: FileMeta)
    requires Sorted(s)
    ensures Sorted(Insert(s, x))
  {
    if s == [] {
    } else if Paths.PathLess(x.path, s[0].path) {
      Paths.PathLessAsymmetric(x.path, s[0].path);
      forall k | 0 <= k < |s| ensures Paths.PathLe(x.path, s[k].path) {
        if k > 0 { Paths.PathLeTransitive(x.path, s[0].path, s[k].path); }
      }
      LeastFirst(x, s);
    } else {
      var t := Insert(s[1..], x);
      InsertSorted(s[1..], x);
      forall y | y in t ensures Paths.PathLe(s[0].path, y.path) {
        assert y in multiset(t);
        if y != x {
          assert y in multiset(s[1..]);
          var k :| 0 <= k < |s[1..]| && s[1..][k] == y;
          assert s[k + 1] == y;
        }
      }
      forall k | 0 <= k < |t| ensures Paths.PathLe(s[0].path, t[k].path) {
        assert t[k] in t;
      }
      LeastFirst(s[0], t);
    }
  }

  /** A sorted list stays sorted behind an entry whose path is below all of it. */
  lemma LeastFirst(x: FileMeta, s: seq<FileMeta>)
    requires Sorted(s)
    requires forall k | 0 <= k < |s| :: Paths.PathLe(x.path, s[k].path)
    ensures Sorted([x] + s)
  {
    var r := [x] + s;
    forall i, j | 0 <= i < j < |r| ensures Paths.PathLe(r[i].path, r[j].path) {
      if i == 0 {
        assert r[j] == s[j - 1];
      } else {
        assert r[i] == s[i - 1] && r[j] == s[j - 1];
      }
    }
  }

  /** The sort orders by path and keeps every entry: it is a permutation. */
  lemma {:induction false} SortedByPathSorted(s: seq<FileMeta>)
    ensures Sorted(SortedByPath(s))
    ensures multiset(SortedByPath(s)) == multiset(s)
  {
    if s != [] {
      SortedByPathSorted(s[..|s| - 1]);
      InsertSorted(SortedByPath(s[..|s| - 1]), s[|s| - 1]);
    }
  }

  /** Entries with the same path are the same entry: paths identify files, as in one walk. */
  predicate PathsIdentify(m: multiset<FileMeta>)
  {
    forall x, y | x in m && y in m && x.path == y.path :: x == y
  }

  /** Two sorted lists holding the same entries, with paths identifying entries, are equal. */
  lemma {:induction false} SortedUnique(u: seq<FileMeta>, v: seq<FileMeta>)
    requires Sorted(u) && Sorted(v)
    requires multiset(u) == multiset(v) && PathsIdentify(multiset(u))
    ensures u == v
    decreases |u|
  {
    if u != [] && v != [] {
      HeadsEqual(u, v);
      TailsSame(u, v);
      LeastFirstTail(u);
      LeastFirstTail(v);
      SortedUnique(u[1..], v[1..]);
    }
  }

  lemma HeadsEqual(u: seq<FileMeta>, v: seq<FileMeta>)
    requires Sorted(u) && Sorted(v) && u != [] && v != []
    requires multiset(u) == multiset(v) && PathsIdentify(multiset(u))
    ensures u[0] == v[0]
  {
    assert u[0] in multiset(v) && v[0] in multiset(u);
    HeadIsLeast(u, v[0]);
    HeadIsLeast(v, u[0]);
    Paths.PathLessTotal(u[0].path, v[0].path);
    assert u[0] in multiset(u) && u[0].path == v[0].path;
  }

  lemma TailsSame(u: seq<FileMeta>, v: seq<FileMeta>)
    requires u != [] && v != [] && u[0] == v[0]
    requires multiset(u) == multiset(v) && PathsIdentify(multiset(u))
    ensures multiset(u[1..]) == multiset(v[1..]) && PathsIdentify(multiset(u[1..]))
  {
    assert u == [u[0]] + u[1..] && v == [v[0]] + v[1..];
    assert multiset(u[1..]) <= multiset(u);
  }

  /** The head of a sorted list has the least path. */
  lemma HeadIsLeast(s: seq<FileMeta>, y: FileMeta)
    requires Sorted(s) && y in multiset(s)
    ensures Paths.PathLe(s[0].path, y.path)
  {
    var k :| 0 <= k < |s| && s[k] == y;
    if k == 0 { Paths.PathLessIrreflexive(y.path); }
  }

  lemma LeastFirstTail(s: seq<FileMeta>)
    requires Sorted(s) && s != []
    ensures Sorted(s[1..])
  {
    forall i, j | 0 <= i < j < |s| - 1 ensures Paths.PathLe(s[1..][i].path, s[1..][j].path) {
      assert s[1..][i] == s[i + 1] && s[1..][j] == s[j + 1];
    }
  }

  /**
   * The sort makes the manifests deterministic: whatever order the walk
   * yields the files in, the sorted list is the same.
   */
  lemma SortDeterministic(s: seq<FileMeta>, t: seq<FileMeta>)
    requires multiset(s) == multiset(t) && PathsIdentify(multiset(s))
    ensures SortedByPath(s) == SortedByPath(t)
  {
    SortedByPathSorted(s);
    SortedByPathSorted(t);
    SortedUnique(SortedByPath(s), SortedByPath(t));
  }

  /** `file_meta.sort_by(...)`: the slice is replaced by its sorted order. */
  method SortByPath(fileMeta: array<FileMeta>)
    modifies fileMeta
    ensures fileMeta[..] == SortedByPath(old(fileMeta[..]))
  {
    var sorted := SortedByPath(fileMeta[..]);
    var i := 0;
    while i < fileMeta.Length
      invariant 0 <= i <= fileMeta.Length
      invariant forall k | 0 <= k < i :: fileMeta[k] == sorted[k]
    {
      fileMeta[i] := sorted[i];
      i := i + 1;
    }
    assert fileMeta[..] == sorted;
  }

  /** The name of the manifest of an algorithm: `<prefix>-<algorithm>.txt`. */
  function ManifestName(prefix: string, a: DigestAlgorithm): string
  {
    prefix + "-" + Name(a) + ".txt"
  }

  /** The path of that manifest in the bag directory. */
  function ManifestPath(baseDir: Path, prefix: string, a: DigestAlgorithm): Path
  {
    baseDir + [Utf8.Encode(ManifestName(prefix, a))]
  }

  /** A written manifest name is matched by the manifest grammar and names its algorithm again. */
  lemma ManifestNameMatches(prefix: string, a: DigestAlgorithm)
    ensures Utf8.Decode(Utf8.Encode(ManifestName(prefix, a))) == Some(ManifestName(prefix, a))
    ensures Consts.ManifestCapture(prefix, ManifestName(prefix, a)) == Some(Name(a))
    ensures FromName(Name(a)) == Some(a)
  {
    Utf8.DecodeEncode(ManifestName(prefix, a));
    Consts.AlgorithmManifestMatches(prefix, a);
    FromNameOfName(a);
  }

  /** Every path prints as UTF-8 text. */
  predicate Printable(metas: seq<FileMeta>)
  {
    forall i | 0 <= i < |metas| :: Paths.ToStr(metas[i].path).Some?
  }

  /** Every entry has a digest for `a`. */
  predicate HasDigests(metas: seq<FileMeta>, a: DigestAlgorithm)
  {
    forall i | 0 <= i < |metas| :: a in metas[i].digests
  }

  /** `writeln!(manifest, "{digest}  {normalized}")`. */
  function LineText(digest: HexDigest, normalized: string): string
  {
    digest + "  " + normalized + "\n"
  }

  /** The line that `m` contributes to the manifest of `a`. */
  function LineOf(m: FileMeta, a: DigestAlgorithm): string
    requires Paths.ToStr(m.path).Some? && a in m.digests
  {
    LineText(m.digests[a], Encoding.Encoded(Paths.ToStr(m.path).value))
  }

  /** `n` copies of `line`. */
  function Repeat(line: string, n: nat): string
  {
    if n == 0 then [] else Repeat(line, n - 1) + line
  }

  /**
   * Reference definition of the text of the manifest of `a`: the lines of
   * the entries in order, each repeated as often as `a` occurs in the
   * algorithm list (each occurrence writes the line again).
   */
  function Manifest(metas: seq<FileMeta>, a: DigestAlgorithm, n: nat): string
    requires Printable(metas) && HasDigests(metas, a)
  {
    if metas == [] then []
    else
      var last := metas[|metas| - 1];
      Manifest(metas[..|metas| - 1], a, n) + Repeat(LineOf(last, a), n)
  }

  /** Position of the first entry whose path is not UTF-8. */
  function FirstUnprintable(metas: seq<FileMeta>): (r: Option<nat>)
    ensures r.None? <==> Printable(metas)
    ensures r.Some? ==> r.value < |metas| && Paths.ToStr(metas[r.value].path).None?
    ensures r.Some? ==> forall i | 0 <= i < r.value :: Paths.ToStr(metas[i].path).Some?
  {
    if metas == [] then None
    else if Paths.ToStr(metas[0].path).None? then Some(0)
    else
      match FirstUnprintable(metas[1..])
      case None => None
      case Some(k) => Some(k + 1)
  }

  /** The manifests after the creation loop: an empty file for each algorithm so far. */
  function Created(algorithms: seq<DigestAlgorithm>): map<DigestAlgorithm, string>
  {
    map a | a in algorithms :: []
  }

  /** Every entry has a digest for every algorithm. */
  predicate AllDigests(metas: seq<FileMeta>, algorithms: seq<DigestAlgorithm>)
  {
    forall a | a in algorithms :: HasDigests(metas, a)
  }

  /** What the writing loop has produced once the entries `metas` are written. */
  predicate Holds(manifests: map<DigestAlgorithm, string>, algorithms: seq<DigestAlgorithm>, metas: seq<FileMeta>)
    requires Printable(metas) && AllDigests(metas, algorithms)
  {
    && (forall a :: a in manifests <==> a in algorithms)
    && forall a | a in algorithms :: manifests[a] == Manifest(metas, a, Count(algorithms, a))
  }

  /**
   * `write_manifests`. The file system is reduced to a parameter: the
   * position in `algorithms` and the kind of the first failing
   * `File::create`, if any. `manifests` maps each algorithm whose file was
   * created to the text written to it. The walk supplies a digest of every
   * file for every algorithm; the source panics otherwise.
   */
  method WriteManifests(algorithms: seq<DigestAlgorithm>, fileMeta: array<FileMeta>, prefix: string,
                        baseDir: Path, createFailure: Option<(nat, IoErrorKind)>)
    returns (r: Result<()>, manifests: map<DigestAlgorithm, string>)
    requires AllDigests(fileMeta[..], algorithms)
    modifies fileMeta
    ensures createFailure.Some? && createFailure.value.0 < |algorithms| ==>
      var k := createFailure.value.0;
      && r == Err(IoCreate(createFailure.value.1, ManifestPath(baseDir, prefix, algorithms[k])))
      && manifests == Created(algorithms[..k])
      && fileMeta[..] == old(fileMeta[..])
    ensures !(createFailure.Some? && createFailure.value.0 < |algorithms|) ==>
      var sorted := SortedByPath(old(fileMeta[..]));
      && fileMeta[..] == sorted
      && AllDigests(sorted, algorithms)
      && match FirstUnprintable(sorted)
         case None => r == Ok(()) && Holds(manifests, algorithms, sorted)
         case Some(k) =>
           && r == Err(InvalidUtf8Path(sorted[k].path))
           && Printable(sorted[..k]) && AllDigests(sorted[..k], algorithms)
           && Holds(manifests, algorithms, sorted[..k])
  {
    manifests := map[];
    var j := 0;
    while j < |algorithms|
      invariant 0 <= j <= |algorithms|
      invariant manifests == Created(algorithms[..j])
      invariant createFailure.Some? ==> j <= createFailure.value.0
    {
      var algorithm := algorithms[j];
      if createFailure.Some? && createFailure.value.0 == j {
        return Err(IoCreate(createFailure.value.1, ManifestPath(baseDir, prefix, algorithm))), manifests;
      }
      assert algorithms[..j + 1] == algorithms[..j] + [algorithm];
      manifests := manifests[algorithm := []];
      j := j + 1;
    }
    assert algorithms[..j] == algorithms;
    ghost var before := fileMeta[..];
    SortByPath(fileMeta);
    SortedDigests(before, algorithms);
    r, manifests := WriteLines(algorithms, fileMeta[..], manifests);
  }

  /** The `for meta in file_meta` loop, over the sorted entries. */
  method WriteLines(algorithms: seq<DigestAlgorithm>, sorted: seq<FileMeta>, created: map<DigestAlgorithm, string>)
    returns (r: Result<()>, manifests: map<DigestAlgorithm, string>)
    requires AllDigests(sorted, algorithms) && created == Created(algorithms)
    ensures match FirstUnprintable(sorted)
      case None => r == Ok(()) && Holds(manifests, algorithms, sorted)
      case Some(k) =>
        && r == Err(InvalidUtf8Path(sorted[k].path))
        && Printable(sorted[..k]) && AllDigests(sorted[..k], algorithms)
        && Holds(manifests, algorithms, sorted[..k])
  {
    manifests := created;
    HoldsInitially(manifests, algorithms, sorted);
    var i := 0;
    while i < |sorted|
      invariant 0 <= i <= |sorted|
      invariant Printable(sorted[..i]) && AllDigests(sorted[..i], algorithms)
      invariant Holds(manifests, algorithms, sorted[..i])
    {
      var meta := sorted[i];
      var pathText := Paths.ToStr(meta.path);
      if pathText.None? {
        FirstUnprintableAt(sorted, i);
        return Err(InvalidUtf8Path(meta.path)), manifests;
      }
      var encoded := Encoding.PercentEncode(pathText.value);
      ghost var previous := manifests;
      EntryDigests(sorted, algorithms, i, previous);
      manifests := WriteEntry(manifests, algorithms, meta.digests, encoded);
      HoldsStep(previous, manifests, algorithms, sorted, i);
      i := i + 1;
    }
    assert sorted[..i] == sorted;
    r := Ok(());
  }

  lemma EntryDigests(s: seq<FileMeta>, algorithms: seq<DigestAlgorithm>, i: nat, manifests: map<DigestAlgorithm, string>)
    requires i < |s| && AllDigests(s, algorithms)
    requires Printable(s[..i]) && AllDigests(s[..i], algorithms) && Holds(manifests, algorithms, s[..i])
    ensures forall a | a in algorithms :: a in s[i].digests && a in manifests
  {
    forall a | a in algorithms ensures a in s[i].digests && a in manifests {
      assert HasDigests(s, a);
    }
  }

  lemma HoldsInitially(manifests: map<DigestAlgorithm, string>, algorithms: seq<DigestAlgorithm>, s: seq<FileMeta>)
    requires manifests == Created(algorithms)
    ensures Printable(s[..0]) && AllDigests(s[..0], algorithms)
    ensures Holds(manifests, algorithms, s[..0])
  {
    assert s[..0] == [];
  }

  /** Writing the lines of entry `i` extends every manifest by that entry's lines. */
  lemma HoldsStep(previous: map<DigestAlgorithm, string>, manifests: map<DigestAlgorithm, string>,
                  algorithms: seq<DigestAlgorithm>, s: seq<FileMeta>, i: nat)
    requires i < |s| && Printable(s[..i]) && Paths.ToStr(s[i].path).Some?
    requires AllDigests(s, algorithms)
    requires Holds(previous, algorithms, s[..i])
    requires manifests.Keys == previous.Keys && forall a | a in algorithms :: a in manifests && a in previous
    requires forall a | a in algorithms ::
      manifests[a] == previous[a] + Repeat(LineText(s[i].digests[a], Encoding.Encoded(Paths.ToStr(s[i].path).value)), Count(algorithms, a))
    ensures Printable(s[..i + 1]) && AllDigests(s[..i + 1], algorithms)
    ensures Holds(manifests, algorithms, s[..i + 1])
  {
    var t := s[..i + 1];
    assert t[..i] == s[..i] && t[i] == s[i];
    assert Printable(t);
    forall a, j | a in algorithms && 0 <= j < |t| ensures a in t[j].digests {
      assert HasDigests(s, a);
    }
    forall a | a in algorithms ensures manifests[a] == Manifest(t, a, Count(algorithms, a)) {
    }
  }

  lemma SortedDigests(s: seq<FileMeta>, algorithms: seq<DigestAlgorithm>)
    requires AllDigests(s, algorithms)
    ensures AllDigests(SortedByPath(s), algorithms)
  {
    var t := SortedByPath(s);
    forall a, i | a in algorithms && 0 <= i < |t| ensures a in t[i].digests {
      assert t[i] in multiset(s);
      var k :| 0 <= k < |s| && s[k] == t[i];
      assert HasDigests(s, a);
    }
  }

  lemma {:induction false} FirstUnprintableAt(s: seq<FileMeta>, i: nat)
    requires i < |s| && Printable(s[..i]) && Paths.ToStr(s[i].path).None?
    ensures FirstUnprintable(s) == Some(i)
  {
    if i > 0 {
      assert s[..i][0] == s[0];
      assert s[1..][..i - 1] == s[..i][1..];
      assert s[1..][i - 1] == s[i];
      FirstUnprintableAt(s[1..], i - 1);
    }
  }

  /** The inner `for algorithm in algorithms` loop: one line per algorithm occurrence, with that algorithm's digest. */
  method WriteEntry(manifests: map<DigestAlgorithm, string>, algorithms: seq<DigestAlgorithm>,
                    digests: map<DigestAlgorithm, HexDigest>, normalized: string)
    returns (written: map<DigestAlgorithm, string>)
    requires forall a | a in algorithms :: a in digests && a in manifests
    ensures written.Keys == manifests.Keys
    ensures forall a | a in algorithms :: written[a] == manifests[a] + Repeat(LineText(digests[a], normalized), Count(algorithms, a))
  {
    written := manifests;
    var k := 0;
    while k < |algorithms|
      invariant 0 <= k <= |algorithms|
      invariant written.Keys == manifests.Keys
      invariant forall a | a in algorithms :: written[a] == manifests[a] + Repeat(LineText(digests[a], normalized), Count(algorithms[..k], a))
    {
      var algorithm := algorithms[k];
      EntryStep(manifests, written, algorithms, k, digests, normalized);
      written := written[algorithm := written[algorithm] + LineText(digests[algorithm], normalized)];
      k := k + 1;
    }
    assert algorithms[..k] == algorithms;
  }

  /** One more line, for the algorithm at position `k`. */
  lemma EntryStep(manifests: map<DigestAlgorithm, string>, written: map<DigestAlgorithm, string>,
                  algorithms: seq<DigestAlgorithm>, k: nat, digests: map<DigestAlgorithm, HexDigest>, normalized: string)
    requires k < |algorithms|
    requires forall a | a in algorithms :: a in digests && a in manifests && a in written
    requires forall a | a in algorithms ::
      written[a] == manifests[a] + Repeat(LineText(digests[a], normalized), Count(algorithms[..k], a))
    ensures var x := algorithms[k];
      forall a | a in algorithms ::
        written[x := written[x] + LineText(digests[x], normalized)][a] ==
        manifests[a] + Repeat(LineText(digests[a], normalized), Count(algorithms[..k + 1], a))
  {
    var x := algorithms[k];
    var line := LineText(digests[x], normalized);
    CountSnoc(algorithms[..k], x);
    assert algorithms[..k + 1] == algorithms[..k] + [x];
    var n := Count(algorithms[..k], x);
    assert written[x] + line == manifests[x] + Repeat(line, n + 1);
  }

  lemma {:induction false} CountSnoc<T>(s: seq<T>, x: T)
    ensures forall y :: Count(s + [x], y) == Count(s, y) + if x == y then 1 else 0
  {
    if s != [] {
      CountSnoc(s[1..], x);
      assert (s + [x])[1..] == s[1..] + [x];
    } else {
      assert [x][1..] == [];
    }
  }

  /** A manifest line without its terminator: `"{digest}  {normalized}"`. */
  function EntryLine(m: FileMeta, a: DigestAlgorithm): string
    requires Paths.ToStr(m.path).Some? && a in m.digests
  {
    m.digests[a] + "  " + Encoding.Encoded(Paths.ToStr(m.path).value)
  }

  /** The UTF-8 lines of the manifest of `a`, one per entry, in order. */
  function EncodedLines(metas: seq<FileMeta>, a: DigestAlgorithm): (r: seq<seq<byte>>)
    requires Printable(metas) && HasDigests(metas, a)
    ensures |r| == |metas|
    ensures forall i | 0 <= i < |metas| :: r[i] == Utf8.Encode(EntryLine(metas[i], a))
  {
    if metas == [] then []
    else EncodedLines(metas[..|metas| - 1], a) + [Utf8.Encode(EntryLine(metas[|metas| - 1], a))]
  }

  /** The manifest of an algorithm listed once is its lines, each ended by an LF. */
  lemma {:induction false} ManifestJoined(metas: seq<FileMeta>, a: DigestAlgorithm)
    requires Printable(metas) && HasDigests(metas, a)
    ensures Utf8.Encode(Manifest(metas, a, 1)) == LineSplit.JoinLf(EncodedLines(metas, a))
  {
    if metas != [] {
      var init := metas[..|metas| - 1];
      var last := metas[|metas| - 1];
      ManifestJoined(init, a);
      var line := EntryLine(last, a);
      assert Repeat(LineOf(last, a), 1) == line + "\n";
      EncodeTerminated(Manifest(init, a, 1), line);
      LineSplit.JoinLfSnoc(EncodedLines(init, a), Utf8.Encode(line));
    }
  }

  lemma EncodeTerminated(text: string, line: string)
    ensures Utf8.Encode(text + (line + "\n")) == Utf8.Encode(text) + Utf8.Encode(line) + [LF_B]
  {
    Utf8.EncodeAppend(text, line + "\n");
    Utf8.EncodeAppend(line, "\n");
    assert Utf8.Encode("\n") == [LF_B] by { assert "\n"[1..] == []; }
  }

  /** A line whose digest holds no CR or LF holds none at all: the path is encoded. */
  lemma EntryLineNoCrLf(m: FileMeta, a: DigestAlgorithm)
    requires Paths.ToStr(m.path).Some? && a in m.digests && NoCrLf(m.digests[a])
    ensures NoCrLf(EntryLine(m, a))
  {
    var d := m.digests[a];
    var e := Encoding.Encoded(Paths.ToStr(m.path).value);
    Encoding.EncodedNoCrLf(Paths.ToStr(m.path).value);
    var s := d + "  " + e;
    forall k | 0 <= k < |s| ensures s[k] != '\r' && s[k] != '\n' {
      if k < |d| {
        assert s[k] == d[k];
      } else if k >= |d| + 2 {
        assert s[k] == e[k - |d| - 2];
      }
    }
  }

  /**
   * The manifest of an algorithm listed once reads back, through the line
   * splitting of the bag reader, as exactly one line per entry, in the
   * sorted order: the percent-encoding keeps CR and LF of a path from
   * splitting its line.
   */
  lemma ManifestReadsBack(metas: seq<FileMeta>, a: DigestAlgorithm)
    requires Printable(metas) && HasDigests(metas, a)
    requires forall i | 0 <= i < |metas| :: NoCrLf(metas[i].digests[a])
    ensures LineSplit.Lines(Utf8.Encode(Manifest(metas, a, 1))) == EncodedLines(metas, a)
  {
    var lines := EncodedLines(metas, a);
    ManifestJoined(metas, a);
    forall k | 0 <= k < |metas| ensures NoCrLfBytes(lines[k]) {
      EntryLineNoCrLf(metas[k], a);
      Utf8.EncodeNoCrLf(EntryLine(metas[k], a));
    }
    LineSplit.LinesJoinLf(lines);
  }

  /** A line gives back its digest and, by percent-decoding what follows the two spaces, its path text. */
  lemma EntryLineFields(m: FileMeta, a: DigestAlgorithm)
    requires Paths.ToStr(m.path).Some? && a in m.digests
    ensures var line := EntryLine(m, a); var d := m.digests[a];
      && line[..|d|] == d && line[|d|..|d| + 2] == "  "
      && Encoding.PercentDecode(line[|d| + 2..]) == Paths.ToStr(m.path).value
  {
    var d := m.digests[a];
    var t := Paths.ToStr(m.path).value;
    var line := EntryLine(m, a);
    assert line[|d| + 2..] == Encoding.Encoded(t);
    Encoding.DecodeEncoded(t);
  }

  /** An algorithm listed twice gets every line twice in its manifest. */
  lemma DuplicateAlgorithmRepeats(m: FileMeta, a: DigestAlgorithm)
    requires Paths.ToStr(m.path).Some? && a in m.digests
    ensures Count([a, a], a) == 2
    ensures Printable([m]) && HasDigests([m], a)
    ensures Manifest([m], a, Count([a, a], a)) == LineOf(m, a) + LineOf(m, a)
  {
    assert [a, a][1..] == [a] && [a][1..] == [];
    assert [m][..0] == [];
    var line := LineOf(m, a);
    assert Repeat(line, 1) == line;
    assert Repeat(line, 2) == line + line;
  }
}
