/**
 * `BagUpdater` (src/bagit/bag.rs): a builder over an opened bag that
 * collects the algorithms, the Bagging-Date and the Bag-Software-Agent to
 * use, and the choice `finalize` makes from them before it rewrites the
 * tag files and manifests.
 */
module Bags {
  import opened Common
  import opened Digest
  import opened Errors
  import Consts
  import Algorithms
  import Meta
  import Walk
  import Manifests

  /**
   * The parts of `Bag` the updater reads: its directory and the algorithms
   * of its existing manifests. The declaration and the bag-info are not part
   * of this model.
   */
  datatype Bag = Bag(baseDir: Path, algorithms: seq<DigestAlgorithm>)

  /** `bagr_software_agent`: `bagr v<version> <<url>>`, for the crate version `version`. */
  function SoftwareAgent(version: string): string
  {
    "bagr v" + version + " <" + Consts.BAGR_SRC_URL + ">"
  }

  /** The agent text names the version between the fixed prefix and the fixed suffix. */
  lemma SoftwareAgentVersion(version: string)
    ensures var s := SoftwareAgent(version);
      && |s| == |version| + 9 + |Consts.BAGR_SRC_URL|
      && s[..6] == "bagr v" && s[6..6 + |version|] == version
      && s[6 + |version|..] == " <" + Consts.BAGR_SRC_URL + ">"
  {
    var s := SoftwareAgent(version);
    assert s == "bagr v" + (version + (" <" + Consts.BAGR_SRC_URL + ">"));
  }

  /** Different versions give different agent texts. */
  lemma SoftwareAgentInjective(v: string, w: string)
    requires SoftwareAgent(v) == SoftwareAgent(w)
    ensures v == w
  {
    SoftwareAgentVersion(v);
    SoftwareAgentVersion(w);
  }

  /**
   * The algorithms `finalize` writes manifests for: those of the existing
   * manifests when payload manifests are kept or no algorithm was given,
   * otherwise the given ones, sorted, each once.
   */
  predicate IsChoice(recalculate: bool, existing: seq<DigestAlgorithm>, given: seq<DigestAlgorithm>, r: seq<DigestAlgorithm>)
  {
    if !recalculate || given == [] then r == existing
    else Algorithms.StrictlyIncreasing(r) && Algorithms.SameElements(r, given)
  }

  /** The choice depends on the given algorithms only as a set: their order and repetitions do not matter. */
  lemma ChoiceUnique(recalculate: bool, existing: seq<DigestAlgorithm>,
                     given: seq<DigestAlgorithm>, r: seq<DigestAlgorithm>,
                     given': seq<DigestAlgorithm>, r': seq<DigestAlgorithm>)
    requires IsChoice(recalculate, existing, given, r) && IsChoice(recalculate, existing, given', r')
    requires Algorithms.SameElements(given, given')
    ensures r == r'
  {
    if given != [] { assert given[0] in given'; }
    if given' != [] { assert given'[0] in given; }
    if recalculate && given != [] {
      Algorithms.StrictlyIncreasingUnique(r, r');
    }
  }

  type FileMeta = Meta.FileMeta

  /** The multi-digest writer gave every walked regular file a digest for every algorithm. */
  predicate Digested(entries: seq<Walk.WalkEntry>, algorithms: seq<DigestAlgorithm>)
  {
    forall e, a | e in entries && e.fileType == Walk.RegularFile && a in algorithms :: a in e.digests
  }

  /** The entries with `data/` put in front of their paths, as `add_data_prefix` leaves them. */
  function DataPrefixed(ms: seq<FileMeta>): seq<FileMeta>
  {
    seq(|ms|, i requires 0 <= i < |ms| => ms[i].(path := [Meta.DATA_NAME] + ms[i].path))
  }

  /**
   * What `write_manifests` leaves for the entries `metas` (in walk order):
   * the first failing create, or the manifests of the sorted entries up to
   * the first path that is not valid UTF-8.
   */
  predicate Wrote(algorithms: seq<DigestAlgorithm>, metas: seq<FileMeta>, prefix: string, baseDir: Path,
                  createFailure: Option<(nat, IoErrorKind)>, r: Result<()>, manifests: map<DigestAlgorithm, string>)
  {
    if createFailure.Some? && createFailure.value.0 < |algorithms| then
      var k := createFailure.value.0;
      && r == Err(IoCreate(createFailure.value.1, Manifests.ManifestPath(baseDir, prefix, algorithms[k])))
      && manifests == Manifests.Created(algorithms[..k])
    else
      var sorted := Manifests.SortedByPath(metas);
      && Manifests.AllDigests(sorted, algorithms)
      && match Manifests.FirstUnprintable(sorted)
         case None => r == Ok(()) && Manifests.Holds(manifests, algorithms, sorted)
         case Some(k) =>
           && r == Err(InvalidUtf8Path(sorted[k].path))
           && Manifests.Printable(sorted[..k]) && Manifests.AllDigests(sorted[..k], algorithms)
           && Manifests.Holds(manifests, algorithms, sorted[..k])
  }

  /** The walk of `<base>/data` that `update_payload_manifests` makes: every entry, hidden ones included. */
  function PayloadWalk(baseDir: Path): Walk.WalkConfig
  {
    Walk.WalkConfig(baseDir + [Meta.DATA_NAME], Meta.DATA_NAME, true, Walk.AllEntries)
  }

  /** The walk of the bag's top directory that `update_tag_manifests` makes. */
  function TagWalk(baseDir: Path, rootName: OsStr): Walk.WalkConfig
  {
    Walk.WalkConfig(baseDir, rootName, true, Walk.TagFilter)
  }

  /** The regular files a walk records keep the digests of their entries. */
  lemma RecordedDigested(cfg: Walk.WalkConfig, entries: seq<Walk.WalkEntry>, algorithms: seq<DigestAlgorithm>)
    requires Digested(entries, algorithms)
    ensures Manifests.AllDigests(Walk.MetasOf(Walk.Select(cfg, entries, Walk.Recorded)), algorithms)
    ensures Manifests.AllDigests(DataPrefixed(Walk.MetasOf(Walk.Select(cfg, entries, Walk.Recorded))), algorithms)
  {
    var sel := Walk.Select(cfg, entries, Walk.Recorded);
    forall i | 0 <= i < |sel| ensures forall a | a in algorithms :: a in sel[i].digests {
      Walk.SelectMembers(cfg, entries, Walk.Recorded, sel[i]);
    }
  }

  /**
   * `update_payload_manifests`: record the files below `<base>/data`, put
   * `data/` in front of their paths, and write the payload manifests; the
   * sorted entries are returned for the Payload-Oxum.
   */
  method UpdatePayloadManifests(baseDir: Path, algorithms: seq<DigestAlgorithm>, entries: seq<Walk.WalkEntry>,
                                createFailure: Option<(nat, IoErrorKind)>)
    returns (r: Result<seq<FileMeta>>, manifests: map<DigestAlgorithm, string>)
    requires Digested(entries, algorithms)
    ensures var ms := DataPrefixed(Walk.MetasOf(Walk.Select(PayloadWalk(baseDir), entries, Walk.Recorded)));
      && Wrote(algorithms, ms, Consts.PAYLOAD_MANIFEST_PREFIX, baseDir, createFailure,
               if r.Ok? then Ok(()) else Err(r.error), manifests)
      && (r.Ok? ==> r.value == Manifests.SortedByPath(ms))
  {
    var walked := Walk.CalculateDigests(baseDir + [Meta.DATA_NAME], Meta.DATA_NAME, entries, Walk.AllEntries);
    RecordedDigested(PayloadWalk(baseDir), entries, algorithms);
    var meta := new FileMeta[|walked|](i requires 0 <= i < |walked| => walked[i]);
    assert meta[..] == walked;
    Meta.AddDataPrefix(meta);
    assert meta[..] == DataPrefixed(walked);
    var written;
    written, manifests := Manifests.WriteManifests(algorithms, meta, Consts.PAYLOAD_MANIFEST_PREFIX, baseDir, createFailure);
    if written.Ok? {
      r := Ok(meta[..]);
    } else {
      r := Err(written.error);
    }
  }

  /**
   * `update_tag_manifests`: record the files of the bag's top directory
   * outside `data` that are not tag manifests, and write the tag manifests.
   */
  method UpdateTagManifests(baseDir: Path, rootName: OsStr, algorithms: seq<DigestAlgorithm>, entries: seq<Walk.WalkEntry>,
                            createFailure: Option<(nat, IoErrorKind)>)
    returns (r: Result<()>, manifests: map<DigestAlgorithm, string>)
    requires Digested(entries, algorithms)
    ensures Wrote(algorithms, Walk.MetasOf(Walk.Select(TagWalk(baseDir, rootName), entries, Walk.Recorded)),
                  Consts.TAG_MANIFEST_PREFIX, baseDir, createFailure, r, manifests)
  {
    var walked := Walk.CalculateDigests(baseDir, rootName, entries, Walk.TagFilter);
    RecordedDigested(TagWalk(baseDir, rootName), entries, algorithms);
    var meta := new FileMeta[|walked|](i requires 0 <= i < |walked| => walked[i]);
    assert meta[..] == walked;
    r, manifests := Manifests.WriteManifests(algorithms, meta, Consts.TAG_MANIFEST_PREFIX, baseDir, createFailure);
  }

  /** What `finalize` goes on to write: the algorithms, the two bag-info values, and whether payload manifests are rebuilt. */
  datatype Finalized = Finalized(algorithms: seq<DigestAlgorithm>, baggingDate: string, softwareAgent: string, recalculate: bool)

  class BagUpdater {
    var bag: Bag
    var recalculatePayloadManifests: bool
    var algorithms: seq<DigestAlgorithm>
    var baggingDate: Option<string>
    var softwareAgent: Option<string>

    /** `BagUpdater::new`: recalculate payload manifests, with no algorithm, date or agent given. */
    constructor (bag: Bag)
      ensures this.bag == bag
      ensures recalculatePayloadManifests && algorithms == []
      ensures baggingDate == None && softwareAgent == None
    {
      this.bag := bag;
      recalculatePayloadManifests := true;
      algorithms := [];
      baggingDate := None;
      softwareAgent := None;
    }

    /** `with_algorithm`: one more algorithm, at the end. */
    method WithAlgorithm(algorithm: DigestAlgorithm)
      modifies this
      ensures algorithms == old(algorithms) + [algorithm]
      ensures bag == old(bag) && recalculatePayloadManifests == old(recalculatePayloadManifests)
      ensures baggingDate == old(baggingDate) && softwareAgent == old(softwareAgent)
    {
      algorithms := algorithms + [algorithm];
    }

    /** `with_algorithms`: the given list replaces any earlier one; the empty list means the bag's own algorithms. */
    method WithAlgorithms(algorithms: seq<DigestAlgorithm>)
      modifies this
      ensures this.algorithms == algorithms
      ensures bag == old(bag) && recalculatePayloadManifests == old(recalculatePayloadManifests)
      ensures baggingDate == old(baggingDate) && softwareAgent == old(softwareAgent)
    {
      this.algorithms := [];
      this.algorithms := this.algorithms + algorithms;
    }

    /** `with_bagging_date`: `None` asks for today's date. */
    method WithBaggingDate(baggingDate: Option<string>)
      modifies this
      ensures this.baggingDate == baggingDate
      ensures bag == old(bag) && recalculatePayloadManifests == old(recalculatePayloadManifests)
      ensures algorithms == old(algorithms) && softwareAgent == old(softwareAgent)
    {
      this.baggingDate := baggingDate;
    }

    /** `with_software_agent`: `None` asks for bagr's own agent text. */
    method WithSoftwareAgent(softwareAgent: Option<string>)
      modifies this
      ensures this.softwareAgent == softwareAgent
      ensures bag == old(bag) && recalculatePayloadManifests == old(recalculatePayloadManifests)
      ensures algorithms == old(algorithms) && baggingDate == old(baggingDate)
    {
      this.softwareAgent := softwareAgent;
    }

    /** `recalculate_payload_manifests`. */
    method RecalculatePayloadManifests(recalculate: bool)
      modifies this
      ensures recalculatePayloadManifests == recalculate
      ensures bag == old(bag) && algorithms == old(algorithms)
      ensures baggingDate == old(baggingDate) && softwareAgent == old(softwareAgent)
    {
      recalculatePayloadManifests := recalculate;
    }

    /**
     * The decisions of `finalize` before it writes anything. `today` stands
     * for `current_date_str()` and `version` for the crate version. When the
     * given algorithms are used they are sorted and deduplicated in place.
     */
    method Finalize(today: string, version: string) returns (f: Finalized)
      modifies this
      ensures IsChoice(old(recalculatePayloadManifests), old(bag.algorithms), old(algorithms), f.algorithms)
      ensures old(recalculatePayloadManifests) && old(algorithms) != [] ==> algorithms == f.algorithms
      ensures !old(recalculatePayloadManifests) || old(algorithms) == [] ==> algorithms == old(algorithms)
      ensures f.baggingDate == (if old(baggingDate).Some? then old(baggingDate).value else today)
      ensures f.softwareAgent == (if old(softwareAgent).Some? then old(softwareAgent).value else SoftwareAgent(version))
      ensures f.recalculate == old(recalculatePayloadManifests)
      ensures recalculatePayloadManifests == old(recalculatePayloadManifests) && bag == old(bag)
      ensures baggingDate == old(baggingDate) && softwareAgent == old(softwareAgent)
    {
      var chosen: seq<DigestAlgorithm>;
      if !recalculatePayloadManifests || algorithms == [] {
        chosen := bag.algorithms;
      } else {
        algorithms := Algorithms.SortDedup(algorithms);
        chosen := algorithms;
      }
      var date := if baggingDate.Some? then baggingDate.value else today;
      var agent := if softwareAgent.Some? then softwareAgent.value else SoftwareAgent(version);
      f := Finalized(chosen, date, agent, recalculatePayloadManifests);
    }
  }

  /** Without recalculation the bag's own algorithms are kept, whatever algorithms were given. */
  method KeepingManifestsKeepsAlgorithms(bag: Bag, given: seq<DigestAlgorithm>, today: string, version: string)
    returns (f: Finalized)
    ensures f.algorithms == bag.algorithms && !f.recalculate
    ensures f.baggingDate == today && f.softwareAgent == SoftwareAgent(version)
  {
    var updater := new BagUpdater(bag);
    updater.WithAlgorithms(given);
    updater.RecalculatePayloadManifests(false);
    f := updater.Finalize(today, version);
  }

  /** A later empty `with_algorithms` discards earlier `with_algorithm` calls: the bag's algorithms are used. */
  method EmptyOverrideReusesAlgorithms(bag: Bag, a: DigestAlgorithm, today: string, version: string)
    returns (f: Finalized)
    ensures f.algorithms == bag.algorithms && f.recalculate
  {
    var updater := new BagUpdater(bag);
    updater.WithAlgorithm(a);
    updater.WithAlgorithms([]);
    f := updater.Finalize(today, version);
  }

  /** Algorithms given twice and out of order are written once each, in order. */
  method OverridesSortedOnce(bag: Bag, today: string, version: string, date: string)
    returns (f: Finalized)
    ensures f.algorithms == [Md5, Sha256]
    ensures f.baggingDate == date && f.recalculate
  {
    var updater := new BagUpdater(bag);
    updater.WithAlgorithm(Sha256);
    updater.WithAlgorithm(Md5);
    updater.WithAlgorithm(Sha256);
    updater.WithBaggingDate(Some(date));
    f := updater.Finalize(today, version);
    assert Algorithms.StrictlyIncreasing([Md5, Sha256]);
    assert Algorithms.SameElements([Md5, Sha256], [Sha256, Md5, Sha256]);
    Algorithms.StrictlyIncreasingUnique(f.algorithms, [Md5, Sha256]);
  }
}
