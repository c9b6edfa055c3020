/**
 * `FileMeta`, the record the walk keeps for each regular file, and the two
 * small operations on lists of them: `add_data_prefix` and
 * `build_payload_oxum` (src/bagit/bag.rs).
 */
module Meta {
  import opened Common
  import opened Digest
  import Decimal
  import Utf8
  import Version
  import Consts
  import Paths

  /** A file's path relative to the directory that was walked, its size and its digest per algorithm. */
  datatype FileMeta = FileMeta(path: Path, sizeBytes: u64, digests: map<DigestAlgorithm, HexDigest>)

  /** The `data` path component as bytes. */
  const DATA_NAME: OsStr := [0x64, 0x61, 0x74, 0x61]

  lemma DataNameIsData()
    ensures DATA_NAME == Utf8.Encode(Consts.DATA)
  {
    assert Consts.DATA == "data";
    assert "data"[1..] == "ata" && "ata"[1..] == "ta" && "ta"[1..] == "a" && "a"[1..] == "";
  }

  /** `add_data_prefix`: every path becomes `data/<path>`, in place; sizes and digests are kept. */
  method AddDataPrefix(fileMeta: array<FileMeta>)
    modifies fileMeta
    ensures forall i | 0 <= i < fileMeta.Length ::
      fileMeta[i] == old(fileMeta[i]).(path := [DATA_NAME] + old(fileMeta[i].path))
  {
    var i := 0;
    while i < fileMeta.Length
      invariant 0 <= i <= fileMeta.Length
      invariant forall k | 0 <= k < i :: fileMeta[k] == old(fileMeta[k]).(path := [DATA_NAME] + old(fileMeta[k].path))
      invariant forall k | i <= k < fileMeta.Length :: fileMeta[k] == old(fileMeta[k])
    {
      fileMeta[i] := fileMeta[i].(path := [DATA_NAME] + fileMeta[i].path);
      i := i + 1;
    }
  }

  /** Decoding past one ASCII byte. */
  lemma DecodeAsciiCons(c: byte, b: seq<byte>)
    requires c < 0x80
    ensures Utf8.Decode([c] + b) ==
      match Utf8.Decode(b)
      case None => None
      case Some(s) => Some([c as int as char] + s)
  {
    assert ([c] + b)[1..] == b;
  }

  /**
   * A prefixed path prints as `data/` followed by the old path, and is valid
   * UTF-8 exactly when the old path is.
   */
  lemma DataPrefixToStr(p: Path)
    requires p != []
    ensures Paths.ToStr([DATA_NAME] + p) ==
      match Paths.ToStr(p)
      case None => None
      case Some(s) => Some("data/" + s)
  {
    var rest := Paths.PathBytes(p);
    DataPrefixBytes(p);
    DecodeDataSlash(rest);
  }

  /** The bytes of a prefixed path: `data`, a separator, then the old path's bytes. */
  lemma DataPrefixBytes(p: Path)
    requires p != []
    ensures Paths.PathBytes([DATA_NAME] + p) ==
      [0x64] + ([0x61] + ([0x74] + ([0x61] + ([Paths.SLASH] + Paths.PathBytes(p)))))
  {
    var q := [DATA_NAME] + p;
    assert q[1..] == p;
    var rest := Paths.PathBytes(p);
    assert Paths.PathBytes(q) == DATA_NAME + [Paths.SLASH] + rest;
    ConsFive(0x64, 0x61, 0x74, 0x61, Paths.SLASH, rest);
  }

  /** Decoding past the five ASCII bytes of `data/`. */
  lemma DecodeDataSlash(rest: seq<byte>)
    ensures Utf8.Decode([0x64] + ([0x61] + ([0x74] + ([0x61] + ([Paths.SLASH] + rest))))) ==
      match Utf8.Decode(rest)
      case None => None
      case Some(s) => Some("data/" + s)
  {
    DecodeAsciiCons(Paths.SLASH, rest);
    DecodeAsciiCons(0x61, [Paths.SLASH] + rest);
    DecodeAsciiCons(0x74, [0x61] + ([Paths.SLASH] + rest));
    DecodeAsciiCons(0x61, [0x74] + ([0x61] + ([Paths.SLASH] + rest)));
    DecodeAsciiCons(0x64, [0x61] + ([0x74] + ([0x61] + ([Paths.SLASH] + rest))));
    if Utf8.Decode(rest).Some? {
      var t := Utf8.Decode(rest).value;
      assert ['d'] + (['a'] + (['t'] + (['a'] + (['/'] + t)))) == "data/" + t;
    }
  }

  lemma ConsFive(a: byte, b: byte, c: byte, d: byte, e: byte, rest: seq<byte>)
    ensures [a, b, c, d] + [e] + rest == [a] + ([b] + ([c] + ([d] + ([e] + rest))))
  {
  }

  /** Sum of the file sizes, without any bound. */
  function TotalSize(fileMeta: seq<FileMeta>): nat
  {
    if fileMeta == [] then 0 else TotalSize(fileMeta[..|fileMeta| - 1]) + fileMeta[|fileMeta| - 1].sizeBytes
  }

  /** The Payload-Oxum text `<octets>.<files>` for a byte total and a file count. */
  function OxumText(octets: nat, files: nat): (r: string)
  {
    Decimal.Format(octets) + "." + Decimal.Format(files)
  }

  /**
   * `build_payload_oxum`. The sum is a `u64` accumulated with `+=`; a release
   * build wraps it around modulo 2^64, which the loop writes out.
   */
  method BuildPayloadOxum(fileMeta: seq<FileMeta>) returns (r: string)
    ensures r == OxumText(TotalSize(fileMeta) % U64_MODULUS, |fileMeta|)
  {
    var count := |fileMeta|;
    var sum: u64 := 0;
    var i := 0;
    while i < |fileMeta|
      invariant 0 <= i <= |fileMeta|
      invariant sum == TotalSize(fileMeta[..i]) % U64_MODULUS
    {
      assert fileMeta[..i + 1][..i] == fileMeta[..i];
      sum := (sum + fileMeta[i].sizeBytes) % U64_MODULUS;
      i := i + 1;
    }
    assert fileMeta[..i] == fileMeta;
    r := Decimal.Format(sum) + "." + Decimal.Format(count);
  }

  /** The Oxum splits at its one `.` into the octet count and the file count, which read back. */
  lemma OxumReadsBack(octets: nat, files: nat)
    ensures Version.SplitOnce(OxumText(octets, files), '.') == Some((Decimal.Format(octets), Decimal.Format(files)))
    ensures Decimal.Value(Decimal.Format(octets)) == octets && Decimal.Value(Decimal.Format(files)) == files
  {
    var a := Decimal.Format(octets);
    forall k | 0 <= k < |a| ensures a[k] != '.' {
      assert Decimal.IsDigit(a[k]);
    }
    Version.SplitOnceAt(a, '.', Decimal.Format(files));
    Decimal.ValueFormat(octets);
    Decimal.ValueFormat(files);
  }

  /** Distinct totals or counts give distinct Oxum texts. */
  lemma OxumInjective(o1: nat, f1: nat, o2: nat, f2: nat)
    requires OxumText(o1, f1) == OxumText(o2, f2)
    ensures o1 == o2 && f1 == f2
  {
    OxumReadsBack(o1, f1);
    OxumReadsBack(o2, f2);
  }

  /** Two files of 2^63 octets each: the reported total wraps around to 0. */
  lemma OxumWrapExample(a: FileMeta, b: FileMeta)
    requires a.sizeBytes == 0x8000_0000_0000_0000 && b.sizeBytes == 0x8000_0000_0000_0000
    ensures TotalSize([a, b]) % U64_MODULUS == 0
  {
    assert [a, b][..1] == [a];
    assert [a][..0] == [];
    assert TotalSize([a]) == a.sizeBytes as nat;
    assert TotalSize([a, b]) == U64_MODULUS;
  }
}
