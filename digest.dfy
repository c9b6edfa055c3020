/**
 * The digest algorithms a bag can use. Only their identity, their order and
 * their names matter to the model; the hash functions themselves are opaque.
 */
module Digest {
  import opened Common

  /** The supported algorithms, in declaration (and therefore `Ord`) order. */
  datatype DigestAlgorithm = Md5 | Sha1 | Sha256 | Sha512 | Blake2b256 | Blake2b512

  /** A lowercase hexadecimal digest as the multi-digest writer renders it. */
  type HexDigest = string

  /** Position in the derived total order. */
  function Rank(a: DigestAlgorithm): (n: nat)
    ensures n < 6
  {
    match a
    case Md5 => 0
    case Sha1 => 1
    case Sha256 => 2
    case Sha512 => 3
    case Blake2b256 => 4
    case Blake2b512 => 5
  }

  predicate Less(a: DigestAlgorithm, b: DigestAlgorithm) { Rank(a) < Rank(b) }

  /** The order is total: distinct algorithms have distinct ranks. */
  lemma RankInjective(a: DigestAlgorithm, b: DigestAlgorithm)
    requires Rank(a) == Rank(b)
    ensures a == b
  {
  }

  /** The display name, used in manifest file names (`manifest-<name>.txt`). */
  function Name(a: DigestAlgorithm): (s: string)
    ensures |s| > 0
  {
    match a
    case Md5 => "md5"
    case Sha1 => "sha1"
    case Sha256 => "sha256"
    case Sha512 => "sha512"
    case Blake2b256 => "blake2b256"
    case Blake2b512 => "blake2b512"
  }

  function LowerChar(c: char): char
  {
    if 'A' <= c <= 'Z' then (c as int + 32) as char else c
  }

  /** ASCII lowercasing, character by character. */
  function LowerAscii(s: string): (r: string)
    ensures |r| == |s|
    ensures forall i | 0 <= i < |s| :: r[i] == LowerChar(s[i])
  {
    seq(|s|, i requires 0 <= i < |s| => LowerChar(s[i]))
  }

  /** Conversion from a manifest name token; the match ignores ASCII case. */
  function FromName(s: string): (r: Option<DigestAlgorithm>)
    ensures r.Some? ==> Name(r.value) == LowerAscii(s)
    ensures r.None? ==> forall a: DigestAlgorithm :: Name(a) != LowerAscii(s)
  {
    var l := LowerAscii(s);
    if l == "md5" then Some(Md5)
    else if l == "sha1" then Some(Sha1)
    else if l == "sha256" then Some(Sha256)
    else if l == "sha512" then Some(Sha512)
    else if l == "blake2b256" then Some(Blake2b256)
    else if l == "blake2b512" then Some(Blake2b512)
    else None
  }

  /** Names are lowercase already, so each name converts back to its algorithm. */
  lemma FromNameOfName(a: DigestAlgorithm)
    ensures FromName(Name(a)) == Some(a)
  {
    var n := Name(a);
    assert LowerAscii(n) == n;
  }
}
