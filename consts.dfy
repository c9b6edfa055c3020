/**
 * Constants of the library: manifest file-name grammar, reserved labels,
 * the default version and algorithm.
 */
module Consts {
  import opened Common
  import opened Version
  import opened Digest

  /** The crate's home page, named in the Bag-Software-Agent; the crate version itself is a build-time value and a parameter here. */
  const BAGR_SRC_URL: string := "https://github.com/pwinckles/bagr"

  const BAGIT_1_0: BagItVersion := BagItVersion(1, 0)
  const BAGIT_DEFAULT_VERSION: BagItVersion := BAGIT_1_0
  const DEFAULT_ALGORITHM: DigestAlgorithm := Sha512
  const UTF_8: string := "UTF-8"
  const TAB: char := '\t'
  const SPACE: char := ' '
  const BUF_SIZE: nat := 8 * 1024

  const BAGIT_TXT: string := "bagit.txt"
  const BAG_INFO_TXT: string := "bag-info.txt"
  const FETCH_TXT: string := "fetch.txt"
  const DATA: string := "data"
  const PAYLOAD_MANIFEST_PREFIX: string := "manifest"
  const TAG_MANIFEST_PREFIX: string := "tagmanifest"

  const LABEL_BAGIT_VERSION: string := "BagIt-Version"
  const LABEL_FILE_ENCODING: string := "Tag-File-Character-Encoding"

  const LABEL_BAGGING_DATE: string := "Bagging-Date"
  const LABEL_PAYLOAD_OXUM: string := "Payload-Oxum"
  const LABEL_SOFTWARE_AGENT: string := "Bag-Software-Agent"
  const LABEL_SOURCE_ORGANIZATION: string := "Source-Organization"
  const LABEL_ORGANIZATION_ADDRESS: string := "Organization-Address"
  const LABEL_CONTACT_NAME: string := "Contact-Name"
  const LABEL_CONTACT_PHONE: string := "Contact-Phone"
  const LABEL_CONTACT_EMAIL: string := "Contact-Email"
  const LABEL_EXTERNAL_DESCRIPTION: string := "External-Description"
  const LABEL_EXTERNAL_IDENTIFIER: string := "External-Identifier"
  const LABEL_BAG_SIZE: string := "Bag-Size"
  const LABEL_BAG_GROUP_IDENTIFIER: string := "Bag-Group-Identifier"
  const LABEL_BAG_COUNT: string := "Bag-Count"
  const LABEL_INTERNAL_SENDER_IDENTIFIER: string := "Internal-Sender-Identifier"
  const LABEL_INTERNAL_SENDER_DESCRIPTION: string := "Internal-Sender-Description"
  const LABEL_BAGIT_PROFILE_IDENTIFIER: string := "BagIt-Profile-Identifier"

  /** The reserved bag-info labels, in declaration order. */
  const RESERVED_LABELS: seq<string> := [
    LABEL_BAGGING_DATE, LABEL_PAYLOAD_OXUM, LABEL_SOFTWARE_AGENT,
    LABEL_SOURCE_ORGANIZATION, LABEL_ORGANIZATION_ADDRESS, LABEL_CONTACT_NAME,
    LABEL_CONTACT_PHONE, LABEL_CONTACT_EMAIL, LABEL_EXTERNAL_DESCRIPTION,
    LABEL_EXTERNAL_IDENTIFIER, LABEL_BAG_SIZE, LABEL_BAG_GROUP_IDENTIFIER,
    LABEL_BAG_COUNT, LABEL_INTERNAL_SENDER_IDENTIFIER, LABEL_INTERNAL_SENDER_DESCRIPTION,
    LABEL_BAGIT_PROFILE_IDENTIFIER]

  /** Whether each reserved bag-info label may repeat; keys are lowercase. */
  const LABEL_REPEATABLE: seq<(string, bool)> := [
    ("bagging-date", false),
    ("payload-oxum", false),
    ("bag-software-agent", false),
    ("source-organization", true),
    ("organization-address", true),
    ("contact-name", true),
    ("contact-phone", true),
    ("contact-email", true),
    ("external-description", true),
    ("external-identifier", true),
    ("bag-size", false),
    ("bag-group-identifier", false),
    ("bag-count", false),
    ("internal-sender-identifier", true),
    ("internal-sender-description", true),
    ("bagit-profile-identifier", true)]

  /** `[[:alnum:]]` in the `regex` crate: ASCII letters and digits. */
  predicate IsAlnum(c: char) { '0' <= c <= '9' || 'a' <= c <= 'z' || 'A' <= c <= 'Z' }

  predicate AllAlnum(s: string) { forall i | 0 <= i < |s| :: IsAlnum(s[i]) }

  /** The anchored grammar `^<prefix>-([[:alnum:]]+)\.txt$`, with `token` the capture. */
  predicate ManifestNameWith(prefix: string, token: string, name: string)
  {
    name == prefix + "-" + token + ".txt" && |token| > 0 && AllAlnum(token)
  }

  /** The whole-name match of a manifest regex: `None` if the name does not match, else the capture. */
  function ManifestCapture(prefix: string, name: string): (r: Option<string>)
    ensures r.Some? ==> ManifestNameWith(prefix, r.value, name)
  {
    var n := |prefix| + 1;
    if |name| > n + 4 && name[..n] == prefix + "-" && name[|name| - 4..] == ".txt"
       && AllAlnum(name[n..|name| - 4])
    then
      var t := name[n..|name| - 4];
      assert name == name[..n] + t + name[|name| - 4..];
      Some(t)
    else
      None
  }

  /** `PAYLOAD_MANIFEST_MATCHER.captures(name)`. */
  function PayloadManifestMatch(name: string): Option<string> { ManifestCapture(PAYLOAD_MANIFEST_PREFIX, name) }

  /** `TAG_MANIFEST_MATCHER.captures(name)`. */
  function TagManifestMatch(name: string): Option<string> { ManifestCapture(TAG_MANIFEST_PREFIX, name) }

  /** Every name of the grammar is matched, and the capture is its token. */
  lemma CaptureOfManifestName(prefix: string, token: string, name: string)
    requires ManifestNameWith(prefix, token, name)
    ensures ManifestCapture(prefix, name) == Some(token)
  {
    var n := |prefix| + 1;
    assert name == (prefix + "-") + token + ".txt";
    assert name[..n] == prefix + "-";
    assert name[n..|name| - 4] == token;
    assert name[|name| - 4..] == ".txt";
  }

  /** The manifest name of an algorithm is matched, with the algorithm's name as capture. */
  lemma AlgorithmManifestMatches(prefix: string, a: DigestAlgorithm)
    ensures ManifestCapture(prefix, prefix + "-" + Name(a) + ".txt") == Some(Name(a))
  {
    assert AllAlnum(Name(a));
    CaptureOfManifestName(prefix, Name(a), prefix + "-" + Name(a) + ".txt");
  }

  /** No name is both a payload manifest and a tag manifest name. */
  lemma MatchersDisjoint(name: string)
    ensures PayloadManifestMatch(name).Some? ==> TagManifestMatch(name).None?
  {
    if PayloadManifestMatch(name).Some? {
      assert name[0] == 'm';
    }
  }

  /** The match is case-sensitive and anchored. */
  lemma MatcherExamples()
    ensures PayloadManifestMatch("manifest-sha512.txt") == Some("sha512")
    ensures TagManifestMatch("tagmanifest-md5.txt") == Some("md5")
    ensures PayloadManifestMatch("Manifest-sha512.txt").None?
    ensures PayloadManifestMatch("tagmanifest-md5.txt").None?
    ensures PayloadManifestMatch("manifest-.txt").None?
    ensures PayloadManifestMatch("manifest-sha-512.txt").None?
  {
    assert PAYLOAD_MANIFEST_PREFIX + "-" + "sha512" + ".txt" == "manifest-sha512.txt";
    CaptureOfManifestName(PAYLOAD_MANIFEST_PREFIX, "sha512", "manifest-sha512.txt");
    assert TAG_MANIFEST_PREFIX + "-" + "md5" + ".txt" == "tagmanifest-md5.txt";
    CaptureOfManifestName(TAG_MANIFEST_PREFIX, "md5", "tagmanifest-md5.txt");
    assert "Manifest-sha512.txt"[0] == 'M';
    assert "tagmanifest-md5.txt"[0] == 't';
    var s := "manifest-sha-512.txt";
    assert !IsAlnum(s[12]);
  }

  /** `LABEL_REPEATABLE` lookup by lowercase label; `None` for a label that is not reserved. */
  function Repeatable(table: seq<(string, bool)>, key: string): (r: Option<bool>)
    ensures r.None? <==> forall i | 0 <= i < |table| :: table[i].0 != key
    ensures r.Some? ==> exists i | 0 <= i < |table| :: table[i] == (key, r.value)
  {
    if table == [] then None
    else if table[0].0 == key then Some(table[0].1)
    else
      var r := Repeatable(table[1..], key);
      assert r.Some? ==> exists i | 0 <= i < |table| :: table[i] == (key, r.value) by {
        if r.Some? {
          var i :| 0 <= i < |table[1..]| && table[1..][i] == (key, r.value);
          assert table[i + 1] == (key, r.value);
        }
      }
      r
  }

  predicate IsLowerLabel(s: string) { forall i | 0 <= i < |s| :: !('A' <= s[i] <= 'Z') }

  /** The repeatable flags of a table, in order. */
  function Flags(table: seq<(string, bool)>): (r: seq<bool>)
    ensures |r| == |table| && forall i | 0 <= i < |table| :: r[i] == table[i].1
  {
    seq(|table|, i requires 0 <= i < |table| => table[i].1)
  }

  /**
   * The table has sixteen distinct labels; the six that may not repeat are
   * the first three and the three `Bag-Size`/`Bag-Group-Identifier`/`Bag-Count`.
   */
  lemma RepeatableTableShape()
    ensures |LABEL_REPEATABLE| == 16
    ensures forall i, j | 0 <= i < j < 16 :: LABEL_REPEATABLE[i].0 != LABEL_REPEATABLE[j].0
    ensures Flags(LABEL_REPEATABLE) == [false, false, false, true, true, true, true, true, true, true, false, false, false, true, true, true]
  {
  }

  // The position-by-position agreement of the label constants with the table, two entries at a time
  // (one at a time for the two longest labels).
  lemma ReservedLabelsInTable0() ensures forall i | 0 <= i < 2 :: LowerAscii(RESERVED_LABELS[i]) == LABEL_REPEATABLE[i].0 {}
  lemma ReservedLabelsInTable2() ensures forall i | 2 <= i < 4 :: LowerAscii(RESERVED_LABELS[i]) == LABEL_REPEATABLE[i].0 {}
  lemma ReservedLabelsInTable4() ensures forall i | 4 <= i < 6 :: LowerAscii(RESERVED_LABELS[i]) == LABEL_REPEATABLE[i].0 {}
  lemma ReservedLabelsInTable6() ensures forall i | 6 <= i < 8 :: LowerAscii(RESERVED_LABELS[i]) == LABEL_REPEATABLE[i].0 {}
  lemma ReservedLabelsInTable8() ensures forall i | 8 <= i < 10 :: LowerAscii(RESERVED_LABELS[i]) == LABEL_REPEATABLE[i].0 {}
  lemma ReservedLabelsInTable10() ensures forall i | 10 <= i < 12 :: LowerAscii(RESERVED_LABELS[i]) == LABEL_REPEATABLE[i].0 {}
  lemma ReservedLabelsInTable12() ensures forall i | 12 <= i < 14 :: LowerAscii(RESERVED_LABELS[i]) == LABEL_REPEATABLE[i].0 {}
  lemma ReservedLabelsInTable14() ensures LowerAscii(RESERVED_LABELS[14]) == LABEL_REPEATABLE[14].0 {}
  lemma ReservedLabelsInTable15() ensures LowerAscii(RESERVED_LABELS[15]) == LABEL_REPEATABLE[15].0 {}

  /** Every reserved label, lowercased, is the key of the entry at its own position, and of no other. */
  lemma ReservedLabelsInTable()
    ensures |RESERVED_LABELS| == |LABEL_REPEATABLE| == 16
    ensures forall i | 0 <= i < 16 :: LowerAscii(RESERVED_LABELS[i]) == LABEL_REPEATABLE[i].0
    ensures forall i, j | 0 <= i < 16 && 0 <= j < 16 && i != j :: LowerAscii(RESERVED_LABELS[i]) != LABEL_REPEATABLE[j].0
  {
    ReservedLabelsInTable0();
    ReservedLabelsInTable2();
    ReservedLabelsInTable4();
    ReservedLabelsInTable6();
    ReservedLabelsInTable8();
    ReservedLabelsInTable10();
    ReservedLabelsInTable12();
    ReservedLabelsInTable14();
    ReservedLabelsInTable15();
    RepeatableTableShape();
  }

  /** Lowercasing leaves no uppercase letter behind. */
  lemma LowerAsciiIsLower(s: string)
    ensures IsLowerLabel(LowerAscii(s))
  {
  }

  /** All keys of the table are lowercase. */
  lemma RepeatableKeysLowercase()
    ensures forall i | 0 <= i < 16 :: IsLowerLabel(LABEL_REPEATABLE[i].0)
  {
    ReservedLabelsInTable();
    forall i | 0 <= i < 16
      ensures IsLowerLabel(LABEL_REPEATABLE[i].0)
    {
      LowerAsciiIsLower(RESERVED_LABELS[i]);
    }
  }

  /** The three labels the library sets itself may not repeat. */
  lemma GeneratedLabelsNotRepeatable()
    ensures Repeatable(LABEL_REPEATABLE, LowerAscii(LABEL_BAGGING_DATE)) == Some(false)
    ensures Repeatable(LABEL_REPEATABLE, LowerAscii(LABEL_PAYLOAD_OXUM)) == Some(false)
    ensures Repeatable(LABEL_REPEATABLE, LowerAscii(LABEL_SOFTWARE_AGENT)) == Some(false)
  {
    ReservedLabelsInTable0();
    ReservedLabelsInTable2();
    assert RESERVED_LABELS[0] == LABEL_BAGGING_DATE;
    assert RESERVED_LABELS[1] == LABEL_PAYLOAD_OXUM;
    assert RESERVED_LABELS[2] == LABEL_SOFTWARE_AGENT;
  }

  /** The defaults: BagIt 1.0 and SHA-512. */
  lemma Defaults()
    ensures Display(BAGIT_DEFAULT_VERSION) == "1.0"
    ensures Name(DEFAULT_ALGORITHM) == "sha512"
  {
  }
}
