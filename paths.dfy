/**
 * File names and relative paths as the bag code inspects, orders and prints
 * them. A path is its sequence of `Normal` components: the walk only ever
 * produces paths relative to the directory it started in.
 */
module Paths {
  import opened Common
  import Utf8

  const DOT: byte := 0x2E
  const SLASH: byte := 0x2F

  /** `is_hidden_file`: a UTF-8 name that starts with `.` and is neither `.` nor `..`. */
  predicate IsHiddenFile(name: OsStr)
  {
    match Utf8.Decode(name)
    case None => false
    case Some(s) => |s| > 0 && s[0] == '.' && s != "." && s != ".."
  }

  /** The same test on the bytes: valid UTF-8, a leading dot byte, and not `.` or `..`. */
  lemma HiddenFileBytes(name: OsStr)
    ensures IsHiddenFile(name) <==>
      Utf8.Valid(name) && |name| > 0 && name[0] == DOT && name != [DOT] && name != [DOT, DOT]
  {
    if Utf8.Valid(name) {
      Utf8.DecodeSingleAscii(name, '.');
      Utf8.DecodeDoubleAscii(name, '.');
      if name != [] {
        Utf8.DecodeFirstAscii(name, '.');
      }
    }
  }

  /** A byte sequence of ASCII characters only is valid UTF-8. */
  lemma {:induction false} AsciiValid(b: seq<byte>)
    requires forall i | 0 <= i < |b| :: b[i] < 0x80
    ensures Utf8.Valid(b)
  {
    if b != [] {
      AsciiValid(b[1..]);
    }
  }

  /** Names that are hidden and names that are not. */
  lemma HiddenFileExamples()
    ensures IsHiddenFile([DOT, 0x67, 0x69, 0x74])
    ensures !IsHiddenFile([DOT]) && !IsHiddenFile([DOT, DOT])
    ensures IsHiddenFile([DOT, DOT, DOT])
    ensures !IsHiddenFile([0x61, DOT])
    ensures !IsHiddenFile([DOT, 0xFF])
  {
    AsciiValid([DOT, 0x67, 0x69, 0x74]);
    AsciiValid([DOT, DOT, DOT]);
    HiddenFileBytes([DOT, 0x67, 0x69, 0x74]);
    HiddenFileBytes([DOT]);
    HiddenFileBytes([DOT, DOT]);
    HiddenFileBytes([DOT, DOT, DOT]);
    HiddenFileBytes([0x61, DOT]);
    HiddenFileBytes([DOT, 0xFF]);
    assert Utf8.LeadLen([0xFF]) == 0;
    assert [DOT, 0xFF][1..] == [0xFF];
  }

  /** The byte order of `OsStr`: lexicographic, a proper prefix first. */
  predicate BytesLess(a: OsStr, b: OsStr)
    decreases |a|
  {
    |b| > 0 && (|a| == 0 || a[0] < b[0] || (a[0] == b[0] && BytesLess(a[1..], b[1..])))
  }

  /**
   * The order of `Path`: lexicographic over the components, each compared by
   * `BytesLess`, so a directory sorts before everything below it.
   */
  predicate PathLess(p: Path, q: Path)
    ensures |p| < |q| && p == q[..|p|] ==> PathLess(p, q)
    decreases |p|
  {
    |q| > 0 && (|p| == 0 || BytesLess(p[0], q[0]) || (p[0] == q[0] && PathLess(p[1..], q[1..])))
  }

  predicate PathLe(p: Path, q: Path) { !PathLess(q, p) }

  lemma {:induction false} BytesLessIrreflexive(a: OsStr)
    ensures !BytesLess(a, a)
    decreases |a|
  {
    if |a| > 0 { BytesLessIrreflexive(a[1..]); }
  }

  lemma {:induction false} BytesLessTransitive(a: OsStr, b: OsStr, c: OsStr)
    requires BytesLess(a, b) && BytesLess(b, c)
    ensures BytesLess(a, c)
    decreases |a|
  {
    if |a| > 0 && a[0] == b[0] && b[0] == c[0] {
      BytesLessTransitive(a[1..], b[1..], c[1..]);
    }
  }

  lemma {:induction false} BytesLessTotal(a: OsStr, b: OsStr)
    ensures a == b || BytesLess(a, b) || BytesLess(b, a)
    decreases |a|
  {
    if |a| > 0 && |b| > 0 && a[0] == b[0] {
      BytesLessTotal(a[1..], b[1..]);
      if a[1..] == b[1..] {
        assert a == [a[0]] + a[1..] && b == [b[0]] + b[1..];
      }
    }
  }

  lemma {:induction false} BytesLessAsymmetric(a: OsStr, b: OsStr)
    requires BytesLess(a, b)
    ensures !BytesLess(b, a)
    decreases |a|
  {
    if |a| > 0 && a[0] == b[0] {
      BytesLessAsymmetric(a[1..], b[1..]);
    }
  }

  /** `PathLess` is a strict total order. */
  lemma {:induction false} PathLessIrreflexive(p: Path)
    ensures !PathLess(p, p)
    decreases |p|
  {
    if |p| > 0 {
      BytesLessIrreflexive(p[0]);
      PathLessIrreflexive(p[1..]);
    }
  }

  lemma {:induction false} PathLessTransitive(p: Path, q: Path, r: Path)
    requires PathLess(p, q) && PathLess(q, r)
    ensures PathLess(p, r)
    decreases |p|
  {
    if |p| > 0 {
      if BytesLess(p[0], q[0]) && BytesLess(q[0], r[0]) {
        BytesLessTransitive(p[0], q[0], r[0]);
      } else if p[0] == q[0] && q[0] == r[0] {
        PathLessTransitive(p[1..], q[1..], r[1..]);
      }
    }
  }

  lemma {:induction false} PathLessTotal(p: Path, q: Path)
    ensures p == q || PathLess(p, q) || PathLess(q, p)
    decreases |p|
  {
    if |p| > 0 && |q| > 0 {
      BytesLessTotal(p[0], q[0]);
      if p[0] == q[0] {
        PathLessTotal(p[1..], q[1..]);
        if p[1..] == q[1..] {
          assert p == [p[0]] + p[1..] && q == [q[0]] + q[1..];
        }
      }
    }
  }

  lemma {:induction false} PathLessAsymmetric(p: Path, q: Path)
    requires PathLess(p, q)
    ensures !PathLess(q, p)
    decreases |p|
  {
    if |p| > 0 {
      if BytesLess(p[0], q[0]) {
        BytesLessAsymmetric(p[0], q[0]);
        if q[0] == p[0] { BytesLessIrreflexive(p[0]); }
      } else {
        PathLessAsymmetric(p[1..], q[1..]);
        BytesLessIrreflexive(p[0]);
      }
    }
  }

  /** `PathLe` is a total preorder, which is what a sort needs. */
  lemma PathLeTotal(p: Path, q: Path)
    ensures PathLe(p, q) || PathLe(q, p)
  {
    if PathLess(q, p) { PathLessAsymmetric(q, p); }
  }

  /** If `r < p`, every `q` lies above `r` or below `p`. */
  lemma PathLessSplit(r: Path, p: Path, q: Path)
    ensures PathLess(r, p) ==> PathLess(r, q) || PathLess(q, p)
  {
    PathLessTotal(q, r);
    if PathLess(r, p) && PathLess(q, r) {
      PathLessTransitive(q, r, p);
    }
  }

  lemma PathLeTransitive(p: Path, q: Path, r: Path)
    requires PathLe(p, q) && PathLe(q, r)
    ensures PathLe(p, r)
  {
    PathLessSplit(r, p, q);
  }

  /**
   * Component-wise order differs from the order of the printed paths: `a/b`
   * sorts before `a-b` although `/` (0x2F) is above `-` (0x2D).
   */
  lemma ComponentOrderExample()
    ensures PathLess([[0x61], [0x62]], [[0x61, 0x2D, 0x62]])
    ensures BytesLess([0x61, 0x2D, 0x62], [0x61, SLASH, 0x62])
  {
    assert [0x61, 0x2D, 0x62][1..] == [0x2D, 0x62];
    assert [0x61, SLASH, 0x62][1..] == [SLASH, 0x62];
  }

  /** The bytes of a path: its components joined by `/`. */
  function PathBytes(p: Path): (r: seq<byte>)
    ensures p == [] ==> r == []
  {
    if |p| == 0 then []
    else if |p| == 1 then p[0]
    else p[0] + [SLASH] + PathBytes(p[1..])
  }

  /** `Path::to_str`: the path as text, if its bytes are valid UTF-8. */
  function ToStr(p: Path): Option<string>
  {
    Utf8.Decode(PathBytes(p))
  }

  /** Texts joined by `/`. */
  function JoinSlash(names: seq<string>): string
  {
    if |names| == 0 then ""
    else if |names| == 1 then names[0]
    else names[0] + "/" + JoinSlash(names[1..])
  }

  /** The path whose components are the UTF-8 forms of `names`. */
  function EncodedPath(names: seq<string>): (p: Path)
    ensures |p| == |names|
    ensures forall i | 0 <= i < |names| :: p[i] == Utf8.Encode(names[i])
  {
    if names == [] then [] else [Utf8.Encode(names[0])] + EncodedPath(names[1..])
  }

  /** A path made of UTF-8 names prints as those names joined by `/`. */
  lemma ToStrEncodedPath(names: seq<string>)
    ensures ToStr(EncodedPath(names)) == Some(JoinSlash(names))
  {
    EncodedPathBytes(names);
    Utf8.DecodeEncode(JoinSlash(names));
  }

  lemma {:induction false} EncodedPathBytes(names: seq<string>)
    ensures PathBytes(EncodedPath(names)) == Utf8.Encode(JoinSlash(names))
  {
    if |names| >= 2 {
      var p := EncodedPath(names);
      assert p[1..] == EncodedPath(names[1..]);
      EncodedPathBytes(names[1..]);
      assert Utf8.Encode("/") == [SLASH] by { assert "/"[1..] == []; }
      Utf8.EncodeAppend(names[0], "/");
      Utf8.EncodeAppend(names[0] + "/", JoinSlash(names[1..]));
    } else if |names| == 1 {
      assert EncodedPath(names) == [Utf8.Encode(names[0])];
    }
  }
}
