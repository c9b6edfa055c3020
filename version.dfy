/** `BagItVersion`: its `Display` form `MAJOR.MINOR` and its `TryFrom<&String>` parser. */
module Version {
  import opened Common
  import opened Errors
  import opened Decimal

  /** A BagIt version; `BagItVersion::new` is the constructor itself. */
  datatype BagItVersion = BagItVersion(major: byte, minor: byte)

  /** `write!(f, "{}.{}", major, minor)`. */
  function Display(v: BagItVersion): (s: string)
    ensures exists k | 0 < k < |s| - 1 :: s[k] == '.' && s[..k] == Format(v.major as nat) && s[k + 1..] == Format(v.minor as nat)
  {
    var a := Format(v.major as nat);
    var s := a + "." + Format(v.minor as nat);
    assert s[|a|] == '.' && s[..|a|] == a;
    s
  }

  /** `str::split_once`: the text before and after the first occurrence of `c`. */
  function SplitOnce(s: string, c: char): (r: Option<(string, string)>)
    ensures r.None? <==> c !in s
    ensures r.Some? ==> s == r.value.0 + [c] + r.value.1 && c !in r.value.0
  {
    if s == [] then None
    else if s[0] == c then Some(([], s[1..]))
    else match SplitOnce(s[1..], c)
      case None => None
      case Some((a, b)) => Some(([s[0]] + a, b))
  }

  /** Split at `c` when `c` does not occur before it. */
  lemma {:induction false} SplitOnceAt(a: string, c: char, b: string)
    requires c !in a
    ensures SplitOnce(a + [c] + b, c) == Some((a, b))
  {
    var s := a + [c] + b;
    if a == [] {
      assert s == [c] + b;
    } else {
      assert s[0] == a[0];
      assert s[1..] == a[1..] + [c] + b;
      SplitOnceAt(a[1..], c, b);
      assert [a[0]] + a[1..] == a;
    }
  }

  /**
   * `BagItVersion::try_from`: split at the first `.`, parse both sides as
   * `u8`. Every failure is `InvalidBagItVersion` carrying the whole input.
   */
  function Parse(s: string): (r: Result<BagItVersion>)
    ensures r.Err? ==> r.error == InvalidBagItVersion(s)
    ensures '.' !in s ==> r.Err?
    ensures r.Ok? ==> exists k | 0 <= k < |s| :: s[k] == '.' && '.' !in s[..k]
                        && ParseU8(s[..k]) == Some(r.value.major) && ParseU8(s[k + 1..]) == Some(r.value.minor)
    ensures forall k | 0 <= k < |s| && s[k] == '.' && '.' !in s[..k] && ParseU8(s[..k]).Some? && ParseU8(s[k + 1..]).Some? ::
              r == Ok(BagItVersion(ParseU8(s[..k]).value, ParseU8(s[k + 1..]).value))
  {
    match SplitOnce(s, '.')
    case None => Err(InvalidBagItVersion(s))
    case Some((a, b)) =>
      assert s[..|a|] == a && s[|a| + 1..] == b && s[|a|] == '.';
      match (ParseU8(a), ParseU8(b))
      case (Some(major), Some(minor)) => Ok(BagItVersion(major, minor))
      case _ => Err(InvalidBagItVersion(s))
  }

  /** Every version survives being displayed and parsed back. */
  lemma ParseDisplay(v: BagItVersion)
    ensures Parse(Display(v)) == Ok(v)
  {
    var a := Format(v.major as nat);
    var b := Format(v.minor as nat);
    assert Display(v) == a + ['.'] + b;
    assert '.' !in a by { assert AllDigits(a); }
    SplitOnceAt(a, '.', b);
    ParseFormatU8(v.major);
    ParseFormatU8(v.minor);
  }

  /** Distinct versions are displayed differently. */
  lemma DisplayInjective(v: BagItVersion, w: BagItVersion)
    requires Display(v) == Display(w)
    ensures v == w
  {
    ParseDisplay(v);
    ParseDisplay(w);
  }

  /** A third component fails: the minor side `0.0` is not a `u8`. */
  lemma ParseRejectsThreeParts()
    ensures Parse("1.0.0") == Err(InvalidBagItVersion("1.0.0"))
  {
    SplitOnceAt("1", '.', "0.0");
    assert !AllDigits("0.0") by { assert !IsDigit("0.0"[1]); }
  }

  /** A side above 255 fails. */
  lemma ParseRejectsOutOfRange()
    ensures Parse("256.0") == Err(InvalidBagItVersion("256.0"))
  {
    SplitOnceAt("256", '.', "0");
    assert "256" + ['.'] + "0" == "256.0";
    ParseU8RejectsOutOfRange();
  }

  /** A missing `.` or an empty side fails. */
  lemma ParseRejectsMissingPart()
    ensures Parse("1").Err? && Parse(".0").Err? && Parse("1.").Err?
  {
    SplitOnceAt("", '.', "0");
    SplitOnceAt("1", '.', "");
  }

  /** The `u8` parser lets through a leading `+` and leading zeros. */
  lemma ParseAcceptsSignAndZeros()
    ensures Parse("+1.00") == Ok(BagItVersion(1, 0))
  {
    SplitOnceAt("+1", '.', "00");
    assert "+1" + ['.'] + "00" == "+1.00";
    ParseU8AcceptsSignAndZeros();
  }
}
