/**
 * Bag validation (src/bagit/validate.rs): the `ValidationResult` that
 * collects a verdict and a list of issues, and the first step of
 * `validate_bag`, which reads `bagit.txt` and turns the expected ways of
 * failing into issues. Reading the declaration is not part of this model:
 * its outcome is a parameter, with the declaration itself left abstract.
 */
module Validate {
  import opened Common
  import Errors
  import Decimal
  import Consts

  datatype ValidationVerdict = Valid | Complete | Invalid

  datatype IssueLevel = Error | Warn

  datatype ValidationIssue = ValidationIssue(level: IssueLevel, message: string)

  /** One call on a `ValidationResult` after it is made. */
  datatype Step = MarkInvalid | AddError(message: string) | AddWarn(message: string)

  /** The verdict and issues after a series of calls, from a given start. */
  function Run(verdict: ValidationVerdict, issues: seq<ValidationIssue>, steps: seq<Step>): (ValidationVerdict, seq<ValidationIssue>)
  {
    if steps == [] then (verdict, issues)
    else
      var (v, iss) := Run(verdict, issues, steps[..|steps| - 1]);
      match steps[|steps| - 1]
      case MarkInvalid => (Invalid, iss)
      case AddError(m) => (v, iss + [ValidationIssue(Error, m)])
      case AddWarn(m) => (v, iss + [ValidationIssue(Warn, m)])
  }

  /** The issues a series of calls adds, in order: one per `error` or `warn`. */
  function Issued(steps: seq<Step>): seq<ValidationIssue>
  {
    if steps == [] then []
    else
      Issued(steps[..|steps| - 1]) +
      match steps[|steps| - 1]
      case MarkInvalid => []
      case AddError(m) => [ValidationIssue(Error, m)]
      case AddWarn(m) => [ValidationIssue(Warn, m)]
  }

  /**
   * The verdict ends `Invalid` exactly when it started so or `invalid` was
   * called, and is otherwise the starting verdict; the issues only grow, by
   * the issues of the calls in order.
   */
  lemma {:induction false} RunOutcome(verdict: ValidationVerdict, issues: seq<ValidationIssue>, steps: seq<Step>)
    ensures Run(verdict, issues, steps).0 == (if MarkInvalid in steps then Invalid else verdict)
    ensures Run(verdict, issues, steps).1 == issues + Issued(steps)
  {
    if steps != [] {
      var init := steps[..|steps| - 1];
      RunOutcome(verdict, issues, init);
      assert steps == init + [steps[|steps| - 1]];
      assert MarkInvalid in steps <==> MarkInvalid in init || steps[|steps| - 1] == MarkInvalid;
    }
  }

  /** Once `Invalid`, always `Invalid`: no call sets `Valid` or `Complete` again. */
  lemma InvalidIsFinal(issues: seq<ValidationIssue>, steps: seq<Step>)
    ensures Run(Invalid, issues, steps).0 == Invalid
  {
    RunOutcome(Invalid, issues, steps);
  }

  class ValidationResult {
    var verdict: ValidationVerdict
    var issues: seq<ValidationIssue>

    /** `new_valid`: the result of a check that verifies checksums. */
    constructor NewValid()
      ensures verdict == Valid && issues == []
    {
      verdict := Valid;
      issues := [];
    }

    /** `new_complete`: the result of a check for completeness only. */
    constructor NewComplete()
      ensures verdict == Complete && issues == []
    {
      verdict := Complete;
      issues := [];
    }

    /** `invalid`. */
    method Invalid()
      modifies this
      ensures verdict == ValidationVerdict.Invalid && issues == old(issues)
    {
      verdict := ValidationVerdict.Invalid;
    }

    /** `error`: one more issue at level `Error`. */
    method Error(message: string)
      modifies this
      ensures issues == old(issues) + [ValidationIssue(IssueLevel.Error, message)] && verdict == old(verdict)
    {
      issues := issues + [ValidationIssue(IssueLevel.Error, message)];
    }

    /** `warn`: one more issue at level `Warn`. */
    method Warn(message: string)
      modifies this
      ensures issues == old(issues) + [ValidationIssue(IssueLevel.Warn, message)] && verdict == old(verdict)
    {
      issues := issues + [ValidationIssue(IssueLevel.Warn, message)];
    }

    /** The calls `steps`, one after the other. */
    method Perform(steps: seq<Step>)
      modifies this
      ensures (verdict, issues) == Run(old(verdict), old(issues), steps)
    {
      var i := 0;
      while i < |steps|
        invariant 0 <= i <= |steps|
        invariant (verdict, issues) == Run(old(verdict), old(issues), steps[..i])
      {
        assert steps[..i + 1][..i] == steps[..i];
        match steps[i] {
          case MarkInvalid => Invalid();
          case AddError(m) => Error(m);
          case AddWarn(m) => Warn(m);
        }
        i := i + 1;
      }
      assert steps[..i] == steps;
    }
  }

  /**
   * The errors of reading `bagit.txt` that make the bag invalid rather than
   * ending the validation: a missing or unreadable file, a bad tag line, a
   * missing tag, a bad version and a bad encoding.
   */
  predicate Reported(e: Errors.Error)
  {
    || (e.IoRead? && (e.kind == Errors.NotFound || e.kind == Errors.PermissionDenied))
    || e.InvalidTagLineWithRef?
    || e.MissingTag?
    || e.InvalidBagItVersion?
    || e.UnsupportedEncoding?
  }

  /** The text of the issue that `read_and_validate_declaration` records for an error, if it records one. */
  function DeclarationMessage(e: Errors.Error): (r: Option<string>)
    ensures r.Some? <==> Reported(e)
  {
    match e
    case IoRead(kind, _) =>
      if kind == Errors.NotFound then Some(Consts.BAGIT_TXT + " does not exist")
      else if kind == Errors.PermissionDenied then Some(Consts.BAGIT_TXT + " cannot be read")
      else None
    case InvalidTagLineWithRef(_, num, details) =>
      Some("Tag " + Decimal.Format(num) + " in " + Consts.BAGIT_TXT + " is invalid: " + details)
    case MissingTag(tag) => Some(Consts.BAGIT_TXT + " is missing required tag '" + tag + "'")
    case InvalidBagItVersion(value) => Some(Consts.BAGIT_TXT + " contains an invalid " + Consts.LABEL_BAGIT_VERSION + ": " + value)
    case UnsupportedEncoding(encoding) => Some(Consts.BAGIT_TXT + " contains an invalid " + Consts.LABEL_FILE_ENCODING + ": " + encoding)
    case _ => None
  }

  /** Digits followed by a non-digit: the digits are determined by the text. */
  lemma DigitsPrefixUnique(a: string, b: string, c: string, d: string)
    requires Decimal.AllDigits(a) && Decimal.AllDigits(c)
    requires b != [] && d != [] && !Decimal.IsDigit(b[0]) && !Decimal.IsDigit(d[0])
    requires a + b == c + d
    ensures a == c && b == d
  {
    assert a == (a + b)[..|a|] && c == (c + d)[..|c|];
    assert b == (a + b)[|a|..] && d == (c + d)[|c|..];
  }

  /** Equal texts after an equal prefix: the rests are equal. */
  lemma SamePrefixRest(p: string, x: string, y: string)
    requires p + x == p + y
    ensures x == y
  {
    assert x == (p + x)[|p|..] && y == (p + y)[|p|..];
  }

  /** The issue names the tag line number and details it reports: different ones give different issues. */
  lemma TagLineMessageInjective(p1: Path, n1: nat, d1: string, p2: Path, n2: nat, d2: string)
    requires DeclarationMessage(Errors.InvalidTagLineWithRef(p1, n1, d1)) == DeclarationMessage(Errors.InvalidTagLineWithRef(p2, n2, d2))
    ensures n1 == n2 && d1 == d2
  {
    var rest := " in " + Consts.BAGIT_TXT + " is invalid: ";
    var f1, f2 := Decimal.Format(n1), Decimal.Format(n2);
    assert DeclarationMessage(Errors.InvalidTagLineWithRef(p1, n1, d1)).value == "Tag " + (f1 + (rest + d1));
    assert DeclarationMessage(Errors.InvalidTagLineWithRef(p2, n2, d2)).value == "Tag " + (f2 + (rest + d2));
    SamePrefixRest("Tag ", f1 + (rest + d1), f2 + (rest + d2));
    DigitsPrefixUnique(f1, rest + d1, f2, rest + d2);
    SamePrefixRest(rest, d1, d2);
    Decimal.FormatInjective(n1, n2);
  }

  /** The issue names the missing tag, and the invalid version or encoding value. */
  lemma ValueMessagesInjective(v: string, w: string)
    ensures DeclarationMessage(Errors.MissingTag(v)) == DeclarationMessage(Errors.MissingTag(w)) ==> v == w
    ensures DeclarationMessage(Errors.InvalidBagItVersion(v)) == DeclarationMessage(Errors.InvalidBagItVersion(w)) ==> v == w
    ensures DeclarationMessage(Errors.UnsupportedEncoding(v)) == DeclarationMessage(Errors.UnsupportedEncoding(w)) ==> v == w
    ensures DeclarationMessage(Errors.InvalidBagItVersion(v)) != DeclarationMessage(Errors.UnsupportedEncoding(w))
  {
    var t := Consts.BAGIT_TXT + " is missing required tag '";
    if DeclarationMessage(Errors.MissingTag(v)) == DeclarationMessage(Errors.MissingTag(w)) {
      assert t + v + "'" == t + (v + "'") && t + w + "'" == t + (w + "'");
      SamePrefixRest(t, v + "'", w + "'");
      assert v == (v + "'")[..|v|];
    }
    var b := Consts.BAGIT_TXT + " contains an invalid " + Consts.LABEL_BAGIT_VERSION + ": ";
    if DeclarationMessage(Errors.InvalidBagItVersion(v)) == DeclarationMessage(Errors.InvalidBagItVersion(w)) {
      SamePrefixRest(b, v, w);
    }
    var e := Consts.BAGIT_TXT + " contains an invalid " + Consts.LABEL_FILE_ENCODING + ": ";
    if DeclarationMessage(Errors.UnsupportedEncoding(v)) == DeclarationMessage(Errors.UnsupportedEncoding(w)) {
      SamePrefixRest(e, v, w);
    }
    var k := |Consts.BAGIT_TXT + " contains an invalid "|;
    assert (b + v)[k] == 'B' && (e + w)[k] == 'T';
  }

  /**
   * `read_and_validate_declaration`, for the outcome `read` of
   * `read_bag_declaration`: a declaration is passed on; a reported error
   * marks the result invalid, records its issue and ends with no
   * declaration; any other error is returned as it is.
   */
  method ReadAndValidateDeclaration<D>(result: ValidationResult, read: Errors.Result<D>)
    returns (r: Errors.Result<Option<D>>)
    modifies result
    ensures read.Ok? ==> r == Errors.Ok(Some(read.value)) && unchanged(result)
    ensures read.Err? && Reported(read.error) ==>
      && r == Errors.Ok(None)
      && result.verdict == Invalid
      && result.issues == old(result.issues) + [ValidationIssue(Error, DeclarationMessage(read.error).value)]
    ensures read.Err? && !Reported(read.error) ==> r == Errors.Err(read.error) && unchanged(result)
  {
    if read.Ok? {
      return Errors.Ok(Some(read.value));
    }
    var message := DeclarationMessage(read.error);
    if message.None? {
      return Errors.Err(read.error);
    }
    result.Invalid();
    result.Error(message.value);
    r := Errors.Ok(None);
  }

  /**
   * `validate_bag` as far as the source goes: a fresh result, `Valid` for an
   * integrity check and `Complete` otherwise, then the declaration step.
   */
  method ValidateBag<D>(integrityCheck: bool, read: Errors.Result<D>) returns (r: Errors.Result<ValidationResult>)
    ensures r.Ok? <==> read.Ok? || Reported(read.error)
    ensures r.Err? ==> r.error == read.error
    ensures r.Ok? && read.Ok? ==>
      r.value.verdict == (if integrityCheck then Valid else Complete) && r.value.issues == []
    ensures r.Ok? && read.Err? ==>
      r.value.verdict == Invalid && r.value.issues == [ValidationIssue(Error, DeclarationMessage(read.error).value)]
  {
    var result: ValidationResult;
    if integrityCheck {
      result := new ValidationResult.NewValid();
    } else {
      result := new ValidationResult.NewComplete();
    }
    var declaration := ReadAndValidateDeclaration(result, read);
    if declaration.Err? {
      return Errors.Err(declaration.error);
    }
    if declaration.value.None? {
      return Errors.Ok(result);
    }
    r := Errors.Ok(result);
  }

  /** A missing `bagit.txt` gives one issue, whatever the kind of check. */
  method MissingDeclaration(integrityCheck: bool, path: Path) returns (r: Errors.Result<ValidationResult>)
    ensures r.Ok? && r.value.verdict == Invalid
    ensures r.Ok? && r.value.issues == [ValidationIssue(Error, "bagit.txt does not exist")]
  {
    r := ValidateBag<()>(integrityCheck, Errors.Err(Errors.IoRead(Errors.NotFound, path)));
    assert Consts.BAGIT_TXT + " does not exist" == "bagit.txt does not exist";
  }
}
