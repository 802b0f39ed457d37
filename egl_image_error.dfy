/**
 * The report made when `eglCreateImageKHR` returns no image: the EGL error
 * code is sorted into one of five named reasons or "unmapped", and the
 * program's status becomes -ENODEV whatever the reason.
 */
module EglImageError {

  /** Error codes as the EGL 1.4 header defines them. */
  const EglBadAccess: int := 0x3002
  const EglBadAlloc: int := 0x3003
  const EglBadDisplay: int := 0x3008
  const EglBadMatch: int := 0x3009
  const EglBadParameter: int := 0x300C

  /** `ENODEV` on Linux. */
  const ENoDev: int := 19

  datatype ImportFailure =
    | BadDisplay
    | BadParameter
    | BadMatch
    | BadAccess
    | BadAlloc
    | Unmapped(code: int)

  /** The code each reason stands for; an unmapped code stands for itself. */
  function ErrorCode(reason: ImportFailure): int
  {
    match reason
    case BadDisplay => EglBadDisplay
    case BadParameter => EglBadParameter
    case BadMatch => EglBadMatch
    case BadAccess => EglBadAccess
    case BadAlloc => EglBadAlloc
    case Unmapped(code) => code
  }

  /**
   * The `switch (err)`: five codes get their own reason, every other code
   * is unmapped. No code is lost by the classification.
   */
  function Classify(err: int): (reason: ImportFailure)
    ensures ErrorCode(reason) == err
    ensures reason.Unmapped? <==>
              err != EglBadDisplay && err != EglBadParameter && err != EglBadMatch &&
              err != EglBadAccess && err != EglBadAlloc
  {
    if err == EglBadDisplay then BadDisplay
    else if err == EglBadParameter then BadParameter
    else if err == EglBadMatch then BadMatch
    else if err == EglBadAccess then BadAccess
    else if err == EglBadAlloc then BadAlloc
    else Unmapped(err)
  }

  /** The reason reported and the status the program returns. */
  datatype FailureReport = FailureReport(reason: ImportFailure, status: int)

  /** The failed-import branch: classify, then leave with -ENODEV. */
  function OnImportFailure(err: int): (report: FailureReport)
    ensures report.status == -ENoDev
    ensures report.reason == Classify(err)
    ensures ErrorCode(report.reason) == err
  {
    FailureReport(Classify(err), -ENoDev)
  }

  /**
   * Classifying the code of a named reason gives that reason back, so the
   * five named reasons are told apart; an unmapped reason whose code is
   * not one of the five comes back unchanged as well.
   */
  lemma ClassifyErrorCode(reason: ImportFailure)
    requires reason.Unmapped? ==> Classify(reason.code).Unmapped?
    ensures Classify(ErrorCode(reason)) == reason
  {
  }

  /** Two codes get the same reason only if they are the same code. */
  lemma ClassifyInjective(a: int, b: int)
    ensures Classify(a) == Classify(b) <==> a == b
  {
    assert ErrorCode(Classify(a)) == a && ErrorCode(Classify(b)) == b;
  }
}
