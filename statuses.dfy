/**
 * Test statuses as allure-pytest/src/utils.py derives them: from the
 * exception a test phase raised (`get_status`, `get_outcome_status`), from a
 * pytest report's outcome flags (`get_pytest_report_status`), and whether
 * there are status details at all (`get_status_details`).
 *
 * How a traceback or an exception is formatted as text is foreign to this
 * model: the formatted message and trace are inputs.
 */
module Statuses {
  import opened Wrappers

  /** Allure's test statuses. */
  datatype Status = Failed | Broken | Passed | Skipped

  /**
   * An exception, described by the classes `get_status` tests it against:
   * `AssertionError`, pytest's fail exception and pytest's skip exception.
   */
  datatype PyException = PyException(isAssertionError: bool, isFailException: bool, isSkipException: bool)

  /**
   * `get_status(exception)`: passed without an exception; failed for an
   * assertion error or `pytest.fail`; skipped for `pytest.skip`; broken for
   * anything else.  A failure class wins over the skip class.
   */
  function GetStatus(exception: Option<PyException>): (s: Status)
    ensures s == Passed <==> exception.None?
    ensures s == Failed <==> exception.Some? && (exception.value.isAssertionError || exception.value.isFailException)
    ensures s == Skipped <==> exception.Some? && !exception.value.isAssertionError && !exception.value.isFailException && exception.value.isSkipException
    ensures s == Broken <==> exception.Some? && !exception.value.isAssertionError && !exception.value.isFailException && !exception.value.isSkipException
  {
    match exception
    case None => Passed
    case Some(e) =>
      if e.isAssertionError || e.isFailException then Failed
      else if e.isSkipException then Skipped
      else Broken
  }

  /** `excinfo`: the exception type, the exception and its traceback; only the exception matters here. */
  datatype ExcInfo = ExcInfo(exception: PyException)

  /** The outcome of a hook call: its `excinfo`, or nothing when it returned normally. */
  datatype Outcome = Outcome(excinfo: Option<ExcInfo>)

  /** `get_outcome_status(outcome)`: the status of the outcome's exception, if any. */
  function GetOutcomeStatus(outcome: Outcome): (s: Status)
    ensures s == Passed <==> outcome.excinfo.None?
    ensures outcome.excinfo.Some? ==> s == GetStatus(Some(outcome.excinfo.value.exception))
  {
    match outcome.excinfo
    case None => GetStatus(None)
    case Some(info) => GetStatus(Some(info.exception))
  }

  /** Allure's status details: a message and a trace. */
  datatype StatusDetails = StatusDetails(message: string, trace: string)

  /**
   * `get_status_details` given the already formatted message and trace:
   * details exactly when at least one of them is non-empty, holding both.
   */
  function GetStatusDetails(message: string, trace: string): (d: Option<StatusDetails>)
    ensures d.None? <==> message == "" && trace == ""
    ensures d.Some? ==> d.value.message == message && d.value.trace == trace
  {
    if message != "" || trace != "" then Some(StatusDetails(message, trace)) else None
  }

  /** A pytest report's outcome flags. */
  datatype Report = Report(failed: bool, passed: bool, skipped: bool)

  const PYTEST_STATUSES: seq<string> := ["failed", "passed", "skipped"]
  const STATUSES: seq<Status> := [Failed, Passed, Skipped]

  /** `getattr(report, name)` for the three outcome attributes. */
  function Attr(report: Report, name: string): bool
    requires name in PYTEST_STATUSES
  {
    if name == "failed" then report.failed
    else if name == "passed" then report.passed
    else report.skipped
  }

  /**
   * The status of a report: the status of the first of `failed`, `passed`,
   * `skipped` that is set, or nothing when none is.
   */
  function ReportStatus(report: Report): (r: Option<Status>)
    ensures r.Some? <==> report.failed || report.passed || report.skipped
    ensures r.Some? ==> r.value != Broken
    ensures report.failed ==> r == Some(Failed)
    ensures !report.failed && report.passed ==> r == Some(Passed)
    ensures !report.failed && !report.passed && report.skipped ==> r == Some(Skipped)
  {
    if report.failed then Some(Failed)
    else if report.passed then Some(Passed)
    else if report.skipped then Some(Skipped)
    else None
  }

  /**
   * `get_pytest_report_status(pytest_report)`: walks the outcome names and
   * the statuses side by side and returns the status of the first outcome
   * attribute that is set.
   */
  method GetPytestReportStatus(report: Report) returns (r: Option<Status>)
    ensures r == ReportStatus(report)
  {
    var i := 0;
    while i < |PYTEST_STATUSES|
      invariant 0 <= i <= |PYTEST_STATUSES|
      invariant forall j :: 0 <= j < i ==> !Attr(report, PYTEST_STATUSES[j])
    {
      if Attr(report, PYTEST_STATUSES[i]) {
        return Some(STATUSES[i]);
      }
      i := i + 1;
    }
    assert !Attr(report, PYTEST_STATUSES[0]) && !Attr(report, PYTEST_STATUSES[1]) && !Attr(report, PYTEST_STATUSES[2]);
    return None;
  }
}
