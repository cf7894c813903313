/** The rate-limited log of accept errors in src/server.rs: one report per error signature. Times
    are milliseconds. */
module AcceptErrors {
  import opened Text

  const SUPPRESS: nat := 10_000

  datatype Report = Report(lastLog: Option<nat>, suppressed: nat)

  /** An emitted log line, with the number of suppressed reports it prints. */
  datatype Line = Line(at: nat, suppressed: nat)

  const NEW_REPORT: Report := Report(None, 0)

  predicate ShouldEmit(r: Report, now: nat) {
    r.lastLog.None? || (r.lastLog.value <= now && SUPPRESS <= now - r.lastLog.value)
  }

  /** `AcceptErrorReport::log`. */
  function Logged(r: Report, now: nat): (Report, Option<Line>) {
    if ShouldEmit(r, now) then (Report(Some(now), 0), Some(Line(now, r.suppressed)))
    else (Report(r.lastLog, r.suppressed + 1), None)
  }

  class AcceptErrorReporter {
    var reports: map<string, Report>

    constructor ()
      ensures reports == map[]
    {
      reports := map[];
    }

    method ReportError(signature: string, now: nat) returns (line: Option<Line>)
      modifies this
      ensures var (r, l) := Logged(if signature in old(reports) then old(reports)[signature] else NEW_REPORT, now);
              reports == old(reports)[signature := r] && line == l
    {
      var r := if signature in reports then reports[signature] else NEW_REPORT;
      r := r.(suppressed := r.suppressed + 1);
      if ShouldEmit(r, now) {
        line := Some(Line(now, r.suppressed - 1));
        r := Report(Some(now), 0);
      } else {
        line := None;
      }
      reports := reports[signature := r];
    }
  }

  // ----- runs -----

  datatype Error = Error(signature: string, now: nat)

  /** The reporter's table and, per signature, the lines it has emitted. */
  datatype State = State(reports: map<string, Report>, lines: map<string, seq<Line>>)

  function ReportOf(s: State, signature: string): Report {
    if signature in s.reports then s.reports[signature] else NEW_REPORT
  }

  function LinesOf(s: State, signature: string): seq<Line> {
    if signature in s.lines then s.lines[signature] else []
  }

  function Next(s: State, e: Error): State {
    var (r, line) := Logged(ReportOf(s, e.signature), e.now);
    State(s.reports[e.signature := r],
          if line.Some? then s.lines[e.signature := LinesOf(s, e.signature) + [line.value]] else s.lines)
  }

  function After(errors: seq<Error>): State {
    if errors == [] then State(map[], map[])
    else Next(After(errors[..|errors| - 1]), errors[|errors| - 1])
  }

  function Occurrences(errors: seq<Error>, signature: string): nat {
    if errors == [] then 0
    else Occurrences(errors[..|errors| - 1], signature)
         + if errors[|errors| - 1].signature == signature then 1 else 0
  }

  function Printed(lines: seq<Line>): nat {
    if lines == [] then 0 else Printed(lines[..|lines| - 1]) + lines[|lines| - 1].suppressed
  }

  ghost predicate Spaced(lines: seq<Line>) {
    forall i :: 0 < i < |lines| ==> lines[i - 1].at + SUPPRESS <= lines[i].at
  }

  lemma {:induction false} RunInvariant(errors: seq<Error>, signature: string)
    ensures var s := After(errors);
            var lines, report := LinesOf(s, signature), ReportOf(s, signature);
            && Occurrences(errors, signature) == |lines| + Printed(lines) + report.suppressed
            && report.lastLog == (if lines == [] then None else Some(lines[|lines| - 1].at))
            && Spaced(lines)
  {
    if errors != [] {
      var before, e := errors[..|errors| - 1], errors[|errors| - 1];
      RunInvariant(before, signature);
      var s, s' := After(before), After(errors);
      if LinesOf(s', signature) != LinesOf(s, signature) {
        assert LinesOf(s', signature)[..|LinesOf(s, signature)|] == LinesOf(s, signature);
      }
    }
  }

  /** No report is lost: in every run, each report of a signature is an emitted line, is counted in
      the suppressed number some line printed, or is still held. */
  lemma {:induction false} ReportsConserved(errors: seq<Error>, signature: string)
    ensures var s := After(errors);
            Occurrences(errors, signature)
            == |LinesOf(s, signature)| + Printed(LinesOf(s, signature)) + ReportOf(s, signature).suppressed
  {
    RunInvariant(errors, signature);
  }

  lemma {:induction false} SpacedOut(lines: seq<Line>, i: nat, j: nat)
    requires Spaced(lines) && i <= j < |lines|
    ensures lines[i].at + (j - i) * SUPPRESS <= lines[j].at
    decreases j
  {
    if i < j {
      SpacedOut(lines, i, j - 1);
      assert lines[(j - 1)].at + SUPPRESS <= lines[j].at;
    }
  }

  /** In every run the lines a signature emits within any span of length `span` number at most
      `span / 10 s + 1`. */
  lemma {:induction false} LogRateBounded(errors: seq<Error>, signature: string, i: nat, j: nat, span: nat)
    requires i < j <= |LinesOf(After(errors), signature)|
    requires LinesOf(After(errors), signature)[j - 1].at <= LinesOf(After(errors), signature)[i].at + span
    ensures j - i <= span / SUPPRESS + 1
  {
    RunInvariant(errors, signature);
    SpacedOut(LinesOf(After(errors), signature), i, j - 1);
  }

  /** A report is logged exactly when it is the first of its signature or comes at least ten seconds
      after the last line of it, and the line prints how many were suppressed in between; no other
      signature is affected. */
  lemma {:induction false} EmittedIff(errors: seq<Error>, e: Error, signature: string)
    ensures var before, after := LinesOf(After(errors), signature), LinesOf(After(errors + [e]), signature);
            if e.signature != signature then after == before
            else if before == [] || before[|before| - 1].at + 10_000 <= e.now
            then && |after| == |before| + 1 && after[..|before|] == before && after[|before|].at == e.now
                 && |before| + Printed(before) + after[|before|].suppressed == Occurrences(errors, signature)
            else after == before
    ensures LinesOf(After(errors), signature) == [] <==> Occurrences(errors, signature) == 0
  {
    assert (errors + [e])[..|errors|] == errors;
    RunInvariant(errors, signature);
    FirstIsLogged(errors, signature);
  }

  lemma {:induction false} FirstIsLogged(errors: seq<Error>, signature: string)
    ensures LinesOf(After(errors), signature) == [] <==> Occurrences(errors, signature) == 0
  {
    if errors != [] {
      FirstIsLogged(errors[..|errors| - 1], signature);
      RunInvariant(errors[..|errors| - 1], signature);
    }
  }
}
