/** The landing gate as a whole: whether both logs are authentic, and what they say, from one read of each file. */
module LandingGate {
  import opened Text
  import Gate
  import Measurement

  type Side = Option<Measurement.Side>

  /** The texts of a side, decoded and split into lines; a side without a log path has none. */
  function Texts(decode: string -> seq<string>, side: Side): Gate.SideText {
    match side
    case None => Gate.SideText(None, None)
    case Some(s) => Gate.SideText(Some(decode(s.raw)), if s.ids.Some? then Some(decode(s.ids.value)) else None)
  }

  ghost predicate Complete(side: Side, expected: Option<string>, issued: set<Measurement.ReceiptBody>) {
    side.Some? && Measurement.SideComplete(side.value, expected, issued)
  }

  /** The measurement outcome before ids are bound. */
  ghost function Measured(baseline: Side, subject: Side, expected: Option<string>,
                          issued: set<Measurement.ReceiptBody>): string
  {
    if baseline.None? && subject.None? then "not_measured"
    else if Complete(baseline, expected, issued) && Complete(subject, expected, issued) then "complete"
    else "incomplete"
  }

  function NameOf(c: Measurement.Completeness): string {
    match c
    case NotMeasured => "not_measured"
    case Incomplete(_) => "incomplete"
    case AllComplete => "complete"
  }

  function Supplied(baseline: Side, subject: Side): (sides: map<string, Measurement.Side>)
    ensures "baseline" in sides <==> baseline.Some?
    ensures "subject" in sides <==> subject.Some?
    ensures baseline.Some? ==> sides["baseline"] == baseline.value
    ensures subject.Some? ==> sides["subject"] == subject.value
    ensures forall l :: l in sides ==> l == "baseline" || l == "subject"
  {
    var one: map<string, Measurement.Side> := if baseline.Some? then map["baseline" := baseline.value] else map[];
    if subject.Some? then one["subject" := subject.value] else one
  }

  /** `measurement_completeness` of the two sides. `verdict` says which of them pass the receipt checks, which need the
      signing key. */
  method CheckSides(baseline: Side, subject: Side, verdict: map<string, bool>, ghost expected: Option<string>,
                    ghost issued: set<Measurement.ReceiptBody>) returns (measured: string)
    requires "baseline" in verdict && "subject" in verdict
    requires baseline.Some? ==>
      (verdict["baseline"] <==> Measurement.SideComplete(baseline.value, expected, issued))
    requires subject.Some? ==>
      (verdict["subject"] <==> Measurement.SideComplete(subject.value, expected, issued))
    ensures measured == Measured(baseline, subject, expected, issued)
  {
    var sides := Supplied(baseline, subject);
    var labels := ["baseline", "subject"];
    assert forall l :: l in labels <==> l == "baseline" || l == "subject";
    var c := Measurement.CheckCompleteness(labels, sides, verdict, expected, issued);
    measured := NameOf(c);
  }

  /** `_run_gate_report` over the two sides as read. */
  method RunGate(p: Gate.Patterns, decode: string -> seq<string>, baseline: Side, subject: Side,
                 verdict: map<string, bool>, freshness: string, environment: string, scope: string,
                 ghost expected: Option<string>, ghost issued: set<Measurement.ReceiptBody>)
    returns (report: Gate.Report)
    requires "baseline" in verdict && "subject" in verdict
    requires baseline.Some? ==>
      (verdict["baseline"] <==> Measurement.SideComplete(baseline.value, expected, issued))
    requires subject.Some? ==>
      (verdict["subject"] <==> Measurement.SideComplete(subject.value, expected, issued))
    ensures report == Gate.ReportOf(p, Texts(decode, baseline), Texts(decode, subject),
              Gate.Probes(freshness, environment, Measured(baseline, subject, expected, issued), scope))
    ensures Gate.ReportSays(p, Texts(decode, baseline), Texts(decode, subject), report.diff)
    ensures Gate.OutcomeSays(report,
              Gate.Probes(freshness, environment, Measured(baseline, subject, expected, issued), scope))
  {
    var measured := CheckSides(baseline, subject, verdict, expected, issued);
    report := Gate.RunGateReport(p, Texts(decode, baseline), Texts(decode, subject),
                                 Gate.Probes(freshness, environment, measured, scope));
  }

  /** What a mergeable verdict means, end to end: over every run of the measurement protocol, whatever mixture of files
      the gate read, both logs are byte for byte what returned runs with executed tests left, under the run ids of the
      markers read, and everything the subject's log lists is a known failure of the baseline's. */
  lemma MergeableIsBacked(ws: seq<Measurement.World>, es: seq<Measurement.Event>, i: nat, p: Gate.Patterns,
                          decode: string -> seq<string>, baseline: Side, subject: Side, expected: Option<string>,
                          freshness: string, environment: string, scope: string)
    requires Measurement.IsRun(ws, es) && i < |ws| && ws[0].issuedStatus == {} && ws[0].issuedReceipts == {}
    requires Gate.ReportOf(p, Texts(decode, baseline), Texts(decode, subject),
               Gate.Probes(freshness, environment, Measured(baseline, subject, expected, ws[i].issuedReceipts), scope))
             .mergeable
    ensures baseline.Some? && subject.Some?
    ensures Measurement.SideBacked(ws[i], baseline.value) && Measurement.SideBacked(ws[i], subject.value)
    ensures Gate.AllKnown(p, decode(baseline.value.raw), decode(subject.value.raw))
    ensures Gate.Reconciles(p, decode(subject.value.raw))
    ensures Gate.InternalsShow(p) ==> Gate.NothingBroke(p, Gate.Visibles(p, decode(subject.value.raw)))
  {
    var issued := ws[i].issuedReceipts;
    var probes := Gate.Probes(freshness, environment, Measured(baseline, subject, expected, issued), scope);
    Gate.MergeableMeans(p, Texts(decode, baseline), Texts(decode, subject), probes);
    assert Complete(baseline, expected, issued) && Complete(subject, expected, issued);
    Measurement.CompleteIsBacked(ws, es, i, baseline.value, expected);
    Measurement.CompleteIsBacked(ws, es, i, subject.value, expected);
  }
}
