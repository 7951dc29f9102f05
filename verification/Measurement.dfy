/** The landing-measurement protocol: attempt marker, bounded run, signed status, completion receipt,
    consumer verification. Digests are injective and a tag verifies only what was tagged. */
module Measurement {
  import opened Text
  import MarkerScan

  type Bytes = string

  datatype Digest = Digest(of: Bytes)

  const COMPLETE := "complete"
  const INCOMPLETE := "incomplete"
  const RECEIPT_SCHEMA := "landing_measurement_receipt/v1"
  const ATTEMPT_SCHEMA := "landing_measurement_attempt/v1"
  const COMPAT := "landing-measurement/v1"
  const PRODUCER := "run_bounded_pytest"
  const RUN_MARKER := "LANDING_GATE_RUN_MARKER"

  /** The session proof the measured pytest writes; `bound` says its configuration, plugin and
      selection pass the producer's checks. */
  datatype Proof = Proof(runToken: string, started: bool, executed: int, collectOnly: bool, runtime: string,
                         bound: bool)

  datatype Outcome = Returned | Signaled | TimedOut | Unavailable

  datatype StatusBody = StatusBody(producer: string, attested: bool, outcome: Outcome, timedOut: bool,
                                   returncode: Option<int>, runToken: string, session: Option<Proof>,
                                   runtime: Option<string>, rawSha: Option<Digest>, scopeSha: Option<Digest>,
                                   runId: Option<string>)

  /** `tag` is what the signature was computed over. */
  datatype Status = Status(body: StatusBody, tag: Option<StatusBody>)

  datatype ReceiptBody = ReceiptBody(schema: string, status: string, returncode: Option<int>,
                                     rawSha: Option<Digest>, idsSha: Option<Digest>, nidsSha: Option<Digest>,
                                     scopeSha: Option<Digest>, fingerprint: string, compat: string,
                                     producerCompat: string, producer: string, script: Option<string>,
                                     wrapper: Option<string>, runToken: Option<string>, runId: Option<string>,
                                     rawPath: Option<string>, idsPath: Option<string>, nidsPath: Option<string>,
                                     scopePath: Option<string>, error: Option<string>)

  datatype Receipt = Receipt(body: ReceiptBody, tag: Option<ReceiptBody>)

  datatype Attempt = Attempt(schema: string, status: string, runId: Option<string>)

  // ---------- the local checks ----------

  predicate IsTerminal(code: Option<int>) { code.Some? && code.value >= 0 }

  predicate IsMeasurement(code: Option<int>) { IsTerminal(code) && code.value !in {2, 3, 4, 127} }

  ghost predicate HasMarkers(raw: Option<Bytes>, token: string) {
    var m := RUN_MARKER + "=" + token + " session=";
    Brackets(raw, m + "start", m + "finish")
  }

  ghost predicate Brackets(raw: Option<Bytes>, start: string, finish: string) {
    raw.Some? && MarkerScan.StartsBeforeFinish(MarkerScan.Lines(raw.value), start, finish)
  }

  /** A log holds a run's markers: a start line and, on a later line, a finish line, each naming the run's token. */
  lemma MarkersAre(raw: Option<Bytes>, token: string, m: string)
    requires m == "LANDING_GATE_RUN_MARKER=" + token
    ensures HasMarkers(raw, token) <==> Brackets(raw, m + " session=start", m + " session=finish")
  {
    JoinThree(RUN_MARKER + "=" + token, " session=", "start");
    JoinThree(RUN_MARKER + "=" + token, " session=", "finish");
    assert " session=" + "start" == " session=start" && " session=" + "finish" == " session=finish";
    assert RUN_MARKER + "=" == "LANDING_GATE_RUN_MARKER=";
  }

  predicate SessionComplete(proof: Option<Proof>, token: string, runtime: Option<string>) {
    && proof.Some? && runtime.Some?
    && proof.value.runToken == token && proof.value.started && proof.value.executed > 0
    && !proof.value.collectOnly && proof.value.runtime == runtime.value && proof.value.bound
  }

  function Sha(bytes: Option<Bytes>): Option<Digest> { if bytes.Some? then Some(Digest(bytes.value)) else None }

  ghost predicate StatusVerifies(s: Status, issued: set<StatusBody>) { s.tag == Some(s.body) && s.body in issued }

  ghost predicate ProducerStatusComplete(s: Option<Status>, rawSha: Option<Digest>, rawAgain: Option<Bytes>,
                                         issued: set<StatusBody>) {
    && s.Some? && s.value.body.producer == PRODUCER && StatusVerifies(s.value, issued)
    && var b := s.value.body;
    && b.attested && b.outcome == Returned && !b.timedOut && IsMeasurement(b.returncode)
    && Visible(b.runToken) && SessionComplete(b.session, b.runToken, b.runtime)
    && HasMarkers(rawAgain, b.runToken)
    && b.rawSha.Some? && b.rawSha == rawSha
  }

  predicate BindsScope(s: Option<Status>, scopeSha: Option<Digest>, runId: Option<string>, code: Option<int>) {
    && s.Some? && scopeSha.Some?
    && s.value.body.scopeSha == scopeSha && s.value.body.runId == runId && s.value.body.returncode == code
  }

  // ---------- the bounded run ----------

  datatype RunEnd = Refused | RuntimeMissing | SpawnFailed | Expired
    | Exited(code: int, proof: Option<Proof>, oversized: bool)

  /** One call of run_bounded_pytest: what it was asked, the scope it read first, what the child did, the raw log as the
      marker scan found it, and the raw log as it was hashed after that. */
  datatype PytestRun = PytestRun(isPytest: bool, runId: Option<string>, token: string, scope: Option<Bytes>,
                                 runtime: Option<string>, scanned: Option<Bytes>, raw: Option<Bytes>, end: RunEnd)

  function Unsigned(r: PytestRun, outcome: Outcome, attested: bool): Status {
    Status(StatusBody(PRODUCER, attested, outcome, outcome == TimedOut, None, r.token, None, None, Sha(r.raw),
                      None, r.runId),
           None)
  }

  ghost function StatusOf(r: PytestRun): Status {
    match r.end
    case Refused => Unsigned(r, Unavailable, false)
    case RuntimeMissing => Unsigned(r, Unavailable, false)
    case SpawnFailed => Unsigned(r, Unavailable, r.isPytest)
    case Expired => Unsigned(r, TimedOut, r.isPytest)
    case Exited(code, proof, oversized) =>
      var outcome := if code < 0 then Signaled else Returned;
      var unproven := oversized || !SessionComplete(proof, r.token, r.runtime) || !HasMarkers(r.scanned, r.token);
      var attested := r.isPytest && !(outcome == Returned && unproven);
      var body := StatusBody(PRODUCER, attested, outcome, false, Some(code), r.token, proof, r.runtime, Sha(r.raw),
                             Sha(r.scope), r.runId);
      Status(body, Some(body))
  }

  /** Exit codes of a measurement: not a signal, an interruption (2), an internal (3) or usage (4) error, nor a missing
      interpreter (127). */
  ghost predicate UsableCode(code: int) { code >= 0 && code != 2 && code != 3 && code != 4 && code != 127 }

  /** The session of the run with this token, in this runtime: it started, was no mere collection, executed at least one
      test and passed the producer's checks. */
  ghost predicate TestsRan(proof: Option<Proof>, token: string, runtime: Option<string>) {
    && proof.Some? && runtime == Some(proof.value.runtime) && proof.value.runToken == token
    && proof.value.started && !proof.value.collectOnly && proof.value.executed >= 1 && proof.value.bound
  }

  /** A pytest run that came back by itself with tests executed and a usable exit code. */
  ghost predicate GoodRun(r: PytestRun) {
    && r.isPytest && r.end.Exited? && UsableCode(r.end.code) && TestsRan(r.end.proof, r.token, r.runtime)
    && HasMarkers(r.scanned, r.token)
  }

  /** When a status is attested: a pytest run that started and then timed out, was killed, or came back with tests
      executed, markers in place and a log of bounded size. */
  ghost predicate Attested(r: PytestRun) {
    && r.isPytest
    && match r.end
       case Refused => false
       case RuntimeMissing => false
       case SpawnFailed => true
       case Expired => true
       case Exited(code, proof, oversized) =>
         code < 0 || (!oversized && TestsRan(proof, r.token, r.runtime) && HasMarkers(r.scanned, r.token))
  }

  /** What the status of a run says, item by item; only a run that came to an end is signed. */
  lemma StatusSays(r: PytestRun)
    ensures var b := StatusOf(r).body;
      && b.producer == "run_bounded_pytest" && b.runToken == r.token && b.runId == r.runId
      && (b.rawSha == if r.raw.Some? then Some(Digest(r.raw.value)) else None)
      && (b.attested <==> Attested(r))
      && (b.timedOut <==> r.end.Expired?) && (b.outcome == TimedOut <==> r.end.Expired?)
      && (b.outcome == Signaled <==> r.end.Exited? && r.end.code < 0)
      && (b.outcome == Returned <==> r.end.Exited? && r.end.code >= 0)
      && (b.returncode == if r.end.Exited? then Some(r.end.code) else None)
    ensures StatusOf(r).tag == if r.end.Exited? then Some(StatusOf(r).body) else None
  {
  }

  // ---------- issuing a receipt ----------

  datatype IssueArgs = IssueArgs(status: string, returncode: Option<int>,
                                 rawPath: Option<string>, idsPath: Option<string>, nidsPath: Option<string>,
                                 scopePath: Option<string>,
                                 fingerprint: string, error: Option<string>, runId: Option<string>,
                                 producerStatus: Option<Status>,
                                 script: Option<string>, wrapper: Option<string>, trusted: Option<string>)

  /** The artifact bytes found at the given paths; the raw log is opened a second time for markers. */
  datatype Reads = Reads(raw: Option<Bytes>, ids: Option<Bytes>, nids: Option<Bytes>, scope: Option<Bytes>,
                         rawAgain: Option<Bytes>)

  /** Everything a complete receipt needs. */
  ghost predicate Issuable(a: IssueArgs, r: Reads, issued: set<StatusBody>) {
    && a.status == COMPLETE
    && ProducerStatusComplete(a.producerStatus, Sha(r.raw), r.rawAgain, issued)
    && BindsScope(a.producerStatus, Sha(r.scope), a.runId, a.returncode)
    && IsMeasurement(a.returncode)
    && r.raw.Some? && r.ids.Some? && r.nids.Some? && r.scope.Some?
    && VisibleText(a.script) && VisibleText(a.wrapper) && Visible(a.fingerprint) && VisibleText(a.runId)
    && (a.trusted.Some? ==> a.fingerprint == a.trusted.value)
  }

  /** The evidence a signed receipt rests on, item by item, the exit code apart: a status signed by a producer step, of
      an attested pytest run that returned in time, executed tests and left its markers in the log; that status bound to
      the log, scope, run and exit code at hand; all four artifacts readable; and the producer's identity. */
  ghost predicate Evidence(a: IssueArgs, r: Reads, issued: set<StatusBody>) {
    && a.status == "complete" && a.producerStatus.Some?
    && r.raw.Some? && r.ids.Some? && r.nids.Some? && r.scope.Some?
    && var s, b := a.producerStatus.value, a.producerStatus.value.body;
    && s.tag == Some(b) && b in issued && b.producer == "run_bounded_pytest"
    && b.attested && b.outcome == Returned && !b.timedOut
    && Visible(b.runToken) && TestsRan(b.session, b.runToken, b.runtime) && HasMarkers(r.rawAgain, b.runToken)
    && b.rawSha == Some(Digest(r.raw.value)) && b.scopeSha == Some(Digest(r.scope.value))
    && b.runId == a.runId && b.returncode == a.returncode
    && a.runId.Some? && Visible(a.runId.value) && Visible(a.fingerprint)
    && a.script.Some? && Visible(a.script.value) && a.wrapper.Some? && Visible(a.wrapper.value)
    && (a.trusted.None? || a.trusted == Some(a.fingerprint))
  }

  lemma EvidenceIsIssuable(a: IssueArgs, r: Reads, issued: set<StatusBody>)
    ensures Issuable(a, r, issued) <==>
      Evidence(a, r, issued) && a.returncode.Some? && UsableCode(a.returncode.value)
  {
  }

  ghost function ReceiptError(a: IssueArgs, r: Reads): Option<string> {
    if a.status == COMPLETE && !BindsScope(a.producerStatus, Sha(r.scope), a.runId, a.returncode)
      then Some("producer_scope_mismatched_or_unbound")
    else if a.rawPath.Some? && r.raw.None? then Some("raw_artifact_unavailable")
    else a.error
  }

  ghost function ReceiptStatus(a: IssueArgs, r: Reads, issued: set<StatusBody>): string {
    if a.status == COMPLETE && !Issuable(a, r, issued) then INCOMPLETE else a.status
  }

  function VisibleOr(s: Option<string>): Option<string> { if VisibleText(s) then s else None }

  ghost function ReceiptFor(a: IssueArgs, r: Reads, issued: set<StatusBody>): Receipt {
    var status := ReceiptStatus(a, r, issued);
    var full := status == COMPLETE;
    var token :=
      if a.producerStatus.Some? && Visible(a.producerStatus.value.body.runToken)
      then Some(a.producerStatus.value.body.runToken) else None;
    var body := ReceiptBody(RECEIPT_SCHEMA, status, if IsTerminal(a.returncode) then a.returncode else None,
                            Sha(r.raw), if full then Sha(r.ids) else None,
                            if full then Sha(r.nids) else None, if full then Sha(r.scope) else None,
                            a.fingerprint, COMPAT, COMPAT, PRODUCER, VisibleOr(a.script), VisibleOr(a.wrapper),
                            token, VisibleOr(a.runId),
                            a.rawPath, a.idsPath, a.nidsPath, a.scopePath, ReceiptError(a, r));
    Receipt(body, if full then Some(body) else None)
  }

  /** `write_completion_receipt`, deciding with its downgrading `status` variable. Whether the producer status is
      complete, which needs the signing key and the marker scan, comes in as `statusComplete`. */
  method WriteCompletionReceipt(a: IssueArgs, r: Reads, ghost issued: set<StatusBody>, statusComplete: bool)
    returns (receipt: Receipt)
    requires statusComplete <==> ProducerStatusComplete(a.producerStatus, Sha(r.raw), r.rawAgain, issued)
    ensures receipt == ReceiptFor(a, r, issued)
    ensures receipt.tag.Some? <==> Certifies(a, r, issued)
  {
    var status, error := Downgraded(a, r, issued, statusComplete);
    var rawSha, idsSha, nidsSha, scopeSha := Sha(r.raw), Sha(r.ids), Sha(r.nids), Sha(r.scope);
    if status != COMPLETE { idsSha, nidsSha, scopeSha := None, None, None; }
    var token := None;
    if a.producerStatus.Some? && Visible(a.producerStatus.value.body.runToken) {
      token := Some(a.producerStatus.value.body.runToken);
    }
    var body := ReceiptBody(RECEIPT_SCHEMA, status, if IsTerminal(a.returncode) then a.returncode else None,
                            rawSha, idsSha, nidsSha, scopeSha, a.fingerprint, COMPAT, COMPAT, PRODUCER,
                            VisibleOr(a.script), VisibleOr(a.wrapper), token, VisibleOr(a.runId),
                            a.rawPath, a.idsPath, a.nidsPath, a.scopePath, error);
    receipt := Receipt(body, if status == COMPLETE then Some(body) else None);
    SignedIffCertified(a, r, issued);
  }

  /** The checks that turn a claimed complete into incomplete. */
  method Downgraded(a: IssueArgs, r: Reads, ghost issued: set<StatusBody>, statusComplete: bool)
    returns (status: string, error: Option<string>)
    requires statusComplete <==> ProducerStatusComplete(a.producerStatus, Sha(r.raw), r.rawAgain, issued)
    ensures status == ReceiptStatus(a, r, issued) && error == ReceiptError(a, r)
  {
    status, error := a.status, a.error;
    if a.rawPath.Some? && r.raw.None? { error := Some("raw_artifact_unavailable"); }
    if status == COMPLETE {
      if !statusComplete { status := INCOMPLETE; }
      if !BindsScope(a.producerStatus, Sha(r.scope), a.runId, a.returncode) {
        status, error := INCOMPLETE, Some("producer_scope_mismatched_or_unbound");
      }
      if !IsMeasurement(a.returncode) { status := INCOMPLETE; }
      if r.raw.None? || r.ids.None? || r.nids.None? || r.scope.None? { status := INCOMPLETE; }
      if !VisibleText(a.script) || !VisibleText(a.wrapper) { status := INCOMPLETE; }
      if !Visible(a.fingerprint) { status := INCOMPLETE; }
      if !VisibleText(a.runId) { status := INCOMPLETE; }
      if a.producerStatus.Some? && a.producerStatus.value.body.runId.Some?
        && a.producerStatus.value.body.runId != a.runId {
        status := INCOMPLETE;
      }
      if a.trusted.Some? && a.fingerprint != a.trusted.value { status := INCOMPLETE; }
    }
  }

  /** A receipt is signed on the evidence of a run with a usable exit code. */
  ghost predicate Certifies(a: IssueArgs, r: Reads, issued: set<StatusBody>) {
    Evidence(a, r, issued) && a.returncode.Some? && UsableCode(a.returncode.value)
  }

  lemma SignedIffCertified(a: IssueArgs, r: Reads, issued: set<StatusBody>)
    ensures ReceiptFor(a, r, issued).tag.Some? <==> Certifies(a, r, issued)
  {
    EvidenceIsIssuable(a, r, issued);
  }

  /** What a receipt says. A claim of completeness without the evidence becomes a claim of incompleteness, and only a
      complete receipt binds the id files and the scope. */
  lemma ReceiptSays(a: IssueArgs, r: Reads, issued: set<StatusBody>)
    ensures var b := ReceiptFor(a, r, issued).body;
      && b.schema == "landing_measurement_receipt/v1" && b.producer == "run_bounded_pytest"
      && b.compat == "landing-measurement/v1" && b.producerCompat == "landing-measurement/v1"
      && (b.status == if a.status == "complete" && !Certifies(a, r, issued) then "incomplete" else a.status)
      && (b.status == "complete" <==> Certifies(a, r, issued))
      && (b.rawSha.Some? <==> r.raw.Some?) && (r.raw.Some? ==> b.rawSha == Some(Digest(r.raw.value)))
      && (Certifies(a, r, issued) ==> b.idsSha == Some(Digest(r.ids.value)) && b.nidsSha == Some(Digest(r.nids.value))
                                      && b.scopeSha == Some(Digest(r.scope.value)))
      && (!Certifies(a, r, issued) ==> b.idsSha == b.nidsSha == b.scopeSha == None)
      && (b.returncode == if a.returncode.Some? && a.returncode.value >= 0 then a.returncode else None)
  {
    EvidenceIsIssuable(a, r, issued);
  }

  /** Evidence with exit code 0 or 1 is signed; with 2, 3, 4, 127 or a signal it never is. */
  lemma ExitCodesDecide(a: IssueArgs, r: Reads, issued: set<StatusBody>)
    ensures Evidence(a, r, issued) && (a.returncode == Some(0) || a.returncode == Some(1)) ==>
      ReceiptFor(a, r, issued).tag.Some?
    ensures a.returncode.None? || a.returncode.value < 0 || a.returncode.value in [2, 3, 4, 127] ==>
      ReceiptFor(a, r, issued).tag.None?
  {
    SignedIffCertified(a, r, issued);
  }

  // ---------- verifying ----------

  /** One side as the consumer read it: every item possibly at a different moment. */
  datatype Side = Side(rawPath: string, idsPath: Option<string>, scopePath: Option<string>,
                       raw: Bytes, ids: Option<Bytes>, scope: Option<Bytes>, receipt: Option<Receipt>,
                       attempt: Option<Attempt>)

  predicate TrustedProducer(b: ReceiptBody, expected: Option<string>) {
    && b.schema == RECEIPT_SCHEMA && b.status == COMPLETE && IsMeasurement(b.returncode)
    && b.compat == COMPAT && b.producerCompat == COMPAT && b.producer == PRODUCER
    && Visible(b.fingerprint) && VisibleText(b.script) && VisibleText(b.wrapper) && VisibleText(b.runToken)
    && expected.Some? && Strip(b.fingerprint) == Strip(expected.value)
  }

  predicate BindsAttempt(b: ReceiptBody, attempt: Attempt) {
    && VisibleText(b.runId)
    && attempt.schema == ATTEMPT_SCHEMA && VisibleText(attempt.runId)
    && Strip(attempt.runId.value) == Strip(b.runId.value) && attempt.status == COMPLETE
  }

  predicate ManifestMatches(s: Side, b: ReceiptBody) {
    && VisibleText(s.idsPath) && VisibleText(s.scopePath)
    && b.rawPath == Some(s.rawPath) && b.nidsPath == s.idsPath && b.scopePath == s.scopePath
    && VisibleText(b.idsPath)
  }

  predicate HashesMatch(s: Side, b: ReceiptBody) {
    && b.idsSha.Some? && b.nidsSha.Some? && b.scopeSha.Some?
    && b.rawSha == Sha(Some(s.raw)) && Sha(s.ids) == b.nidsSha && Sha(s.scope) == b.scopeSha
  }

  /** `_measurement_label_is_complete`, and with it `receipt_authenticates_raw`. */
  ghost predicate SideComplete(s: Side, expected: Option<string>, issued: set<ReceiptBody>) {
    && s.receipt.Some? && s.attempt.Some?
    && s.receipt.value.tag == Some(s.receipt.value.body) && s.receipt.value.body in issued
    && TrustedProducer(s.receipt.value.body, expected)
    && BindsAttempt(s.receipt.value.body, s.attempt.value)
    && ManifestMatches(s, s.receipt.value.body)
    && HashesMatch(s, s.receipt.value.body)
  }

  /** The receipt is of this schema, complete, with a usable exit code, and its producer is the expected one. */
  ghost predicate Produced(b: ReceiptBody, expected: Option<string>) {
    && b.schema == "landing_measurement_receipt/v1" && b.status == "complete" && b.producer == "run_bounded_pytest"
    && b.compat == "landing-measurement/v1" && b.producerCompat == "landing-measurement/v1"
    && b.returncode.Some? && UsableCode(b.returncode.value)
    && b.script.Some? && Visible(b.script.value) && b.wrapper.Some? && Visible(b.wrapper.value)
    && Visible(b.fingerprint) && b.runToken.Some? && Visible(b.runToken.value)
    && expected.Some? && Strip(b.fingerprint) == Strip(expected.value)
  }

  /** The attempt marker is complete and of the run the receipt names. */
  ghost predicate SameRun(b: ReceiptBody, attempt: Attempt) {
    && attempt.schema == "landing_measurement_attempt/v1" && attempt.status == "complete"
    && b.runId.Some? && Visible(b.runId.value) && attempt.runId.Some? && Visible(attempt.runId.value)
    && Strip(attempt.runId.value) == Strip(b.runId.value)
  }

  /** The files are where the receipt says and hold the bytes it was issued for. */
  ghost predicate SameFiles(s: Side, b: ReceiptBody) {
    && s.idsPath.Some? && Visible(s.idsPath.value) && s.scopePath.Some? && Visible(s.scopePath.value)
    && b.rawPath == Some(s.rawPath) && b.nidsPath == s.idsPath && b.scopePath == s.scopePath
    && b.idsPath.Some? && Visible(b.idsPath.value)
    && b.idsSha.Some? && s.ids.Some? && s.scope.Some?
    && b.rawSha == Some(Digest(s.raw)) && b.nidsSha == Some(Digest(s.ids.value))
    && b.scopeSha == Some(Digest(s.scope.value))
  }

  /** What it takes for a side to be complete. */
  lemma SideCompleteIff(s: Side, expected: Option<string>, issued: set<ReceiptBody>)
    ensures SideComplete(s, expected, issued) <==>
      && s.receipt.Some? && s.attempt.Some?
      && var b := s.receipt.value.body;
      && s.receipt.value.tag == Some(b) && b in issued
      && Produced(b, expected) && SameRun(b, s.attempt.value) && SameFiles(s, b)
  {
  }

  datatype Completeness = NotMeasured | Incomplete(labels: seq<string>) | AllComplete

  ghost predicate SomeProvided(labels: seq<string>, provided: set<string>) {
    exists l :: l in labels && l in provided
  }

  lemma ProvidedOneMore(labels: seq<string>, i: nat, provided: set<string>)
    requires i < |labels|
    ensures forall l :: l in labels[..i + 1] <==> l in labels[..i] || l == labels[i]
    ensures SomeProvided(labels[..i + 1], provided) <==> SomeProvided(labels[..i], provided) || labels[i] in provided
  {
    TakeOneMore(labels, i);
    assert labels[i] in labels[..i + 1];
  }

  /** `measurement_completeness` over the sorted labels; a label without a raw log is incomplete. `verdict` holds what
      the receipt checks, which need the signing key, say of each supplied side. */
  method CheckCompleteness(labels: seq<string>, sides: map<string, Side>, verdict: map<string, bool>,
                           ghost expected: Option<string>, ghost issued: set<ReceiptBody>) returns (c: Completeness)
    requires forall l :: l in sides ==> l in verdict && (verdict[l] <==> SideComplete(sides[l], expected, issued))
    ensures c.NotMeasured? <==> forall l :: l in labels ==> l !in sides
    ensures c.AllComplete? <==>
              labels != [] && forall l :: l in labels ==> l in sides && SideComplete(sides[l], expected, issued)
    ensures c.Incomplete? ==> forall l :: l in c.labels <==>
              l in labels && (l !in sides || !SideComplete(sides[l], expected, issued))
  {
    var provided := false;
    var incomplete: seq<string> := [];
    for i := 0 to |labels|
      invariant provided <==> SomeProvided(labels[..i], sides.Keys)
      invariant forall l :: l in incomplete <==> l in labels[..i] && (l !in sides || !verdict[l])
    {
      ProvidedOneMore(labels, i, sides.Keys);
      if labels[i] in sides { provided := true; }
      if labels[i] !in sides || !verdict[labels[i]] { incomplete := incomplete + [labels[i]]; }
    }
    assert labels[..|labels|] == labels;
    if !provided {
      assert labels != [] ==> labels[0] in labels;
      return NotMeasured;
    }
    ghost var given :| given in labels && given in sides.Keys;
    if incomplete == [] {
      forall l | l in labels ensures l in sides && verdict[l] { assert l !in incomplete; }
      return AllComplete;
    }
    assert incomplete[0] in incomplete;
    c := Incomplete(incomplete);
  }

  // ---------- every run of the protocol ----------

  /** A bounded run that has started: its log, and what it was asked and read. */
  datatype Begun = Begun(raw: string, isPytest: bool, runId: Option<string>, token: string, scope: Option<Bytes>)

  /** Files by path, receipts and markers by the raw log they sit beside, the runs under way, the tags issued so
      far, and for the statements below the history of runs and of what each issue step read. */
  datatype World = World(files: map<string, Bytes>, receipts: map<string, Receipt>, attempts: map<string, Attempt>,
                         begun: map<nat, Begun>, issuedStatus: set<StatusBody>, issuedReceipts: set<ReceiptBody>,
                         runs: set<PytestRun>, issues: set<Reads>)

  /** Runs may overlap, on one log too; what their children print are overwrites of the log. Anyone may rewrite any
      artifact, marker or receipt at any time, with any content; a crash is the absence of later steps. Only Finish
      and Issue add tags. */
  datatype Event =
    | Publish(raw: string, attempt: Attempt)
    | Begin(id: nat, raw: string, isPytest: bool, runId: Option<string>, token: string, scopePath: Option<string>)
    | Finish(id: nat, runtime: Option<string>, scanned: Option<Bytes>, end: RunEnd)
    | Issue(raw: string, args: IssueArgs, rawAgain: Option<Bytes>)
    | Overwrite(path: string, bytes: Option<Bytes>)
    | OverwriteReceipt(raw: string, receipt: Receipt)

  function At(files: map<string, Bytes>, path: Option<string>): Option<Bytes> {
    if path.Some? && path.value in files then Some(files[path.value]) else None
  }

  function ReadsOf(w: World, a: IssueArgs, rawAgain: Option<Bytes>): Reads {
    Reads(At(w.files, a.rawPath), At(w.files, a.idsPath), At(w.files, a.nidsPath), At(w.files, a.scopePath), rawAgain)
  }

  /** The run that finishes: its log is hashed as the file then is. */
  function FinishedRun(w: World, e: Event): PytestRun
    requires e.Finish? && e.id in w.begun
  {
    var b := w.begun[e.id];
    PytestRun(b.isPytest, b.runId, b.token, b.scope, e.runtime, e.scanned, At(w.files, Some(b.raw)), e.end)
  }

  /** Begin reads the scope and truncates the log. */
  ghost predicate Step(w: World, e: Event, w': World) {
    match e
    case Publish(raw, attempt) => w' == w.(attempts := w.attempts[raw := attempt])
    case Begin(id, raw, isPytest, runId, token, scopePath) =>
      && id !in w.begun
      && w' == w.(begun := w.begun[id := Begun(raw, isPytest, runId, token, At(w.files, scopePath))],
                  files := w.files[raw := ""])
    case Finish(id, _, _, _) =>
      && id in w.begun
      && var run := FinishedRun(w, e);
         w' == w.(begun := w.begun - {id}, runs := w.runs + {run},
                  issuedStatus := w.issuedStatus + if StatusOf(run).tag.Some? then {StatusOf(run).body} else {})
    case Issue(raw, args, rawAgain) =>
      var seen := ReadsOf(w, args, rawAgain);
      var receipt := ReceiptFor(args, seen, w.issuedStatus);
      w' == w.(receipts := w.receipts[raw := receipt], issues := w.issues + {seen},
               issuedReceipts := w.issuedReceipts + if receipt.tag.Some? then {receipt.body} else {})
    case Overwrite(path, bytes) =>
      w' == w.(files := if bytes.Some? then w.files[path := bytes.value] else w.files - {path})
    case OverwriteReceipt(raw, receipt) => w' == w.(receipts := w.receipts[raw := receipt])
  }

  ghost predicate IsRun(ws: seq<World>, es: seq<Event>) {
    |ws| == |es| + 1 && forall i :: 0 <= i < |es| ==> Step(ws[i], es[i], ws[i + 1])
  }

  /** The receipt records this good run and the bytes read when it was issued. */
  ghost predicate BackedBy(b: ReceiptBody, run: PytestRun, seen: Reads) {
    && GoodRun(run) && b.runId == run.runId && b.returncode == Some(run.end.code) && b.runToken == Some(run.token)
    && run.raw.Some? && b.rawSha == Sha(run.raw) && run.scope.Some? && b.scopeSha == Sha(run.scope)
    && seen.nids.Some? && b.nidsSha == Sha(seen.nids) && seen.raw == run.raw && seen.scope == run.scope
  }

  ghost predicate Backed(w: World, b: ReceiptBody) {
    exists run, seen :: run in w.runs && seen in w.issues && BackedBy(b, run, seen)
  }

  ghost predicate FromRun(w: World, s: StatusBody) {
    exists run :: run in w.runs && StatusOf(run).tag.Some? && StatusOf(run).body == s
  }

  ghost predicate Inv(w: World) {
    && (forall s :: s in w.issuedStatus ==> FromRun(w, s))
    && (forall b :: b in w.issuedReceipts ==> Backed(w, b))
  }

  lemma StepKeepsInv(w: World, e: Event, w': World)
    requires Inv(w) && Step(w, e, w')
    ensures Inv(w')
  {
    StatusesFromRuns(w, e, w');
    ReceiptsBacked(w, e, w');
  }

  lemma StatusesFromRuns(w: World, e: Event, w': World)
    requires Inv(w) && Step(w, e, w')
    ensures forall s :: s in w'.issuedStatus ==> FromRun(w', s)
  {
    forall s | s in w'.issuedStatus ensures FromRun(w', s) {
      if s in w.issuedStatus {
        assert FromRun(w, s);
        var run :| run in w.runs && StatusOf(run).tag.Some? && StatusOf(run).body == s;
        assert run in w'.runs;
      } else {
        assert FinishedRun(w, e) in w'.runs;
      }
    }
  }

  lemma ReceiptsBacked(w: World, e: Event, w': World)
    requires Inv(w) && Step(w, e, w')
    ensures forall b :: b in w'.issuedReceipts ==> Backed(w', b)
  {
    forall b | b in w'.issuedReceipts ensures Backed(w', b) {
      if b in w.issuedReceipts {
        assert Backed(w, b);
        var run, seen :| run in w.runs && seen in w.issues && BackedBy(b, run, seen);
        assert run in w'.runs && seen in w'.issues;
      } else {
        var seen := ReadsOf(w, e.args, e.rawAgain);
        var run := NewReceiptBacked(w, e.args, seen, b);
        assert run in w'.runs && seen in w'.issues;
      }
    }
  }

  lemma NewReceiptBacked(w: World, a: IssueArgs, seen: Reads, b: ReceiptBody) returns (run: PytestRun)
    requires Inv(w) && ReceiptFor(a, seen, w.issuedStatus) == Receipt(b, Some(b))
    ensures run in w.runs && BackedBy(b, run, seen)
  {
    assert Issuable(a, seen, w.issuedStatus);
    var s := a.producerStatus.value.body;
    assert FromRun(w, s);
    run :| run in w.runs && StatusOf(run).tag.Some? && StatusOf(run).body == s;
  }

  lemma {:induction false} RunKeepsInv(ws: seq<World>, es: seq<Event>, i: nat)
    requires IsRun(ws, es) && Inv(ws[0]) && i < |ws|
    ensures Inv(ws[i])
  {
    if i > 0 {
      RunKeepsInv(ws, es, i - 1);
      StepKeepsInv(ws[i - 1], es[i - 1], ws[i - 1 + 1]);
    }
  }

  /** Over every run, a signed status that says attested, returned and a usable exit code comes from a run that
      came back with tests executed, and its digest is of the log that run left. */
  lemma SignedStatusMeansTestsRan(ws: seq<World>, es: seq<Event>, i: nat, s: Status)
    requires IsRun(ws, es) && i < |ws| && ws[0].issuedStatus == {} && ws[0].issuedReceipts == {}
    requires StatusVerifies(s, ws[i].issuedStatus)
    requires s.body.attested && s.body.outcome == Returned && IsMeasurement(s.body.returncode)
    ensures exists run :: run in ws[i].runs && GoodRun(run) && s.body.runToken == run.token && s.body.runId == run.runId
              && s.body.returncode == Some(run.end.code) && s.body.rawSha == Sha(run.raw)
                && s.body.scopeSha == Sha(run.scope)
  {
    RunKeepsInv(ws, es, i);
    assert FromRun(ws[i], s.body);
    var run :| run in ws[i].runs && StatusOf(run).tag.Some? && StatusOf(run).body == s.body;
    assert GoodRun(run);
  }

  /** The run returned with tests executed, carries the run id of the side's complete marker, and left exactly the
      side's bytes under exactly its scope; the side's ids are those read with the same log for a receipt. */
  ghost predicate Explains(run: PytestRun, seen: Reads, s: Side) {
    && GoodRun(run) && run.runId.Some?
    && s.attempt.Some? && s.attempt.value.status == COMPLETE && s.attempt.value.runId.Some?
    && Strip(run.runId.value) == Strip(s.attempt.value.runId.value)
    && run.raw == Some(s.raw) && s.scope == run.scope && run.scope.Some?
    && s.ids == seen.nids && seen.nids.Some? && seen.raw == Some(s.raw)
  }

  ghost predicate SideBacked(w: World, s: Side) {
    exists run, seen :: run in w.runs && seen in w.issues && Explains(run, seen, s)
  }

  /** Safety over every run: whatever mixture of files the consumer reads, a side it reports complete is backed by a
      pytest run that came back with tests executed, carries the marker's run id, and left exactly these raw bytes under
      exactly these scope bytes; the canonical ids are the bytes present when the receipt was issued. */
  lemma CompleteIsBacked(ws: seq<World>, es: seq<Event>, i: nat, s: Side, expected: Option<string>)
    requires IsRun(ws, es) && i < |ws| && ws[0].issuedStatus == {} && ws[0].issuedReceipts == {}
    requires SideComplete(s, expected, ws[i].issuedReceipts)
    ensures SideBacked(ws[i], s)
  {
    RunKeepsInv(ws, es, i);
    var b := s.receipt.value.body;
    assert Backed(ws[i], b);
    var run, seen :| run in ws[i].runs && seen in ws[i].issues && BackedBy(b, run, seen);
    assert Explains(run, seen, s);
  }

  // ---------- a complete side stays complete ----------

  /** The receipt just issued and the marker beside it answer for this side: paths agree, the marker is complete and of
      the same run, and the producer is the trusted one. */
  ghost predicate Matching(a: IssueArgs, s: Side, expected: Option<string>) {
    && VisibleText(a.idsPath) && VisibleText(s.idsPath) && VisibleText(s.scopePath)
    && a.rawPath == Some(s.rawPath) && a.nidsPath == s.idsPath && a.scopePath == s.scopePath
    && s.attempt.Some? && s.attempt.value.schema == ATTEMPT_SCHEMA && s.attempt.value.status == COMPLETE
    && VisibleText(s.attempt.value.runId) && VisibleText(a.runId)
    && Strip(s.attempt.value.runId.value) == Strip(a.runId.value)
    && expected.Some? && Strip(a.fingerprint) == Strip(expected.value)
  }

  /** Of a receipt issued complete: it verifies exactly as long as paths, marker and producer match and the three
      artifacts hold the bytes hashed at issue. */
  lemma IssuedVerifiesIff(a: IssueArgs, seen: Reads, issuedStatus: set<StatusBody>, s: Side, expected: Option<string>,
                          issued: set<ReceiptBody>)
    requires Issuable(a, seen, issuedStatus)
    requires s.receipt == Some(ReceiptFor(a, seen, issuedStatus)) && s.receipt.value.body in issued
    ensures SideComplete(s, expected, issued) <==>
              Matching(a, s, expected) && seen.raw == Some(s.raw) && seen.nids == s.ids && seen.scope == s.scope
  {
  }

  /** The paths of one side: its log, its canonical ids and its scope. */
  datatype Paths = Paths(raw: string, ids: string, scope: string)

  /** The side as read from the world at one moment; none without a raw log. */
  function SideOf(w: World, p: Paths): Option<Side> {
    if p.raw !in w.files then None
    else
      Some(Side(p.raw, Some(p.ids), Some(p.scope), w.files[p.raw], At(w.files, Some(p.ids)), At(w.files, Some(p.scope)),
                if p.raw in w.receipts then Some(w.receipts[p.raw]) else None,
                if p.raw in w.attempts then Some(w.attempts[p.raw]) else None))
  }

  /** The step writes none of the side's artifacts, nor its receipt, nor its marker. */
  predicate LeavesAlone(e: Event, p: Paths) {
    match e
    case Publish(raw, _) => raw != p.raw
    case Begin(_, raw, _, _, _, _) => raw != p.raw && raw != p.ids && raw != p.scope
    case Finish(_, _, _, _) => true
    case Issue(raw, _, _) => raw != p.raw
    case Overwrite(path, _) => path != p.raw && path != p.ids && path != p.scope
    case OverwriteReceipt(raw, _) => raw != p.raw
  }

  ghost predicate Stands(w: World, w': World, p: Paths) {
    SideOf(w', p) == SideOf(w, p) && w.issuedReceipts <= w'.issuedReceipts
  }

  lemma SideStands(w: World, e: Event, w': World, p: Paths)
    requires Step(w, e, w') && LeavesAlone(e, p)
    ensures Stands(w, w', p)
  {
  }

  lemma StandsOn(w: World, w': World, w'': World, p: Paths)
    requires Stands(w, w', p) && Stands(w', w'', p)
    ensures Stands(w, w'', p)
  {
  }

  lemma {:induction false} SideStandsOverRun(ws: seq<World>, es: seq<Event>, i: nat, j: nat, p: Paths)
    requires IsRun(ws, es) && i <= j < |ws| && forall k :: i <= k < j ==> LeavesAlone(es[k], p)
    ensures Stands(ws[i], ws[j], p)
    decreases j
  {
    if i < j {
      SideStandsOverRun(ws, es, i, j - 1, p);
      var w, e, w' := ws[j - 1], es[j - 1], ws[j - 1 + 1];
      assert Step(w, e, w') && LeavesAlone(e, p);
      SideStands(w, e, w', p);
      StandsOn(ws[i], w, w', p);
    }
  }

  /** Liveness over runs: after an issue step that grants completion for a side, and while every later step leaves that
      side alone, the side read from the world is complete exactly if paths, marker and producer match. */
  lemma IssuedStaysComplete(ws: seq<World>, es: seq<Event>, i: nat, j: nat, p: Paths, expected: Option<string>)
    requires IsRun(ws, es) && i < j < |ws| && es[i].Issue? && es[i].raw == p.raw
    requires var a := es[i].args;
             && a.rawPath == Some(p.raw) && a.nidsPath == Some(p.ids) && a.scopePath == Some(p.scope)
             && Issuable(a, ReadsOf(ws[i], a, es[i].rawAgain), ws[i].issuedStatus)
    requires forall k :: i < k < j ==> LeavesAlone(es[k], p)
    ensures SideOf(ws[j], p).Some?
    ensures SideComplete(SideOf(ws[j], p).value, expected, ws[j].issuedReceipts) <==>
              Matching(es[i].args, SideOf(ws[i], p).value, expected)
  {
    var a, w := es[i].args, ws[i];
    var seen := ReadsOf(w, a, es[i].rawAgain);
    assert Step(w, es[i], ws[i + 1]);
    SideStandsOverRun(ws, es, i + 1, j, p);
    IssuedVerifiesIff(a, seen, w.issuedStatus, SideOf(ws[j], p).value, expected, ws[j].issuedReceipts);
  }
}
