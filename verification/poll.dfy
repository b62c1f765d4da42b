/** The STATUS poll that follows FINALIZE: `checkMediaStatus` of
    src/finaltest.ts and src/authtest.ts, and `check_media_status` of
    src/workatofinal.py. Each STATUS query gets the next reply of a scripted
    sequence; when the script is used up while the code would still query,
    the run ends `StillPolling`. */
module StatusPoll {
  import opened Wrappers
  import opened Params
  import opened OAuth1
  import opened MediaUpload

  /** The `processing_info` object of a STATUS body; its `state` and its
      `check_after_secs` may each be absent. */
  datatype ProcessingInfo = ProcessingInfo(state: Option<string>, checkAfterSecs: Option<int>)

  /** A STATUS reply: the status code and the body's `processing_info`, if
      the body has one. */
  datatype StatusReply = StatusReply(status: int, info: Option<ProcessingInfo>)

  /** How a poll ends: it returns, it throws because of the status code,
      because processing failed or because `time.sleep` refused a negative
      delay, or it is still querying when the script runs out. */
  datatype PollEnd = Done | StatusRejected(status: int) | ProcessingFailed | SleepRejected(secs: int) | StillPolling

  /** What a poll did: the number of STATUS queries sent, the delays waited
      between them, in the unit the code hands to its timer (milliseconds
      for `setTimeout`, seconds for `time.sleep`), and how it ended. */
  datatype PollRun = PollRun(sent: nat, waits: seq<int>, end: PollEnd)

  function StatusParams(mediaId: string): Dict
  {
    [("command", "STATUS"), ("media_id", mediaId)]
  }

  /** The one STATUS request both codes build before their loop and send for
      every query: a GET over the STATUS parameters, signed once, with one
      nonce and timestamp. */
  function StatusRequest(mediaId: string, st: Stamp): (r: Request)
    ensures r.verb == "GET" && r.params == StatusParams(mediaId) && r.file == [] && r.stamp == st
  {
    Request("GET", StatusParams(mediaId), [], st)
  }

  /** The STATUS parameters name each parameter once, so `Authorization`
      can sign the request. */
  lemma StatusRequestSignable(mediaId: string, st: Stamp)
    ensures DistinctKeys(StatusRequest(mediaId, st).params)
  {
  }

  // ------------------------------------------------------ the common loop

  /** The loop every poll runs: query, read the reply, and either stop there,
      ending as `stopEnd` says, or wait `wait(reply)` and query again. */
  function Scan(stops: StatusReply -> bool, stopEnd: StatusReply -> PollEnd, wait: StatusReply -> seq<int>,
                replies: seq<StatusReply>, n: nat): (r: PollRun)
    requires n <= |replies|
    decreases |replies| - n
  {
    if n == |replies| then PollRun(n, [], StillPolling)
    else if stops(replies[n]) then PollRun(n + 1, [], stopEnd(replies[n]))
    else
      var rest := Scan(stops, stopEnd, wait, replies, n + 1);
      PollRun(rest.sent, wait(replies[n]) + rest.waits, rest.end)
  }

  /** The waits of a sequence of replies the loop went on after, in order. */
  function Waits(wait: StatusReply -> seq<int>, rs: seq<StatusReply>): seq<int>
  {
    if rs == [] then [] else wait(rs[0]) + Waits(wait, rs[1..])
  }

  /** A scan from query `n` either went on after every remaining reply,
      waiting after each, and is still polling; or it stopped at the first
      reply that `stops` picks, ending as `stopEnd` says for that reply,
      having waited after each reply before it. */
  lemma {:induction false} ScanOutcome(stops: StatusReply -> bool, stopEnd: StatusReply -> PollEnd,
                                       wait: StatusReply -> seq<int>, replies: seq<StatusReply>, n: nat)
    requires n <= |replies|
    ensures var r := Scan(stops, stopEnd, wait, replies, n);
      (r.sent == |replies| && r.end == StillPolling &&
       (forall j | n <= j < |replies| :: !stops(replies[j])) &&
       r.waits == Waits(wait, replies[n..]))
      ||
      (n < r.sent <= |replies| && stops(replies[r.sent - 1]) && r.end == stopEnd(replies[r.sent - 1]) &&
       (forall j | n <= j < r.sent - 1 :: !stops(replies[j])) &&
       r.waits == Waits(wait, replies[n..r.sent - 1]))
    decreases |replies| - n
  {
    if n < |replies| && !stops(replies[n]) {
      ScanOutcome(stops, stopEnd, wait, replies, n + 1);
      var rest := Scan(stops, stopEnd, wait, replies, n + 1);
      assert replies[n..][1..] == replies[n + 1..];
      if rest.end != StillPolling || rest.sent != |replies| {
        assert replies[n..rest.sent - 1][1..] == replies[n + 1..rest.sent - 1];
      }
    } else if n < |replies| {
      assert replies[n..n] == [];
    }
  }

  // ------------------------------------------------------ TypeScript poll

  /** `(check_after_secs || 5) * 1000`: a missing or zero delay is taken as
      five seconds. */
  function JsDelay(checkAfterSecs: Option<int>): int
  {
    match checkAfterSecs
    case Some(secs) => (if secs != 0 then secs else 5) * 1000
    case None => 5000
  }

  /** `mediaStatus && mediaStatus.state === 'in_progress'`: the test for a
      wait. */
  predicate InProgress(mediaStatus: Option<ProcessingInfo>)
  {
    mediaStatus.Some? && mediaStatus.value.state == Some("in_progress")
  }

  /** `mediaStatus && mediaStatus.state !== 'succeeded'`: the loop condition. */
  predicate PollsAgain(mediaStatus: Option<ProcessingInfo>)
  {
    mediaStatus.Some? && mediaStatus.value.state != Some("succeeded")
  }

  /** The `do … while` loop of `checkMediaStatus` from query `n` on: a
      non-2xx reply makes axios throw; a reply whose state is `in_progress`
      is followed by a wait; the loop goes on while `processing_info` is
      present and its state is not `succeeded`. */
  function JsPoll(replies: seq<StatusReply>, n: nat): (r: PollRun)
    requires n <= |replies|
    decreases |replies| - n
  {
    if n == |replies| then PollRun(n, [], StillPolling)
    else
      var reply := replies[n];
      if !Passes(AnySuccess, Status, reply.status) then PollRun(n + 1, [], StatusRejected(reply.status))
      else
        var wait := if InProgress(reply.info) then [JsDelay(reply.info.value.checkAfterSecs)] else [];
        if !PollsAgain(reply.info) then PollRun(n + 1, wait, Done)
        else
          var rest := JsPoll(replies, n + 1);
          PollRun(rest.sent, wait + rest.waits, rest.end)
  }

  /** The replies after which the TypeScript loop stops. */
  predicate JsStops(reply: StatusReply)
  {
    !Passes(AnySuccess, Status, reply.status) || !PollsAgain(reply.info)
  }

  function JsStopEnd(reply: StatusReply): PollEnd
  {
    if Passes(AnySuccess, Status, reply.status) then Done else StatusRejected(reply.status)
  }

  function JsWait(reply: StatusReply): seq<int>
  {
    if InProgress(reply.info) then [JsDelay(reply.info.value.checkAfterSecs)] else []
  }

  lemma {:induction false} JsPollIsScan(replies: seq<StatusReply>, n: nat)
    requires n <= |replies|
    ensures JsPoll(replies, n) == Scan(JsStops, JsStopEnd, JsWait, replies, n)
    decreases |replies| - n
  {
    if n < |replies| && !JsStops(replies[n]) {
      JsPollIsScan(replies, n + 1);
    }
  }

  /** The TypeScript poll stops only at a non-2xx reply, which throws, or at
      a reply without `processing_info` or with state `succeeded`, which
      returns; every reply before that one went on, and the loop waited
      exactly after those whose state was `in_progress`. It never reports a
      failed processing. */
  lemma JsPollOutcome(replies: seq<StatusReply>)
    ensures var r := JsPoll(replies, 0);
      r.sent <= |replies| &&
      (r.end == StillPolling <==> forall j | 0 <= j < |replies| :: !JsStops(replies[j])) &&
      (r.end == StillPolling ==> r.sent == |replies| && r.waits == Waits(JsWait, replies)) &&
      (r.end != StillPolling ==>
        0 < r.sent && JsStops(replies[r.sent - 1]) &&
        (forall j | 0 <= j < r.sent - 1 :: !JsStops(replies[j])) &&
        r.waits == Waits(JsWait, replies[..r.sent - 1])) &&
      (r.end == Done <==> r.end != StillPolling && Passes(AnySuccess, Status, replies[r.sent - 1].status)) &&
      (r.end.StatusRejected? ==> r.end.status == replies[r.sent - 1].status) &&
      r.end != ProcessingFailed && !r.end.SleepRejected?
  {
    JsPollIsScan(replies, 0);
    ScanOutcome(JsStops, JsStopEnd, JsWait, replies, 0);
    assert replies[0..] == replies;
  }

  /** `checkMediaStatus` (TypeScript): the header is signed once, before the
      loop, and every query sends the same request. */
  method CheckMediaStatusJs(mediaId: string, st: Stamp, replies: seq<StatusReply>)
    returns (request: Request, run: PollRun)
    ensures request == StatusRequest(mediaId, st)
    ensures run == JsPoll(replies, 0)
  {
    request := StatusRequest(mediaId, st);
    var sent := 0;
    var waits: seq<int> := [];
    while true
      invariant sent <= |replies|
      invariant JsPoll(replies, 0).sent == JsPoll(replies, sent).sent
      invariant JsPoll(replies, 0).waits == waits + JsPoll(replies, sent).waits
      invariant JsPoll(replies, 0).end == JsPoll(replies, sent).end
      decreases |replies| - sent
    {
      if sent == |replies| {
        return request, PollRun(sent, waits, StillPolling);
      }
      var response := replies[sent];
      sent := sent + 1;
      if !Passes(AnySuccess, Status, response.status) {
        return request, PollRun(sent, waits, StatusRejected(response.status));
      }
      var mediaStatus := response.info;
      var wait: seq<int> := [];
      if InProgress(mediaStatus) {
        wait := [JsDelay(mediaStatus.value.checkAfterSecs)];
      }
      assert waits + (wait + JsPoll(replies, sent).waits) == (waits + wait) + JsPoll(replies, sent).waits;
      waits := waits + wait;
      if !PollsAgain(mediaStatus) {
        return request, PollRun(sent, waits, Done);
      }
    }
  }

  // ---------------------------------------------------------- Python poll

  /** `media_status.get('processing_info', {})`: a body without the object
      reads as one with neither field. */
  function PyInfo(reply: StatusReply): ProcessingInfo
  {
    match reply.info
    case Some(info) => info
    case None => ProcessingInfo(None, None)
  }

  /** `processing_info.get('check_after_secs', 5)`: only a missing delay is
      replaced; zero stays zero. */
  function PyDelay(checkAfterSecs: Option<int>): int
  {
    match checkAfterSecs
    case Some(secs) => secs
    case None => 5
  }

  /** The `while True` loop of `check_media_status` from query `n` on: a
      status other than 200 raises; state `succeeded` returns; state
      `failed` raises; any other state, a missing one included, sleeps and
      queries again, except that `time.sleep` raises `ValueError` on a
      negative delay. */
  function PyPoll(replies: seq<StatusReply>, n: nat): (r: PollRun)
    requires n <= |replies|
    decreases |replies| - n
  {
    if n == |replies| then PollRun(n, [], StillPolling)
    else
      var reply := replies[n];
      if !Passes(ExactCodes, Status, reply.status) then PollRun(n + 1, [], StatusRejected(reply.status))
      else
        var info := PyInfo(reply);
        if info.state == Some("succeeded") then PollRun(n + 1, [], Done)
        else if info.state == Some("failed") then PollRun(n + 1, [], ProcessingFailed)
        else if PyDelay(info.checkAfterSecs) < 0 then PollRun(n + 1, [], SleepRejected(PyDelay(info.checkAfterSecs)))
        else
          var rest := PyPoll(replies, n + 1);
          PollRun(rest.sent, [PyDelay(info.checkAfterSecs)] + rest.waits, rest.end)
  }

  /** The replies after which the Python loop stops. */
  predicate PyStops(reply: StatusReply)
  {
    !Passes(ExactCodes, Status, reply.status) || PyInfo(reply).state == Some("succeeded") || PyInfo(reply).state == Some("failed") ||
    PyDelay(PyInfo(reply).checkAfterSecs) < 0
  }

  function PyStopEnd(reply: StatusReply): PollEnd
  {
    if !Passes(ExactCodes, Status, reply.status) then StatusRejected(reply.status)
    else if PyInfo(reply).state == Some("succeeded") then Done
    else if PyInfo(reply).state == Some("failed") then ProcessingFailed
    else SleepRejected(PyDelay(PyInfo(reply).checkAfterSecs))
  }

  function PyWait(reply: StatusReply): seq<int>
  {
    [PyDelay(PyInfo(reply).checkAfterSecs)]
  }

  lemma {:induction false} PyPollIsScan(replies: seq<StatusReply>, n: nat)
    requires n <= |replies|
    ensures PyPoll(replies, n) == Scan(PyStops, PyStopEnd, PyWait, replies, n)
    decreases |replies| - n
  {
    if n < |replies| && !PyStops(replies[n]) {
      PyPollIsScan(replies, n + 1);
    }
  }

  /** The Python poll stops only at a reply whose status is not 200, which
      raises, or whose state is `succeeded`, which returns, or `failed`,
      which raises, or whose delay is negative, which `time.sleep` refuses;
      it sleeps once after every reply before that one, never for a
      negative time. */
  lemma PyPollOutcome(replies: seq<StatusReply>)
    ensures var r := PyPoll(replies, 0);
      r.sent <= |replies| &&
      (r.end == StillPolling <==> forall j | 0 <= j < |replies| :: !PyStops(replies[j])) &&
      (r.end == StillPolling ==> r.sent == |replies| && |r.waits| == |replies|) &&
      (r.end != StillPolling ==>
        0 < r.sent && PyStops(replies[r.sent - 1]) &&
        (forall j | 0 <= j < r.sent - 1 :: !PyStops(replies[j])) &&
        r.waits == Waits(PyWait, replies[..r.sent - 1]) && |r.waits| == r.sent - 1) &&
      (r.end == Done <==> r.end != StillPolling && replies[r.sent - 1].status == 200 &&
                          PyInfo(replies[r.sent - 1]).state == Some("succeeded")) &&
      (r.end == ProcessingFailed <==> r.end != StillPolling && replies[r.sent - 1].status == 200 &&
                                      PyInfo(replies[r.sent - 1]).state == Some("failed")) &&
      (r.end.StatusRejected? <==> r.end != StillPolling && replies[r.sent - 1].status != 200) &&
      (r.end.SleepRejected? <==> r.end != StillPolling && replies[r.sent - 1].status == 200 &&
                                 PyInfo(replies[r.sent - 1]).state != Some("succeeded") &&
                                 PyInfo(replies[r.sent - 1]).state != Some("failed")) &&
      (r.end.SleepRejected? ==> r.end.secs < 0 && r.end.secs == PyDelay(PyInfo(replies[r.sent - 1]).checkAfterSecs)) &&
      (forall i | 0 <= i < |r.waits| :: r.waits[i] >= 0)
  {
    PyPollIsScan(replies, 0);
    ScanOutcome(PyStops, PyStopEnd, PyWait, replies, 0);
    assert replies[0..] == replies;
    var r := PyPoll(replies, 0);
    if r.end == StillPolling {
      PyWaitsLength(replies);
    } else {
      PyWaitsLength(replies[..r.sent - 1]);
    }
  }

  /** The Python loop sleeps exactly once per reply it goes on after, and
      never for a negative time. */
  lemma {:induction false} PyWaitsLength(rs: seq<StatusReply>)
    ensures |Waits(PyWait, rs)| == |rs|
    ensures (forall j | 0 <= j < |rs| :: !PyStops(rs[j])) ==> forall i | 0 <= i < |rs| :: Waits(PyWait, rs)[i] >= 0
  {
    if rs != [] {
      PyWaitsLength(rs[1..]);
      assert Waits(PyWait, rs) == PyWait(rs[0]) + Waits(PyWait, rs[1..]);
      if forall j | 0 <= j < |rs| :: !PyStops(rs[j]) {
        assert forall j | 0 <= j < |rs[1..]| :: !PyStops(rs[1..][j]) by {
          forall j | 0 <= j < |rs[1..]| ensures !PyStops(rs[1..][j]) {
            assert rs[1..][j] == rs[j + 1];
          }
        }
        assert !PyStops(rs[0]);
      }
    }
  }

  /** `check_media_status`: the header is signed once, before the loop, and
      every query sends the same request; on `succeeded` the body is
      returned. */
  method CheckMediaStatusPy(mediaId: string, st: Stamp, replies: seq<StatusReply>)
    returns (request: Request, run: PollRun, body: Option<StatusReply>)
    ensures request == StatusRequest(mediaId, st)
    ensures run == PyPoll(replies, 0)
    ensures body.Some? <==> run.end == Done
    ensures body.Some? ==> 0 < run.sent <= |replies| && body.value == replies[run.sent - 1]
  {
    request := StatusRequest(mediaId, st);
    var sent := 0;
    var waits: seq<int> := [];
    while true
      invariant sent <= |replies|
      invariant PyPoll(replies, 0).sent == PyPoll(replies, sent).sent
      invariant PyPoll(replies, 0).waits == waits + PyPoll(replies, sent).waits
      invariant PyPoll(replies, 0).end == PyPoll(replies, sent).end
      decreases |replies| - sent
    {
      if sent == |replies| {
        return request, PollRun(sent, waits, StillPolling), None;
      }
      var response := replies[sent];
      sent := sent + 1;
      if !Passes(ExactCodes, Status, response.status) {
        return request, PollRun(sent, waits, StatusRejected(response.status)), None;
      }
      var info := PyInfo(response);
      var state := info.state;
      if state == Some("succeeded") {
        return request, PollRun(sent, waits, Done), Some(response);
      } else if state == Some("failed") {
        return request, PollRun(sent, waits, ProcessingFailed), None;
      }
      var secs := PyDelay(info.checkAfterSecs);
      if secs < 0 {
        return request, PollRun(sent, waits, SleepRejected(secs)), None;
      }
      var wait := [secs];
      assert waits + (wait + PyPoll(replies, sent).waits) == (waits + wait) + PyPoll(replies, sent).waits;
      waits := waits + wait;
    }
  }

  // ------------------------------------------------------------ examples

  function InProgressReply(checkAfterSecs: int): StatusReply
  {
    StatusReply(200, Some(ProcessingInfo(Some("in_progress"), Some(checkAfterSecs))))
  }

  function SucceededReply(): StatusReply
  {
    StatusReply(200, Some(ProcessingInfo(Some("succeeded"), None)))
  }

  function FailedReply(): StatusReply
  {
    StatusReply(200, Some(ProcessingInfo(Some("failed"), None)))
  }

  /** Two `in_progress` replies with `check_after_secs` 0, then `succeeded`:
      both codes send three queries and return. The TypeScript code waits
      five seconds twice, since `0 || 5` is 5; the Python code sleeps 0
      seconds twice. */
  lemma TwoInProgressThenSucceeded()
    ensures JsPoll([InProgressReply(0), InProgressReply(0), SucceededReply()], 0) == PollRun(3, [5000, 5000], Done)
    ensures PyPoll([InProgressReply(0), InProgressReply(0), SucceededReply()], 0) == PollRun(3, [0, 0], Done)
  {
    var rs := [InProgressReply(0), InProgressReply(0), SucceededReply()];
    assert JsPoll(rs, 2) == PollRun(3, [], Done);
    assert PyPoll(rs, 2) == PollRun(3, [], Done);
  }

  /** A 200 reply without `processing_info` ends the TypeScript poll, while
      the Python code reads it as an unknown state, sleeps five seconds and
      queries again. */
  lemma MissingInfoDiverges(replies: seq<StatusReply>)
    requires |replies| > 1 && replies[0] == StatusReply(200, None)
    ensures JsPoll(replies, 0) == PollRun(1, [], Done)
    ensures PyPoll(replies, 0).sent > 1
    ensures PyPoll(replies, 0).waits == [5] + PyPoll(replies, 1).waits
  {
    PyPollIsScan(replies, 1);
    ScanOutcome(PyStops, PyStopEnd, PyWait, replies, 1);
  }

  // ---------------------------------------------- processing that failed

  /** Whatever the length of the script, a run of 2xx replies reporting
      state `failed` keeps the TypeScript loop querying, with no wait in
      between, until the script runs out: the loop never ends on its own. */
  lemma {:induction false} JsPollSpinsOnFailed(replies: seq<StatusReply>, n: nat)
    requires n <= |replies|
    requires forall j | n <= j < |replies| :: replies[j] == FailedReply()
    ensures JsPoll(replies, n) == PollRun(|replies|, [], StillPolling)
    decreases |replies| - n
  {
    if n < |replies| {
      JsPollSpinsOnFailed(replies, n + 1);
    }
  }

  /** The TypeScript poll with the evident intent, which the Python code
      has: state `failed` ends the loop with an error. */
  function JsPollFixed(replies: seq<StatusReply>, n: nat): (r: PollRun)
    requires n <= |replies|
    decreases |replies| - n
  {
    if n == |replies| then PollRun(n, [], StillPolling)
    else
      var reply := replies[n];
      if !Passes(AnySuccess, Status, reply.status) then PollRun(n + 1, [], StatusRejected(reply.status))
      else if ReportsFailed(reply) then PollRun(n + 1, [], ProcessingFailed)
      else
        var wait := if InProgress(reply.info) then [JsDelay(reply.info.value.checkAfterSecs)] else [];
        if !PollsAgain(reply.info) then PollRun(n + 1, wait, Done)
        else
          var rest := JsPollFixed(replies, n + 1);
          PollRun(rest.sent, wait + rest.waits, rest.end)
  }

  predicate ReportsFailed(reply: StatusReply)
  {
    reply.info.Some? && reply.info.value.state == Some("failed")
  }

  predicate JsFixedStops(reply: StatusReply)
  {
    JsStops(reply) || ReportsFailed(reply)
  }

  function JsFixedStopEnd(reply: StatusReply): PollEnd
  {
    if !Passes(AnySuccess, Status, reply.status) then StatusRejected(reply.status)
    else if ReportsFailed(reply) then ProcessingFailed
    else Done
  }

  lemma {:induction false} JsPollFixedIsScan(replies: seq<StatusReply>, n: nat)
    requires n <= |replies|
    ensures JsPollFixed(replies, n) == Scan(JsFixedStops, JsFixedStopEnd, JsWait, replies, n)
    decreases |replies| - n
  {
    if n < |replies| && !JsFixedStops(replies[n]) {
      JsPollFixedIsScan(replies, n + 1);
    }
  }

  /** The corrected poll stops at the first 2xx reply reporting `failed`,
      with `ProcessingFailed`, and never queries past one; a script of
      `failed` replies ends after one query. */
  lemma JsPollFixedOutcome(replies: seq<StatusReply>)
    ensures var r := JsPollFixed(replies, 0);
      r.sent <= |replies| &&
      (r.end == StillPolling <==> forall j | 0 <= j < |replies| :: !JsFixedStops(replies[j])) &&
      (forall j | 0 <= j < r.sent - 1 :: !ReportsFailed(replies[j]) && !JsStops(replies[j])) &&
      (r.end != StillPolling ==> 0 < r.sent && JsFixedStops(replies[r.sent - 1])) &&
      (r.end == ProcessingFailed <==>
        r.end != StillPolling && Passes(AnySuccess, Status, replies[r.sent - 1].status) && ReportsFailed(replies[r.sent - 1])) &&
      (|replies| > 0 && replies[0] == FailedReply() ==> r == PollRun(1, [], ProcessingFailed))
  {
    JsPollFixedIsScan(replies, 0);
    ScanOutcome(JsFixedStops, JsFixedStopEnd, JsWait, replies, 0);
  }

  /** On a script with no `failed` reply the corrected poll does what the
      code as written does. */
  lemma {:induction false} JsPollFixedAgrees(replies: seq<StatusReply>, n: nat)
    requires n <= |replies|
    requires forall j | n <= j < |replies| :: !ReportsFailed(replies[j])
    ensures JsPollFixed(replies, n) == JsPoll(replies, n)
    decreases |replies| - n
  {
    if n < |replies| {
      JsPollFixedAgrees(replies, n + 1);
    }
  }
}
