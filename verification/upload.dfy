/** Media upload to the v1.1 upload endpoint: a single signed POST for an
    image, and the INIT / APPEND / FINALIZE sequence for a video.

    The network is a parameter: `reply(n)` is the response to the `n`-th
    request of an upload (numbered from 0), and `stamps(n)` the nonce and
    timestamp drawn when that request is signed. Each operation returns the
    requests it sent, in order, and the outcome. An `Err` stands for the
    exception the source throws; nothing is sent after it. */
module MediaUpload {
  import opened Wrappers
  import opened Unicode
  import opened Text
  import opened Params
  import opened OAuth1
  import opened Chunking

  const UploadUrl := "https://upload.twitter.com/1.1/media/upload.json"

  datatype Credentials = Credentials(consumerKey: string, consumerSecret: string, token: string, tokenSecret: string)

  /** A request as sent: the parameters (form body or query string), the
      multipart file part, if any, and the nonce and timestamp its
      Authorization header was signed with (see `Authorization`). */
  datatype Request = Request(verb: string, params: Dict, file: seq<Byte>, stamp: Stamp)

  /** The parts of a response the uploads read: the status code and
      `media_id_string`, when the body has one. */
  datatype Response = Response(status: int, mediaId: Option<string>)

  /** The requests of an upload, and the STATUS query of the poll. */
  datatype Step = Init | Append(segment: nat) | Finalize | Upload | Status

  datatype UploadError =
    | Rejected(step: Step, status: int)   // the HTTP client or a status check threw
    | MissingMediaId                      // the body had no `media_id_string` (Python `KeyError`)
    | UnexpectedStatus(status: int)       // a 2xx other than 200 for a TypeScript image upload
    | UnsupportedMediaType

  // --------------------------------------------------------- parameters

  function InitParams(mediaType: string, totalBytes: nat): Dict
  {
    [("command", "INIT"), ("media_type", mediaType), ("total_bytes", Decimal(totalBytes)), ("media_category", "tweet_video")]
  }

  /** The APPEND parameters of the TypeScript uploads: the chunk travels,
      and is signed, as `media_data`. */
  function JsAppendParams(mediaId: string, segment: nat, chunk: string): Dict
  {
    [("command", "APPEND"), ("media_id", mediaId), ("segment_index", Decimal(segment)), ("media_data", chunk)]
  }

  /** The APPEND parameters of src/workatofinal.py: the chunk travels as a
      multipart file and is not signed. */
  function PyAppendParams(mediaId: string, segment: nat): Dict
  {
    [("command", "APPEND"), ("media_id", mediaId), ("segment_index", Decimal(segment))]
  }

  function FinalizeParams(mediaId: string): Dict
  {
    [("command", "FINALIZE"), ("media_id", mediaId)]
  }

  /** Every parameter set the uploads build names each parameter once, so
      `Authorization` can sign it. */
  lemma UploadParamsDistinct(mediaType: string, totalBytes: nat, mediaId: string, k: nat, chunk: string)
    ensures DistinctKeys(InitParams(mediaType, totalBytes))
    ensures DistinctKeys(JsAppendParams(mediaId, k, chunk))
    ensures DistinctKeys(PyAppendParams(mediaId, k))
    ensures DistinctKeys(FinalizeParams(mediaId))
    ensures DistinctKeys([("media_data", chunk)])
  {
  }

  /** How the TypeScript code writes a media id it read from a body: a
      missing one is the value `undefined`, which encodes as that word. */
  function JsMediaIdText(id: Option<string>): string
  {
    match id
    case Some(s) => s
    case None => "undefined"
  }

  // ----------------------------------------------------------- requests

  /** A request as the TypeScript uploads send it: a form body, no file. */
  function JsRequest(st: Stamp, params: Dict): (r: Request)
    ensures r.params == params && r.stamp == st && r.file == []
  {
    Request("POST", params, [], st)
  }

  /** A request as the Python upload sends it: parameters and, for APPEND,
      the chunk as a multipart file part. */
  function PyRequest(st: Stamp, params: Dict, file: seq<Byte>): (r: Request)
    ensures r.params == params && r.stamp == st && r.file == file
  {
    Request("POST", params, file, st)
  }

  /** The Authorization header of a request: `createOAuthHeader('POST',
      url, params)` over exactly the parameters the request carries, with
      the nonce and timestamp drawn for it. The file part is not signed. */
  function Authorization(d: Dialect, c: Credentials, hmac: Hmac, r: Request): (h: string)
    requires DistinctKeys(r.params)
    ensures var protocol := ProtocolParams(c.consumerKey, r.stamp, c.token);
      h == HeaderValue(protocol + [("oauth_signature", hmac(SigningKey(c.consumerSecret, c.tokenSecret),
                                                             BaseString(d, r.verb, UploadUrl,
                                                                        ParamString(d.order, Spread(r.params, protocol)))))])
  {
    SignInOrder(d, hmac, r.stamp, r.verb, UploadUrl, r.params,
                c.consumerKey, c.consumerSecret, c.token, c.tokenSecret).header
  }

  /** The header carries the request's stamp: two requests signed with the
      same credentials whose headers agree were given the same nonce and
      timestamp. */
  lemma AuthorizationDeterminesStamp(d: Dialect, c: Credentials, hmac: Hmac, r1: Request, r2: Request)
    requires DistinctKeys(r1.params) && DistinctKeys(r2.params)
    requires Authorization(d, c, hmac, r1) == Authorization(d, c, hmac, r2)
    ensures r1.stamp == r2.stamp
  {
    var p1, p2 := ProtocolParams(c.consumerKey, r1.stamp, c.token), ProtocolParams(c.consumerKey, r2.stamp, c.token);
    var sig1 := hmac(SigningKey(c.consumerSecret, c.tokenSecret), BaseString(d, r1.verb, UploadUrl, ParamString(d.order, Spread(r1.params, p1))));
    var sig2 := hmac(SigningKey(c.consumerSecret, c.tokenSecret), BaseString(d, r2.verb, UploadUrl, ParamString(d.order, Spread(r2.params, p2))));
    InsertionHeaderDeterminesStamp(c.consumerKey, c.token, r1.stamp, r2.stamp, sig1, sig2,
                                   p1 + [("oauth_signature", sig1)], p2 + [("oauth_signature", sig2)]);
  }

  // ------------------------------------------------------------- plans

  /** The step of request `n` among `count`: INIT, the APPENDs, FINALIZE. */
  function StepAt(n: nat, count: nat): Step
  {
    if n == 0 then Init else if n + 1 == count then Finalize else Append(n - 1)
  }

  /** Request `k + 1` of a TypeScript video upload whose payload is cut
      into `segs`: the APPEND of segment `k`, or FINALIZE after the last. */
  function JsStepRequest(segs: seq<string>, mediaId: string, stamps: nat -> Stamp, k: nat): (r: Request)
    requires k <= |segs|
    ensures r.stamp == stamps(k + 1) && r.file == []
  {
    if k < |segs| then JsRequest(stamps(k + 1), JsAppendParams(mediaId, k, segs[k]))
    else JsRequest(stamps(k + 1), FinalizeParams(mediaId))
  }

  /** Request `j` of a TypeScript video upload: INIT, one APPEND per
      segment, FINALIZE. */
  function JsVideoRequest(mediaType: string, totalBytes: nat, segs: seq<string>, mediaId: string,
                          stamps: nat -> Stamp, j: nat): (r: Request)
    requires j < |segs| + 2
    ensures r.stamp == stamps(j) && r.file == []
  {
    if j == 0 then JsRequest(stamps(0), InitParams(mediaType, totalBytes))
    else JsStepRequest(segs, mediaId, stamps, j - 1)
  }

  /** Every request of a TypeScript video upload, in order. */
  function JsVideoPlan(mediaType: string, totalBytes: nat, segs: seq<string>, mediaId: string,
                       stamps: nat -> Stamp): (plan: seq<Request>)
    ensures |plan| == |segs| + 2
  {
    seq(|segs| + 2, j requires 0 <= j < |segs| + 2 => JsVideoRequest(mediaType, totalBytes, segs, mediaId, stamps, j))
  }

  /** Request `k + 1` of the Python video upload: the APPEND of segment
      `k`, its bytes as the file part, or FINALIZE after the last. */
  function PyStepRequest(segs: seq<seq<Byte>>, mediaId: string, stamps: nat -> Stamp, k: nat): (r: Request)
    requires k <= |segs|
    ensures r.stamp == stamps(k + 1)
  {
    if k < |segs| then PyRequest(stamps(k + 1), PyAppendParams(mediaId, k), segs[k])
    else PyRequest(stamps(k + 1), FinalizeParams(mediaId), [])
  }

  /** Request `j` of the Python video upload of `totalBytes` bytes cut into
      `segs`. */
  function PyVideoRequest(totalBytes: nat, segs: seq<seq<Byte>>, mediaId: string, stamps: nat -> Stamp, j: nat): (r: Request)
    requires j < |segs| + 2
    ensures r.stamp == stamps(j)
  {
    if j == 0 then PyRequest(stamps(0), InitParams("video/mp4", totalBytes), [])
    else PyStepRequest(segs, mediaId, stamps, j - 1)
  }

  /** Every request of the Python video upload, in order. */
  function PyVideoPlan(totalBytes: nat, segs: seq<seq<Byte>>, mediaId: string, stamps: nat -> Stamp): (plan: seq<Request>)
    ensures |plan| == |segs| + 2
  {
    seq(|segs| + 2, j requires 0 <= j < |segs| + 2 => PyVideoRequest(totalBytes, segs, mediaId, stamps, j))
  }

  // ------------------------------------------------------- status gates

  /** `AnySuccess`: axios, which rejects every status outside 200..299.
      `ExactCodes`: the Python checks, 202 after INIT, 204 after APPEND,
      200 after FINALIZE and after STATUS. */
  datatype Gate = AnySuccess | ExactCodes

  predicate Passes(g: Gate, step: Step, status: int)
  {
    match g
    case AnySuccess => 200 <= status < 300
    case ExactCodes =>
      match step
      case Init => status == 202
      case Append(_) => status == 204
      case _ => status == 200
  }

  /** The index of the first of `count` requests, from `from` on, whose
      reply fails the gate, or `count` when none does. */
  function FirstFailure(g: Gate, reply: nat -> Response, count: nat, from: nat): (n: nat)
    requires from <= count
    ensures from <= n <= count
    ensures forall j | from <= j < n :: Passes(g, StepAt(j, count), reply(j).status)
    ensures n < count ==> !Passes(g, StepAt(n, count), reply(n).status)
    decreases count - from
  {
    if from == count then count
    else if !Passes(g, StepAt(from, count), reply(from).status) then from
    else FirstFailure(g, reply, count, from + 1)
  }

  /** What an upload sends and returns from request `from` of its `plan`
      on: it sends each request in turn and stops after the first whose
      reply fails the gate, reporting that step and status; when none
      fails it has sent the rest of the plan and returns `ok`. */
  function Cut<T>(g: Gate, plan: seq<Request>, reply: nat -> Response, from: nat, ok: T)
    : (run: (seq<Request>, Result<T, UploadError>))
    requires from <= |plan|
    decreases |plan| - from
  {
    if from == |plan| then ([], Ok(ok))
    else
      var step := StepAt(from, |plan|);
      if !Passes(g, step, reply(from).status) then ([plan[from]], Err(Rejected(step, reply(from).status)))
      else
        var rest := Cut(g, plan, reply, from + 1, ok);
        ([plan[from]] + rest.0, rest.1)
  }

  /** `Cut` sends its plan from `from` up to and including the first
      failing reply, as `FirstFailure` locates it. */
  lemma {:induction false} CutIsPrefix<T>(g: Gate, plan: seq<Request>, reply: nat -> Response, from: nat, ok: T)
    requires from <= |plan|
    ensures var n := FirstFailure(g, reply, |plan|, from);
      Cut(g, plan, reply, from, ok) ==
        if n < |plan| then (plan[from..n + 1], Err(Rejected(StepAt(n, |plan|), reply(n).status)))
        else (plan[from..], Ok(ok))
    decreases |plan| - from
  {
    if from == |plan| {
      assert plan[from..] == [];
    } else if !Passes(g, StepAt(from, |plan|), reply(from).status) {
      assert plan[from..from + 1] == [plan[from]];
    } else {
      CutIsPrefix(g, plan, reply, from + 1, ok);
      var n := FirstFailure(g, reply, |plan|, from + 1);
      if n < |plan| {
        assert plan[from..n + 1] == [plan[from]] + plan[from + 1..n + 1];
      } else {
        assert plan[from..] == [plan[from]] + plan[from + 1..];
      }
    }
  }

  // ------------------------------------------------------------- runs

  /** What the TypeScript upload sends and returns from APPEND `k` on,
      given the media id INIT returned: each request is sent, and the first
      reply outside 200..299 ends the upload with an error naming the step
      (`Append(k)`, or `Finalize` once `k` reaches `|segs|`). */
  function JsRest(segs: seq<string>, id: Option<string>, stamps: nat -> Stamp, reply: nat -> Response, k: nat)
    : (run: (seq<Request>, Result<Option<string>, UploadError>))
    requires k <= |segs|
    decreases |segs| - k
  {
    var step := StepAt(k + 1, |segs| + 2);
    var request := JsStepRequest(segs, JsMediaIdText(id), stamps, k);
    if !Passes(AnySuccess, step, reply(k + 1).status) then ([request], Err(Rejected(step, reply(k + 1).status)))
    else if k == |segs| then ([request], Ok(id))
    else
      var rest := JsRest(segs, id, stamps, reply, k + 1);
      ([request] + rest.0, rest.1)
  }

  /** What a TypeScript video upload of the base64 text `data` sends and
      returns; `totalBytes` is the size of the decoded payload. */
  function JsVideoRun(mediaType: string, totalBytes: nat, data: string,
                      stamps: nat -> Stamp, reply: nat -> Response): (run: (seq<Request>, Result<Option<string>, UploadError>))
  {
    var init := JsRequest(stamps(0), InitParams(mediaType, totalBytes));
    if !(200 <= reply(0).status < 300) then ([init], Err(Rejected(Init, reply(0).status)))
    else
      var rest := JsRest(Segments(data), reply(0).mediaId, stamps, reply, 0);
      ([init] + rest.0, rest.1)
  }

  /** What the Python upload sends and returns from APPEND `k` on: it
      demands 204 after each APPEND and 200 after FINALIZE
      (`ExactCodes`). */
  function PyRest(segs: seq<seq<Byte>>, mediaId: string, stamps: nat -> Stamp, reply: nat -> Response, k: nat)
    : (run: (seq<Request>, Result<string, UploadError>))
    requires k <= |segs|
    decreases |segs| - k
  {
    var step := StepAt(k + 1, |segs| + 2);
    var request := PyStepRequest(segs, mediaId, stamps, k);
    if !Passes(ExactCodes, step, reply(k + 1).status) then ([request], Err(Rejected(step, reply(k + 1).status)))
    else if k == |segs| then ([request], Ok(mediaId))
    else
      var rest := PyRest(segs, mediaId, stamps, reply, k + 1);
      ([request] + rest.0, rest.1)
  }

  /** What the Python video upload of the bytes `data` sends and returns:
      INIT must answer 202 with a media id. */
  function PyVideoRun(data: seq<Byte>, stamps: nat -> Stamp,
                      reply: nat -> Response): (run: (seq<Request>, Result<string, UploadError>))
  {
    var init := PyRequest(stamps(0), InitParams("video/mp4", |data|), []);
    if reply(0).status != 202 then ([init], Err(Rejected(Init, reply(0).status)))
    else match reply(0).mediaId
      case None => ([init], Err(MissingMediaId))
      case Some(mediaId) =>
        var rest := PyRest(Segments(data), mediaId, stamps, reply, 0);
        ([init] + rest.0, rest.1)
  }

  /** The loop of `UploadVideoJs` keeps what it has sent plus what
      `JsRest` still sends fixed across one APPEND. */
  lemma JsRestExtend(sent: seq<Request>, segs: seq<string>, id: Option<string>, stamps: nat -> Stamp, reply: nat -> Response, k: nat)
    requires k < |segs|
    ensures var append := JsRequest(stamps(k + 1), JsAppendParams(JsMediaIdText(id), k, segs[k]));
      200 <= reply(k + 1).status < 300 ==>
        sent + JsRest(segs, id, stamps, reply, k).0 == (sent + [append]) + JsRest(segs, id, stamps, reply, k + 1).0 &&
        JsRest(segs, id, stamps, reply, k).1 == JsRest(segs, id, stamps, reply, k + 1).1
    ensures var append := JsRequest(stamps(k + 1), JsAppendParams(JsMediaIdText(id), k, segs[k]));
      !(200 <= reply(k + 1).status < 300) ==>
        sent + JsRest(segs, id, stamps, reply, k).0 == sent + [append] &&
        JsRest(segs, id, stamps, reply, k).1 == Err(Rejected(Append(k), reply(k + 1).status))
  {
    assert StepAt(k + 1, |segs| + 2) == Append(k);
    var append := JsRequest(stamps(k + 1), JsAppendParams(JsMediaIdText(id), k, segs[k]));
    var rest := JsRest(segs, id, stamps, reply, k + 1);
    assert sent + ([append] + rest.0) == (sent + [append]) + rest.0;
  }

  /** The last step of `JsRest`: FINALIZE, then the media id INIT returned. */
  lemma JsRestFinalize(segs: seq<string>, id: Option<string>, stamps: nat -> Stamp, reply: nat -> Response)
    ensures var finalize := JsRequest(stamps(|segs| + 1), FinalizeParams(JsMediaIdText(id)));
      JsRest(segs, id, stamps, reply, |segs|) ==
        if 200 <= reply(|segs| + 1).status < 300 then ([finalize], Ok(id))
        else ([finalize], Err(Rejected(Finalize, reply(|segs| + 1).status)))
  {
    assert StepAt(|segs| + 1, |segs| + 2) == Finalize;
  }

  /** The same for the loop of `UploadVideoPy`. */
  lemma PyRestExtend(sent: seq<Request>, segs: seq<seq<Byte>>, mediaId: string, stamps: nat -> Stamp, reply: nat -> Response, k: nat)
    requires k < |segs|
    ensures var append := PyRequest(stamps(k + 1), PyAppendParams(mediaId, k), segs[k]);
      reply(k + 1).status == 204 ==>
        sent + PyRest(segs, mediaId, stamps, reply, k).0 == (sent + [append]) + PyRest(segs, mediaId, stamps, reply, k + 1).0 &&
        PyRest(segs, mediaId, stamps, reply, k).1 == PyRest(segs, mediaId, stamps, reply, k + 1).1
    ensures var append := PyRequest(stamps(k + 1), PyAppendParams(mediaId, k), segs[k]);
      reply(k + 1).status != 204 ==>
        sent + PyRest(segs, mediaId, stamps, reply, k).0 == sent + [append] &&
        PyRest(segs, mediaId, stamps, reply, k).1 == Err(Rejected(Append(k), reply(k + 1).status))
  {
    assert StepAt(k + 1, |segs| + 2) == Append(k);
    var append := PyRequest(stamps(k + 1), PyAppendParams(mediaId, k), segs[k]);
    var rest := PyRest(segs, mediaId, stamps, reply, k + 1);
    assert sent + ([append] + rest.0) == (sent + [append]) + rest.0;
  }

  /** The last step of `PyRest`. */
  lemma PyRestFinalize(segs: seq<seq<Byte>>, mediaId: string, stamps: nat -> Stamp, reply: nat -> Response)
    ensures var finalize := PyRequest(stamps(|segs| + 1), FinalizeParams(mediaId), []);
      PyRest(segs, mediaId, stamps, reply, |segs|) ==
        if reply(|segs| + 1).status == 200 then ([finalize], Ok(mediaId))
        else ([finalize], Err(Rejected(Finalize, reply(|segs| + 1).status)))
  {
    assert StepAt(|segs| + 1, |segs| + 2) == Finalize;
  }

  // ---------------------------------------------------------- uploads

  /** `uploadVideo` of src/finaltest.ts (with `mediaType` "video/mp4") and
      `uploadMedia` of src/authtest.ts (with the caller's type).
      `totalBytes` is the length of the decoded payload. */
  method UploadVideoJs(mediaType: string, totalBytes: nat, data: string,
                       stamps: nat -> Stamp, reply: nat -> Response)
    returns (sent: seq<Request>, result: Result<Option<string>, UploadError>)
    ensures (sent, result) == JsVideoRun(mediaType, totalBytes, data, stamps, reply)
  {
    ghost var run := JsVideoRun(mediaType, totalBytes, data, stamps, reply);
    var init := JsRequest(stamps(0), InitParams(mediaType, totalBytes));
    sent := [init];
    if !(200 <= reply(0).status < 300) {
      return sent, Err(Rejected(Init, reply(0).status));
    }
    var id := reply(0).mediaId;
    var mediaId := JsMediaIdText(id);
    ghost var segs := Segments(data);
    var totalChunks := SegmentCount(|data|);
    var i := 0;
    while i < totalChunks
      invariant 0 <= i <= totalChunks == |segs|
      invariant run.0 == sent + JsRest(segs, id, stamps, reply, i).0 && run.1 == JsRest(segs, id, stamps, reply, i).1
    {
      SegmentAt(data, i);
      var chunk := Slice(data, i * ChunkSize, (i + 1) * ChunkSize);
      var append := JsRequest(stamps(i + 1), JsAppendParams(mediaId, i, chunk));
      JsRestExtend(sent, segs, id, stamps, reply, i);
      sent := sent + [append];
      if !(200 <= reply(i + 1).status < 300) {
        return sent, Err(Rejected(Append(i), reply(i + 1).status));
      }
      i := i + 1;
    }
    JsRestFinalize(segs, id, stamps, reply);
    var finalize := JsRequest(stamps(totalChunks + 1), FinalizeParams(mediaId));
    sent := sent + [finalize];
    if !(200 <= reply(totalChunks + 1).status < 300) {
      return sent, Err(Rejected(Finalize, reply(totalChunks + 1).status));
    }
    result := Ok(id);
  }

  /** `upload_video` of src/workatofinal.py, given the decoded bytes. Its
      loop `for i in range(0, len(data), chunk_size)` visits the offsets
      `segment * chunk_size`, one per segment, and `i // chunk_size` is
      `segment` (`Chunking.PythonOffsets`), so the loop below counts
      segments and computes the offset from the count. */
  method UploadVideoPy(data: seq<Byte>, stamps: nat -> Stamp, reply: nat -> Response)
    returns (sent: seq<Request>, result: Result<string, UploadError>)
    ensures (sent, result) == PyVideoRun(data, stamps, reply)
  {
    ghost var run := PyVideoRun(data, stamps, reply);
    var init := PyRequest(stamps(0), InitParams("video/mp4", |data|), []);
    sent := [init];
    if reply(0).status != 202 {
      return sent, Err(Rejected(Init, reply(0).status));
    }
    if reply(0).mediaId.None? {
      return sent, Err(MissingMediaId);
    }
    var mediaId := reply(0).mediaId.value;
    ghost var segs := Segments(data);
    var count := SegmentCount(|data|);
    var segment := 0;
    while segment < count
      invariant 0 <= segment <= count == |segs|
      invariant run.0 == sent + PyRest(segs, mediaId, stamps, reply, segment).0
      invariant run.1 == PyRest(segs, mediaId, stamps, reply, segment).1
    {
      SegmentAt(data, segment);
      var chunk := Slice(data, segment * ChunkSize, segment * ChunkSize + ChunkSize);
      var append := PyRequest(stamps(segment + 1), PyAppendParams(mediaId, segment), chunk);
      PyRestExtend(sent, segs, mediaId, stamps, reply, segment);
      sent := sent + [append];
      if reply(segment + 1).status != 204 {
        return sent, Err(Rejected(Append(segment), reply(segment + 1).status));
      }
      segment := segment + 1;
    }
    PyRestFinalize(segs, mediaId, stamps, reply);
    var finalize := PyRequest(stamps(count + 1), FinalizeParams(mediaId), []);
    sent := sent + [finalize];
    if reply(count + 1).status != 200 {
      return sent, Err(Rejected(Finalize, reply(count + 1).status));
    }
    result := Ok(mediaId);
  }

  // ----------------------------------------------------------- images

  /** `uploadImage` of src/finaltest.ts and `uploadMedia` of
      src/mediaTweet.ts: one POST whose form body, `media_data`, is signed.
      axios throws for a status outside 200..299; the code then demands
      exactly 200. */
  function JsImageUpload(data: string, st: Stamp, reply: Response): (run: (Request, Result<Option<string>, UploadError>))
    ensures run.0.params == [("media_data", data)] && run.0.stamp == st && run.0.file == []
    ensures run.1.Ok? <==> reply.status == 200
    ensures run.1.Ok? ==> run.1.value == reply.mediaId
    ensures run.1.Err? ==> run.1.error == (if 200 <= reply.status < 300 then UnexpectedStatus(reply.status)
                                           else Rejected(Upload, reply.status))
  {
    var request := JsRequest(st, [("media_data", data)]);
    if !(200 <= reply.status < 300) then (request, Err(Rejected(Upload, reply.status)))
    else if reply.status == 200 then (request, Ok(reply.mediaId))
    else (request, Err(UnexpectedStatus(reply.status)))
  }

  /** `upload_image` of src/workatofinal.py: `raise_for_status` raises for
      400..599, and a body without `media_id_string` raises `KeyError`. */
  function PyImageUpload(data: string, st: Stamp, reply: Response): (run: (Request, Result<string, UploadError>))
    ensures run.0.params == [("media_data", data)] && run.0.stamp == st && run.0.file == []
    ensures run.1 == Err(Rejected(Upload, reply.status)) <==> 400 <= reply.status < 600
    ensures run.1.Ok? <==> !(400 <= reply.status < 600) && reply.mediaId.Some?
    ensures run.1.Ok? ==> reply.mediaId == Some(run.1.value)
  {
    var request := PyRequest(st, [("media_data", data)], []);
    if 400 <= reply.status < 600 then (request, Err(Rejected(Upload, reply.status)))
    else match reply.mediaId
      case Some(id) => (request, Ok(id))
      case None => (request, Err(MissingMediaId))
  }

  /** The two image gates part ways: Python accepts any status outside
      400..599 that comes with a media id, a 304 or an informational
      code included, where the TypeScript code accepts exactly 200; and a
      200 without an id is success in TypeScript but a `KeyError` in
      Python. */
  lemma ImageGatesDiffer(data: string, st: Stamp, reply: Response)
    ensures var js, py := JsImageUpload(data, st, reply).1, PyImageUpload(data, st, reply).1;
      (py.Ok? && !js.Ok? <==> reply.mediaId.Some? && !(400 <= reply.status < 600) && reply.status != 200) &&
      (js.Ok? && !py.Ok? <==> reply.status == 200 && reply.mediaId.None?)
    ensures PyImageUpload(data, st, Response(304, Some("1"))).1 == Ok("1")
    ensures JsImageUpload(data, st, Response(304, Some("1"))).1 == Err(Rejected(Upload, 304))
  {
  }

  // --------------------------------------------------------- dispatch

  /** `uploadMedia` of src/finaltest.ts: "video" goes to the chunked
      upload with type "video/mp4", "image" to the single POST, anything
      else throws before a request is made. */
  method UploadMediaJs(data: string, mediaType: string, totalBytes: nat, stamps: nat -> Stamp, reply: nat -> Response)
    returns (sent: seq<Request>, result: Result<Option<string>, UploadError>)
    ensures mediaType == "video" ==> (sent, result) == JsVideoRun("video/mp4", totalBytes, data, stamps, reply)
    ensures mediaType == "image" ==>
      sent == [JsImageUpload(data, stamps(0), reply(0)).0] && result == JsImageUpload(data, stamps(0), reply(0)).1
    ensures mediaType != "video" && mediaType != "image" ==> sent == [] && result == Err(UnsupportedMediaType)
  {
    if mediaType == "video" {
      sent, result := UploadVideoJs("video/mp4", totalBytes, data, stamps, reply);
    } else if mediaType == "image" {
      var run := JsImageUpload(data, stamps(0), reply(0));
      sent, result := [run.0], run.1;
    } else {
      sent, result := [], Err(UnsupportedMediaType);
    }
  }

  /** `upload_media` of src/workatofinal.py; `decoded` is what
      `base64.b64decode` makes of `data`, which the video upload sends. */
  method UploadMediaPy(data: string, decoded: seq<Byte>, mediaType: string, stamps: nat -> Stamp, reply: nat -> Response)
    returns (sent: seq<Request>, result: Result<string, UploadError>)
    ensures mediaType == "video" ==> (sent, result) == PyVideoRun(decoded, stamps, reply)
    ensures mediaType == "image" ==>
      sent == [PyImageUpload(data, stamps(0), reply(0)).0] && result == PyImageUpload(data, stamps(0), reply(0)).1
    ensures mediaType != "video" && mediaType != "image" ==> sent == [] && result == Err(UnsupportedMediaType)
  {
    if mediaType == "video" {
      sent, result := UploadVideoPy(decoded, stamps, reply);
    } else if mediaType == "image" {
      var run := PyImageUpload(data, stamps(0), reply(0));
      sent, result := [run.0], run.1;
    } else {
      sent, result := [], Err(UnsupportedMediaType);
    }
  }

  // ------------------------------------------------ what a plan carries

  /** The value a request carries for `name`, or "" without one. */
  function Field(d: Dict, name: string): string
  {
    if name in ToMap(d) then ToMap(d)[name] else ""
  }

  lemma InitFields(mediaType: string, totalBytes: nat)
    ensures Field(InitParams(mediaType, totalBytes), "command") == "INIT"
    ensures Field(InitParams(mediaType, totalBytes), "media_type") == mediaType
    ensures Field(InitParams(mediaType, totalBytes), "total_bytes") == Decimal(totalBytes)
  {
    var d := InitParams(mediaType, totalBytes);
    UploadParamsDistinct(mediaType, totalBytes, "", 0, "");
    ToMapAt(d, 0);
    ToMapAt(d, 1);
    ToMapAt(d, 2);
  }

  lemma JsAppendFields(mediaId: string, k: nat, chunk: string)
    ensures Field(JsAppendParams(mediaId, k, chunk), "command") == "APPEND"
    ensures Field(JsAppendParams(mediaId, k, chunk), "media_id") == mediaId
    ensures Field(JsAppendParams(mediaId, k, chunk), "segment_index") == Decimal(k)
    ensures Field(JsAppendParams(mediaId, k, chunk), "media_data") == chunk
  {
    var d := JsAppendParams(mediaId, k, chunk);
    UploadParamsDistinct("", 0, mediaId, k, chunk);
    ToMapAt(d, 0);
    ToMapAt(d, 1);
    ToMapAt(d, 2);
    ToMapAt(d, 3);
  }

  lemma PyAppendFields(mediaId: string, k: nat)
    ensures Field(PyAppendParams(mediaId, k), "command") == "APPEND"
    ensures Field(PyAppendParams(mediaId, k), "media_id") == mediaId
    ensures Field(PyAppendParams(mediaId, k), "segment_index") == Decimal(k)
  {
    var d := PyAppendParams(mediaId, k);
    UploadParamsDistinct("", 0, mediaId, k, "");
    ToMapAt(d, 0);
    ToMapAt(d, 1);
    ToMapAt(d, 2);
  }

  /** The Python APPEND does not sign the chunk: `media_data` is not
      among its parameters. */
  lemma PyAppendUnsigned(mediaId: string, k: nat)
    ensures "media_data" !in Keys(PyAppendParams(mediaId, k))
  {
    var d := PyAppendParams(mediaId, k);
    assert |"media_data"| == 10;
    assert d[0].0 != "media_data" && d[1].0 != "media_data" && d[2].0 != "media_data";
  }

  lemma FinalizeFields(mediaId: string)
    ensures Field(FinalizeParams(mediaId), "command") == "FINALIZE"
    ensures Field(FinalizeParams(mediaId), "media_id") == mediaId
  {
    UploadParamsDistinct("", 0, mediaId, 0, "");
    ToMapAt(FinalizeParams(mediaId), 0);
    ToMapAt(FinalizeParams(mediaId), 1);
  }

  lemma JsPlanAppend(mediaType: string, totalBytes: nat, segs: seq<string>, mediaId: string, stamps: nat -> Stamp, k: nat)
    requires k < |segs|
    ensures JsVideoPlan(mediaType, totalBytes, segs, mediaId, stamps)[k + 1]
         == JsRequest(stamps(k + 1), JsAppendParams(mediaId, k, segs[k]))
  {
    assert StepAt(k + 1, |segs| + 2) == Append(k);
  }

  lemma PyPlanAppend(totalBytes: nat, segs: seq<seq<Byte>>, mediaId: string, stamps: nat -> Stamp, k: nat)
    requires k < |segs|
    ensures PyVideoPlan(totalBytes, segs, mediaId, stamps)[k + 1]
         == PyRequest(stamps(k + 1), PyAppendParams(mediaId, k), segs[k])
  {
    assert StepAt(k + 1, |segs| + 2) == Append(k);
  }

  lemma JsPlanEnds(mediaType: string, totalBytes: nat, segs: seq<string>, mediaId: string, stamps: nat -> Stamp)
    ensures var plan := JsVideoPlan(mediaType, totalBytes, segs, mediaId, stamps);
      plan[0] == JsRequest(stamps(0), InitParams(mediaType, totalBytes)) &&
      plan[|plan| - 1] == JsRequest(stamps(|plan| - 1), FinalizeParams(mediaId))
  {
    assert StepAt(0, |segs| + 2) == Init;
    assert StepAt(|segs| + 1, |segs| + 2) == Finalize;
  }

  lemma PyPlanEnds(totalBytes: nat, segs: seq<seq<Byte>>, mediaId: string, stamps: nat -> Stamp)
    ensures var plan := PyVideoPlan(totalBytes, segs, mediaId, stamps);
      plan[0] == PyRequest(stamps(0), InitParams("video/mp4", totalBytes), []) &&
      plan[|plan| - 1] == PyRequest(stamps(|plan| - 1), FinalizeParams(mediaId), [])
  {
    assert StepAt(0, |segs| + 2) == Init;
    assert StepAt(|segs| + 1, |segs| + 2) == Finalize;
  }

  /** A TypeScript video upload announces the decoded size, sends APPEND
      `k` for segment `k` under the media id INIT returned, and finalizes
      that id. */
  lemma JsVideoPlanFields(mediaType: string, totalBytes: nat, segs: seq<string>, mediaId: string, stamps: nat -> Stamp)
    ensures var plan := JsVideoPlan(mediaType, totalBytes, segs, mediaId, stamps);
      Field(plan[0].params, "command") == "INIT" &&
      Field(plan[0].params, "media_type") == mediaType &&
      Field(plan[0].params, "total_bytes") == Decimal(totalBytes) &&
      (forall k | 0 <= k < |segs| ::
         Field(plan[k + 1].params, "command") == "APPEND" &&
         Field(plan[k + 1].params, "media_id") == mediaId &&
         Field(plan[k + 1].params, "segment_index") == Decimal(k)) &&
      Field(plan[|plan| - 1].params, "command") == "FINALIZE" &&
      Field(plan[|plan| - 1].params, "media_id") == mediaId
  {
    var plan := JsVideoPlan(mediaType, totalBytes, segs, mediaId, stamps);
    JsPlanEnds(mediaType, totalBytes, segs, mediaId, stamps);
    InitFields(mediaType, totalBytes);
    FinalizeFields(mediaId);
    forall k | 0 <= k < |segs|
      ensures Field(plan[k + 1].params, "command") == "APPEND"
      ensures Field(plan[k + 1].params, "media_id") == mediaId
      ensures Field(plan[k + 1].params, "segment_index") == Decimal(k)
    {
      JsPlanAppend(mediaType, totalBytes, segs, mediaId, stamps, k);
      JsAppendFields(mediaId, k, segs[k]);
    }
  }

  /** The Python video upload announces the byte count, sends APPEND `k`
      for segment `k` without signing the chunk, and finalizes. */
  lemma PyVideoPlanFields(totalBytes: nat, segs: seq<seq<Byte>>, mediaId: string, stamps: nat -> Stamp)
    ensures var plan := PyVideoPlan(totalBytes, segs, mediaId, stamps);
      Field(plan[0].params, "command") == "INIT" &&
      Field(plan[0].params, "media_type") == "video/mp4" &&
      Field(plan[0].params, "total_bytes") == Decimal(totalBytes) &&
      (forall k | 0 <= k < |segs| ::
         Field(plan[k + 1].params, "command") == "APPEND" &&
         Field(plan[k + 1].params, "media_id") == mediaId &&
         Field(plan[k + 1].params, "segment_index") == Decimal(k) &&
         "media_data" !in Keys(plan[k + 1].params)) &&
      Field(plan[|plan| - 1].params, "command") == "FINALIZE" &&
      Field(plan[|plan| - 1].params, "media_id") == mediaId
  {
    var plan := PyVideoPlan(totalBytes, segs, mediaId, stamps);
    PyPlanEnds(totalBytes, segs, mediaId, stamps);
    InitFields("video/mp4", totalBytes);
    FinalizeFields(mediaId);
    forall k | 0 <= k < |segs|
      ensures Field(plan[k + 1].params, "command") == "APPEND"
      ensures Field(plan[k + 1].params, "media_id") == mediaId
      ensures Field(plan[k + 1].params, "segment_index") == Decimal(k)
      ensures "media_data" !in Keys(plan[k + 1].params)
    {
      PyPlanAppend(totalBytes, segs, mediaId, stamps, k);
      PyAppendFields(mediaId, k);
      PyAppendUnsigned(mediaId, k);
    }
  }

  /** The `media_data` value of each request, in order. */
  function MediaData(rs: seq<Request>): (chunks: seq<string>)
    ensures |chunks| == |rs|
  {
    seq(|rs|, i requires 0 <= i < |rs| => Field(rs[i].params, "media_data"))
  }

  /** The file part of each request, in order. */
  function Files(rs: seq<Request>): (files: seq<seq<Byte>>)
    ensures |files| == |rs|
  {
    seq(|rs|, i requires 0 <= i < |rs| => rs[i].file)
  }

  /** The `media_data` values of a TypeScript video upload's APPEND
      requests, joined in order, are the base64 text itself: nothing is
      lost, repeated or reordered. */
  lemma JsVideoPlanCarriesPayload(mediaType: string, totalBytes: nat, data: string, mediaId: string, stamps: nat -> Stamp)
    ensures var plan := JsVideoPlan(mediaType, totalBytes, Segments(data), mediaId, stamps);
      Flatten(MediaData(plan[1..|plan| - 1])) == data
  {
    var segs := Segments(data);
    var plan := JsVideoPlan(mediaType, totalBytes, segs, mediaId, stamps);
    var chunks := MediaData(plan[1..|plan| - 1]);
    forall k | 0 <= k < |chunks|
      ensures chunks[k] == segs[k]
    {
      JsPlanAppend(mediaType, totalBytes, segs, mediaId, stamps, k);
      JsAppendFields(mediaId, k, segs[k]);
    }
    assert chunks == segs;
    SegmentsFlatten(data);
  }

  /** The files of the Python video upload's APPEND requests, joined in
      order, are the decoded bytes. */
  lemma PyVideoPlanCarriesPayload(data: seq<Byte>, mediaId: string, stamps: nat -> Stamp)
    ensures var plan := PyVideoPlan(|data|, Segments(data), mediaId, stamps);
      Flatten(Files(plan[1..|plan| - 1])) == data
  {
    var segs := Segments(data);
    var plan := PyVideoPlan(|data|, segs, mediaId, stamps);
    var files := Files(plan[1..|plan| - 1]);
    forall k | 0 <= k < |files|
      ensures files[k] == segs[k]
    {
      PyPlanAppend(|data|, segs, mediaId, stamps, k);
    }
    assert files == segs;
    SegmentsFlatten(data);
  }

  /** Each APPEND of an upload names a different segment. */
  lemma SegmentIndicesDistinct(mediaType: string, totalBytes: nat, segs: seq<string>, mediaId: string,
                               stamps: nat -> Stamp, i: nat, j: nat)
    requires i < j < |segs|
    ensures Field(JsVideoPlan(mediaType, totalBytes, segs, mediaId, stamps)[i + 1].params, "segment_index")
         != Field(JsVideoPlan(mediaType, totalBytes, segs, mediaId, stamps)[j + 1].params, "segment_index")
  {
    JsVideoPlanFields(mediaType, totalBytes, segs, mediaId, stamps);
    DecimalInjective(i, j);
  }

  /** Every planned request names each parameter once, so `Authorization`
      can sign it. */
  lemma PlanSignable(mediaType: string, totalBytes: nat, segs: seq<string>, mediaId: string, stamps: nat -> Stamp, j: nat)
    requires j < |segs| + 2
    ensures DistinctKeys(JsVideoPlan(mediaType, totalBytes, segs, mediaId, stamps)[j].params)
  {
    if 0 < j <= |segs| {
      UploadParamsDistinct(mediaType, totalBytes, mediaId, j - 1, segs[j - 1]);
    } else {
      UploadParamsDistinct(mediaType, totalBytes, mediaId, 0, "");
    }
  }

  // ---------------------------------------------------------- outcomes

  /** `plan` holds, after INIT, the requests `JsRest` sends: the APPEND of
      each of `segs`, then FINALIZE. */
  predicate JsAppendsPlanned(plan: seq<Request>, segs: seq<string>, mediaId: string, stamps: nat -> Stamp)
  {
    |plan| == |segs| + 2 &&
    forall k | 0 <= k <= |segs| :: plan[k + 1] == JsStepRequest(segs, mediaId, stamps, k)
  }

  /** `plan` holds, after INIT, the requests `PyRest` sends. */
  predicate PyAppendsPlanned(plan: seq<Request>, segs: seq<seq<Byte>>, mediaId: string, stamps: nat -> Stamp)
  {
    |plan| == |segs| + 2 &&
    forall k | 0 <= k <= |segs| :: plan[k + 1] == PyStepRequest(segs, mediaId, stamps, k)
  }

  /** From APPEND `k` on, the TypeScript upload is `Cut` of its plan under
      the axios gate. */
  lemma {:induction false} JsRestIsCut(plan: seq<Request>, segs: seq<string>, id: Option<string>,
                                       stamps: nat -> Stamp, reply: nat -> Response, k: nat)
    requires JsAppendsPlanned(plan, segs, JsMediaIdText(id), stamps)
    requires k <= |segs|
    ensures JsRest(segs, id, stamps, reply, k) == Cut(AnySuccess, plan, reply, k + 1, id)
    decreases |segs| - k
  {
    assert plan[k + 1] == JsStepRequest(segs, JsMediaIdText(id), stamps, k);
    if !Passes(AnySuccess, StepAt(k + 1, |plan|), reply(k + 1).status) {
    } else if k == |segs| {
      assert Cut(AnySuccess, plan, reply, k + 2, id) == ([], Ok(id));
      assert [plan[k + 1]] + [] == [plan[k + 1]];
    } else {
      JsRestIsCut(plan, segs, id, stamps, reply, k + 1);
    }
  }

  /** From APPEND `k` on, the Python upload is `Cut` of its plan under the
      exact-code gate. */
  lemma {:induction false} PyRestIsCut(plan: seq<Request>, segs: seq<seq<Byte>>, mediaId: string,
                                       stamps: nat -> Stamp, reply: nat -> Response, k: nat)
    requires PyAppendsPlanned(plan, segs, mediaId, stamps)
    requires k <= |segs|
    ensures PyRest(segs, mediaId, stamps, reply, k) == Cut(ExactCodes, plan, reply, k + 1, mediaId)
    decreases |segs| - k
  {
    assert plan[k + 1] == PyStepRequest(segs, mediaId, stamps, k);
    if !Passes(ExactCodes, StepAt(k + 1, |plan|), reply(k + 1).status) {
    } else if k == |segs| {
      assert Cut(ExactCodes, plan, reply, k + 2, mediaId) == ([], Ok(mediaId));
      assert [plan[k + 1]] + [] == [plan[k + 1]];
    } else {
      PyRestIsCut(plan, segs, mediaId, stamps, reply, k + 1);
    }
  }

  /** A TypeScript video upload sends its plan up to and including the
      first request axios rejects, and reports that step and status; when
      none is rejected it sends the whole plan and returns the media id
      INIT returned. */
  lemma JsVideoRunIsCut(mediaType: string, totalBytes: nat, data: string, stamps: nat -> Stamp, reply: nat -> Response)
    ensures var plan := JsVideoPlan(mediaType, totalBytes, Segments(data), JsMediaIdText(reply(0).mediaId), stamps);
      JsVideoRun(mediaType, totalBytes, data, stamps, reply) == Cut(AnySuccess, plan, reply, 0, reply(0).mediaId)
  {
    var segs := Segments(data);
    var id := reply(0).mediaId;
    var plan := JsVideoPlan(mediaType, totalBytes, segs, JsMediaIdText(id), stamps);
    JsPlanEnds(mediaType, totalBytes, segs, JsMediaIdText(id), stamps);
    assert StepAt(0, |plan|) == Init;
    if 200 <= reply(0).status < 300 {
      assert JsAppendsPlanned(plan, segs, JsMediaIdText(id), stamps);
      JsRestIsCut(plan, segs, id, stamps, reply, 0);
    }
  }

  /** The media id the Python upload goes on with: `media_id_string` of
      the INIT reply, or "" when there is none (and then it stops). */
  function PyMediaId(reply: nat -> Response): string
  {
    match reply(0).mediaId
    case Some(s) => s
    case None => ""
  }

  /** The Python video upload sends its plan up to and including the first
      reply with the wrong status, except that a 202 to INIT without a
      media id stops it after INIT. */
  lemma PyVideoRunIsCut(data: seq<Byte>, stamps: nat -> Stamp, reply: nat -> Response)
    ensures var plan := PyVideoPlan(|data|, Segments(data), PyMediaId(reply), stamps);
      PyVideoRun(data, stamps, reply) ==
        if reply(0).status == 202 && reply(0).mediaId.None? then ([plan[0]], Err(MissingMediaId))
        else Cut(ExactCodes, plan, reply, 0, PyMediaId(reply))
  {
    var segs := Segments(data);
    var plan := PyVideoPlan(|data|, segs, PyMediaId(reply), stamps);
    PyPlanEnds(|data|, segs, PyMediaId(reply), stamps);
    assert StepAt(0, |plan|) == Init;
    if reply(0).status == 202 && reply(0).mediaId.Some? {
      assert PyAppendsPlanned(plan, segs, PyMediaId(reply), stamps);
      PyRestIsCut(plan, segs, PyMediaId(reply), stamps, reply, 0);
    }
  }

  /** An upload that stops early has sent a prefix of its plan, every
      reply before the last passed the gate, and the last did not; one
      that succeeds has sent the whole plan and every reply passed. */
  lemma CutOutcome<T>(g: Gate, plan: seq<Request>, reply: nat -> Response, ok: T)
    requires |plan| > 0
    ensures var run := Cut(g, plan, reply, 0, ok);
      1 <= |run.0| <= |plan| && run.0 == plan[..|run.0|] &&
      (run.1.Ok? <==> forall j | 0 <= j < |plan| :: Passes(g, StepAt(j, |plan|), reply(j).status)) &&
      (run.1.Ok? ==> run.0 == plan && run.1.value == ok) &&
      (run.1.Err? ==>
         run.1.error == Rejected(StepAt(|run.0| - 1, |plan|), reply(|run.0| - 1).status) &&
         !Passes(g, StepAt(|run.0| - 1, |plan|), reply(|run.0| - 1).status) &&
         forall j | 0 <= j < |run.0| - 1 :: Passes(g, StepAt(j, |plan|), reply(j).status))
  {
    CutIsPrefix(g, plan, reply, 0, ok);
    if FirstFailure(g, reply, |plan|, 0) == |plan| {
      assert plan[0..] == plan[..|plan|] == plan;
    }
  }

  /** A TypeScript video upload succeeds exactly when every reply is 2xx,
      and then it has sent every planned request; otherwise the last
      request sent is the first one rejected, every earlier one was
      accepted, and the error names its step and status. */
  lemma JsVideoRunOutcome(mediaType: string, totalBytes: nat, data: string, stamps: nat -> Stamp, reply: nat -> Response)
    ensures var plan := JsVideoPlan(mediaType, totalBytes, Segments(data), JsMediaIdText(reply(0).mediaId), stamps);
      var run := JsVideoRun(mediaType, totalBytes, data, stamps, reply);
      1 <= |run.0| <= |plan| && run.0 == plan[..|run.0|] &&
      (run.1.Ok? <==> forall j | 0 <= j < |plan| :: 200 <= reply(j).status < 300) &&
      (run.1.Ok? ==> run.0 == plan && run.1.value == reply(0).mediaId) &&
      (run.1.Err? ==>
         run.1.error == Rejected(StepAt(|run.0| - 1, |plan|), reply(|run.0| - 1).status) &&
         !(200 <= reply(|run.0| - 1).status < 300) &&
         forall j | 0 <= j < |run.0| - 1 :: 200 <= reply(j).status < 300)
  {
    var plan := JsVideoPlan(mediaType, totalBytes, Segments(data), JsMediaIdText(reply(0).mediaId), stamps);
    JsVideoRunIsCut(mediaType, totalBytes, data, stamps, reply);
    CutOutcome(AnySuccess, plan, reply, reply(0).mediaId);
  }

  /** The Python video upload succeeds exactly when INIT answers 202 with
      a media id, every APPEND 204 and FINALIZE 200, and then it has sent
      every planned request; a 202 without a media id stops it after INIT;
      otherwise it stops at the first reply with the wrong status. */
  lemma PyVideoRunOutcome(data: seq<Byte>, stamps: nat -> Stamp, reply: nat -> Response)
    ensures var plan := PyVideoPlan(|data|, Segments(data), PyMediaId(reply), stamps);
      var run := PyVideoRun(data, stamps, reply);
      1 <= |run.0| <= |plan| && run.0 == plan[..|run.0|] &&
      (run.1.Ok? <==> reply(0).mediaId.Some? &&
                      forall j | 0 <= j < |plan| :: Passes(ExactCodes, StepAt(j, |plan|), reply(j).status)) &&
      (run.1.Ok? ==> run.0 == plan && reply(0).mediaId == Some(run.1.value)) &&
      (run.1 == Err(MissingMediaId) <==> reply(0).status == 202 && reply(0).mediaId.None?) &&
      (run.1 == Err(MissingMediaId) ==> |run.0| == 1) &&
      (run.1.Err? && run.1 != Err(MissingMediaId) ==>
         run.1.error == Rejected(StepAt(|run.0| - 1, |plan|), reply(|run.0| - 1).status) &&
         !Passes(ExactCodes, StepAt(|run.0| - 1, |plan|), reply(|run.0| - 1).status) &&
         forall j | 0 <= j < |run.0| - 1 :: Passes(ExactCodes, StepAt(j, |plan|), reply(j).status))
  {
    var plan := PyVideoPlan(|data|, Segments(data), PyMediaId(reply), stamps);
    PyVideoRunIsCut(data, stamps, reply);
    CutOutcome(ExactCodes, plan, reply, PyMediaId(reply));
    assert StepAt(0, |plan|) == Init;
    assert plan[..1] == [plan[0]];
  }

  /** The Python checks accept a subset of what axios accepts: a reply
      that passes Python passes TypeScript, but a 200 to INIT or APPEND,
      or a 201 to FINALIZE, passes only TypeScript. */
  lemma ExactCodesStricter(step: Step, status: int)
    ensures Passes(ExactCodes, step, status) ==> Passes(AnySuccess, step, status)
    ensures Passes(AnySuccess, Init, 200) && !Passes(ExactCodes, Init, 200)
    ensures Passes(AnySuccess, Append(0), 200) && !Passes(ExactCodes, Append(0), 200)
    ensures Passes(AnySuccess, Finalize, 201) && !Passes(ExactCodes, Finalize, 201)
  {
  }
}
