/** The form-submission webhook: `verifySignature` (replay window plus an
    HMAC-SHA256 compare over the timestamp, a dot and the raw body) and the `POST`
    handler's ordered decision. HMAC-SHA256, `Number(...)`, `JSON.parse`,
    the clock and the database write are parameters. */
module Webhook {
  import opened JsValues
  import Hex

  /** Replay protection: five minutes, in seconds. */
  const ReplayWindow: int := 300

  /** The value of `Number(timestamp)`. */
  datatype JsNumber = NaN | PosInfinity | NegInfinity | Finite(x: real)

  function Abs(x: real): real {
    if x < 0.0 then -x else x
  }

  /** The timestamp lies more than the replay window away from `now` (whole
      seconds), in either direction.
      Every comparison with NaN is false, so NaN is never stale; an infinite
      timestamp is always stale. */
  function Stale(now: int, ts: JsNumber): (r: bool)
    ensures ts.Finite? ==> (r <==> ts.x < (now - ReplayWindow) as real || ts.x > (now + ReplayWindow) as real)
    ensures ts.NaN? ==> !r
    ensures ts.PosInfinity? || ts.NegInfinity? ==> r
  {
    match ts
    case NaN => false
    case PosInfinity => true
    case NegInfinity => true
    case Finite(x) => Abs(now as real - x) > ReplayWindow as real
  }

  /** The string the MAC covers: the timestamp text, a dot, then the raw body. */
  function SignedPayload(timestamp: string, rawBody: string): string {
    timestamp + "." + rawBody
  }

  /** `crypto.timingSafeEqual(a, b)`: byte equality; buffers of different
      lengths make it throw a RangeError, shown as `None`. */
  function TimingSafeEqual(a: seq<Hex.Byte>, b: seq<Hex.Byte>): (r: Option<bool>)
    ensures r.None? <==> |a| != |b|
    ensures r.Some? ==> (r.value <==> a == b)
  {
    if |a| != |b| then None else Some(a == b)
  }

  /** `verifySignature(rawBody, secret, timestamp, signature)`. `hmac(key,
      message)` is the raw HMAC-SHA256 digest; `toNumber` is `Number`. */
  function VerifySignature(
    rawBody: string, secret: string, timestamp: string, signature: string,
    now: int, toNumber: string -> JsNumber, hmac: (string, string) -> seq<Hex.Byte>): (ok: bool)
    ensures ok ==> !Stale(now, toNumber(timestamp))
    ensures ok ==> Hex.Decode(signature) == hmac(secret, SignedPayload(timestamp, rawBody))
  {
    Hex.DecodeEncode(hmac(secret, SignedPayload(timestamp, rawBody)));
    if Stale(now, toNumber(timestamp)) then false
    else
      var expected := Hex.Encode(hmac(secret, SignedPayload(timestamp, rawBody)));
      match TimingSafeEqual(Hex.Decode(expected), Hex.Decode(signature))
      case None => false
      case Some(same) => same
  }

  // ---------------------------------------------------------------------
  // The verifier

  /** The verifier accepts exactly when the timestamp is inside the window and
      the signature header decodes to the HMAC of `timestamp.rawBody`; a
      length mismatch is a rejection, never an exception. */
  lemma VerifySignatureIff(
    rawBody: string, secret: string, timestamp: string, signature: string,
    now: int, toNumber: string -> JsNumber, hmac: (string, string) -> seq<Hex.Byte>)
    ensures VerifySignature(rawBody, secret, timestamp, signature, now, toNumber, hmac) <==>
      !Stale(now, toNumber(timestamp)) && Hex.Decode(signature) == hmac(secret, SignedPayload(timestamp, rawBody))
  {
    Hex.DecodeEncode(hmac(secret, SignedPayload(timestamp, rawBody)));
  }

  /** The window is closed: a difference of exactly 300 seconds passes, one
      more second fails, and a future timestamp is judged like a past one. */
  lemma WindowBoundary(now: int, d: int)
    ensures Stale(now, Finite((now + d) as real)) <==> d > ReplayWindow || d < -ReplayWindow
    ensures Stale(now, Finite((now + d) as real)) == Stale(now, Finite((now - d) as real))
    ensures !Stale(now, Finite((now - 300) as real)) && !Stale(now, Finite((now + 300) as real))
    ensures Stale(now, Finite((now - 301) as real)) && Stale(now, Finite((now + 301) as real))
  {
  }

  /** A timestamp that `Number` maps to NaN is not stopped by the window
      check; only the signature compare can reject it. */
  lemma NaNTimestampSkipsWindow(
    rawBody: string, secret: string, timestamp: string, signature: string,
    now: int, toNumber: string -> JsNumber, hmac: (string, string) -> seq<Hex.Byte>)
    requires toNumber(timestamp) == NaN
    ensures VerifySignature(rawBody, secret, timestamp, signature, now, toNumber, hmac) <==>
      Hex.Decode(signature) == hmac(secret, SignedPayload(timestamp, rawBody))
  {
    VerifySignatureIff(rawBody, secret, timestamp, signature, now, toNumber, hmac);
  }

  /** A correctly signed request replayed more than 300 seconds later is
      rejected, whatever its signature. */
  lemma ReplayRejected(
    rawBody: string, secret: string, timestamp: string, signature: string,
    now: int, t: int, toNumber: string -> JsNumber, hmac: (string, string) -> seq<Hex.Byte>)
    requires toNumber(timestamp) == Finite(t as real)
    requires now - t > ReplayWindow
    ensures !VerifySignature(rawBody, secret, timestamp, signature, now, toNumber, hmac)
  {
  }

  /** The first '.' of the signed string is the one after the timestamp. */
  lemma FirstDot(t: string, b: string)
    requires '.' !in t
    ensures SignedPayload(t, b)[|t|] == '.'
    ensures forall i :: 0 <= i < |t| ==> SignedPayload(t, b)[i] != '.'
  {
    forall i | 0 <= i < |t| ensures SignedPayload(t, b)[i] != '.' {
      assert SignedPayload(t, b)[i] == t[i];
    }
  }

  /** The signed string determines the timestamp and the body whenever the
      timestamp has no '.', so the MAC covers the unparsed body exactly. */
  lemma SignedPayloadInjective(t1: string, b1: string, t2: string, b2: string)
    requires '.' !in t1 && '.' !in t2
    requires SignedPayload(t1, b1) == SignedPayload(t2, b2)
    ensures t1 == t2 && b1 == b2
  {
    var s := SignedPayload(t1, b1);
    FirstDot(t1, b1);
    FirstDot(t2, b2);
    assert |t1| == |t2|;
    assert t1 == s[..|t1|] && t2 == s[..|t2|];
    assert b1 == s[|t1| + 1..] && b2 == s[|t2| + 1..];
  }

  // ---------------------------------------------------------------------
  // The POST handler

  /** The request as the handler reads it: the raw body text and the
      `x-forge-signature` / `x-forge-timestamp` headers (`null` when absent). */
  datatype Request = Request(rawBody: string, signature: Option<string>, timestamp: Option<string>)

  /** The WebhookEvent document handed to the database. */
  datatype EventRecord = EventRecord(
    event: JsVal,
    formId: JsVal,
    submissionId: JsVal,
    payload: Json,
    receivedAt: int)

  /** A JSON response: `{ok: true}` when `error` is `None`. */
  datatype Response = Response(status: int, error: Option<string>)

  /** The response and the record stored, if any. */
  datatype Outcome = Outcome(response: Response, stored: Option<EventRecord>)

  const DefaultEvent := Defined(JStr("form.submitted"))

  function Reject(status: int, error: string): Outcome {
    Outcome(Response(status, Some(error)), None)
  }

  /** The `WebhookEvent.create` argument. Reading a field of a `null`
      payload throws a TypeError, shown as `None`. */
  function MakeRecord(payload: Json, receivedAt: int): (r: Option<EventRecord>)
    ensures r.None? <==> payload == JNull
    ensures r.Some? ==> Truthy(r.value.event) && r.value.payload == payload && r.value.receivedAt == receivedAt
  {
    match (Get(payload, "event"), Get(payload, "form_id"), Get(payload, "submission_id"), Get(payload, "id"))
    case (Some(event), Some(formId), Some(submissionId), Some(id)) =>
      Some(EventRecord(Or(event, DefaultEvent), formId, Or(submissionId, id), payload, receivedAt))
    case _ => None
  }

  /** `POST(req)`. `secret` is `FORGE_WEBHOOK_SECRET`; `parse` is
      `JSON.parse`, `None` when it throws; `write(rec)` says whether connecting
      to the database and creating the document succeeded; `receivedAt` is
      `new Date()`. */
  function Post(
    req: Request, secret: Option<string>, now: int, receivedAt: int,
    parse: string -> Option<Json>, toNumber: string -> JsNumber,
    hmac: (string, string) -> seq<Hex.Byte>, write: EventRecord -> bool): (r: Outcome)
    ensures r.response.status in {200, 400, 401, 500}
    ensures r.stored.Some? <==> r.response.status == 200
    ensures r.response.error.None? <==> r.response.status == 200
  {
    match parse(req.rawBody)
    case None => Reject(400, "Invalid JSON payload")
    case Some(payload) =>
      if !TextTruthy(req.signature) || !TextTruthy(req.timestamp) then
        Reject(400, "Missing signature headers")
      else if !TextTruthy(secret) then
        Reject(500, "Server misconfigured")
      else if !VerifySignature(req.rawBody, secret.value, req.timestamp.value, req.signature.value, now, toNumber, hmac) then
        Reject(401, "Invalid signature")
      else
        match MakeRecord(payload, receivedAt)
        case None => Reject(500, "Webhook processing failed")
        case Some(rec) =>
          if write(rec) then Outcome(Response(200, None), Some(rec))
          else Reject(500, "Webhook processing failed")
  }

  /** The checks run in a fixed order and the first failure decides:
      unparsable JSON, then missing headers, then a missing secret, then a
      failed verification: a stale timestamp or a signature that does not
      match. */
  lemma PostCheckOrder(
    req: Request, secret: Option<string>, now: int, receivedAt: int,
    parse: string -> Option<Json>, toNumber: string -> JsNumber,
    hmac: (string, string) -> seq<Hex.Byte>, write: EventRecord -> bool)
    ensures var r := Post(req, secret, now, receivedAt, parse, toNumber, hmac, write);
      && (parse(req.rawBody).None? ==> r == Reject(400, "Invalid JSON payload"))
      && (parse(req.rawBody).Some? && !(TextTruthy(req.signature) && TextTruthy(req.timestamp)) ==>
            r == Reject(400, "Missing signature headers"))
      && (parse(req.rawBody).Some? && TextTruthy(req.signature) && TextTruthy(req.timestamp) && !TextTruthy(secret) ==>
            r == Reject(500, "Server misconfigured"))
      && (parse(req.rawBody).Some? && TextTruthy(req.signature) && TextTruthy(req.timestamp) && TextTruthy(secret) &&
          (Stale(now, toNumber(req.timestamp.value)) ||
           Hex.Decode(req.signature.value) != hmac(secret.value, SignedPayload(req.timestamp.value, req.rawBody))) ==>
            r == Reject(401, "Invalid signature"))
  {
    if TextTruthy(req.signature) && TextTruthy(req.timestamp) && TextTruthy(secret) {
      VerifySignatureIff(req.rawBody, secret.value, req.timestamp.value, req.signature.value, now, toNumber, hmac);
    }
  }

  /** A record is stored only on a 200 response, and a 200 response means the
      body parsed, both headers and the secret were present, the timestamp
      was fresh and the signature matched the HMAC of `timestamp.rawBody`;
      the stored record is the one built from the parsed payload. */
  lemma PostStoresOnlyVerified(
    req: Request, secret: Option<string>, now: int, receivedAt: int,
    parse: string -> Option<Json>, toNumber: string -> JsNumber,
    hmac: (string, string) -> seq<Hex.Byte>, write: EventRecord -> bool)
    ensures var r := Post(req, secret, now, receivedAt, parse, toNumber, hmac, write);
      r.response.status == 200 ==>
        && parse(req.rawBody).Some?
        && TextTruthy(req.signature) && TextTruthy(req.timestamp) && TextTruthy(secret)
        && !Stale(now, toNumber(req.timestamp.value))
        && Hex.Decode(req.signature.value) == hmac(secret.value, SignedPayload(req.timestamp.value, req.rawBody))
        && r.stored == MakeRecord(parse(req.rawBody).value, receivedAt)
        && write(r.stored.value)
  {
    if TextTruthy(req.signature) && TextTruthy(req.timestamp) && TextTruthy(secret) {
      VerifySignatureIff(req.rawBody, secret.value, req.timestamp.value, req.signature.value, now, toNumber, hmac);
    }
  }

  /** After a successful verification the outcome depends only on the payload
      and the write: a `null` payload or a failed write gives 500, anything
      else gives 200 with the record stored. */
  lemma PostAfterVerification(
    req: Request, secret: Option<string>, now: int, receivedAt: int,
    parse: string -> Option<Json>, toNumber: string -> JsNumber,
    hmac: (string, string) -> seq<Hex.Byte>, write: EventRecord -> bool)
    requires parse(req.rawBody).Some?
    requires TextTruthy(req.signature) && TextTruthy(req.timestamp) && TextTruthy(secret)
    requires !Stale(now, toNumber(req.timestamp.value))
    requires Hex.Decode(req.signature.value) == hmac(secret.value, SignedPayload(req.timestamp.value, req.rawBody))
    ensures var r := Post(req, secret, now, receivedAt, parse, toNumber, hmac, write);
      var rec := MakeRecord(parse(req.rawBody).value, receivedAt);
      && (rec.None? ==> r == Reject(500, "Webhook processing failed"))
      && (rec.Some? && !write(rec.value) ==> r == Reject(500, "Webhook processing failed"))
      && (rec.Some? && write(rec.value) ==> r == Outcome(Response(200, None), rec))
  {
    VerifySignatureIff(req.rawBody, secret.value, req.timestamp.value, req.signature.value, now, toNumber, hmac);
  }

  /** The stored fields: `event` falls back to "form.submitted" when the
      payload's is falsy, `submission_id` falls back to the payload's `id`. */
  lemma RecordFallbacks(fields: map<string, Json>, receivedAt: int)
    ensures var r := MakeRecord(JObj(fields), receivedAt);
      && r.Some?
      && r.value.event == (if "event" in fields && Truthy(Defined(fields["event"])) then Defined(fields["event"]) else DefaultEvent)
      && r.value.formId == (if "form_id" in fields then Defined(fields["form_id"]) else Undefined)
      && r.value.submissionId ==
           (if "submission_id" in fields && Truthy(Defined(fields["submission_id"])) then Defined(fields["submission_id"])
            else if "id" in fields then Defined(fields["id"]) else Undefined)
  {
  }

  /** A fresh, correctly signed submission without an `event` field is
      stored with the default event kind and its own `submission_id`, and
      answered 200. */
  lemma SignedSubmissionAccepted(
    req: Request, secret: Option<string>, now: int, receivedAt: int, t: int,
    parse: string -> Option<Json>, toNumber: string -> JsNumber,
    hmac: (string, string) -> seq<Hex.Byte>, write: EventRecord -> bool, data: Json)
    requires parse(req.rawBody) == Some(JObj(map["form_id" := JStr("F1"), "submission_id" := JStr("S1"), "data" := data]))
    requires TextTruthy(req.signature) && TextTruthy(req.timestamp) && TextTruthy(secret)
    requires toNumber(req.timestamp.value) == Finite(t as real) && -300 <= now - t <= 300
    requires Hex.Decode(req.signature.value) == hmac(secret.value, SignedPayload(req.timestamp.value, req.rawBody))
    requires forall rec :: write(rec)
    ensures var r := Post(req, secret, now, receivedAt, parse, toNumber, hmac, write);
      && r.response == Response(200, None)
      && r.stored.Some?
      && r.stored.value.event == DefaultEvent
      && r.stored.value.formId == Defined(JStr("F1"))
      && r.stored.value.submissionId == Defined(JStr("S1"))
  {
    VerifySignatureIff(req.rawBody, secret.value, req.timestamp.value, req.signature.value, now, toNumber, hmac);
    RecordFallbacks(map["form_id" := JStr("F1"), "submission_id" := JStr("S1"), "data" := data], receivedAt);
  }

  /** The same request replayed 400 seconds after its timestamp is answered
      401 and nothing is stored. */
  lemma ReplayedRequestUnauthorized(
    req: Request, secret: Option<string>, receivedAt: int, t: int,
    parse: string -> Option<Json>, toNumber: string -> JsNumber,
    hmac: (string, string) -> seq<Hex.Byte>, write: EventRecord -> bool)
    requires parse(req.rawBody).Some?
    requires TextTruthy(req.signature) && TextTruthy(req.timestamp) && TextTruthy(secret)
    requires toNumber(req.timestamp.value) == Finite(t as real)
    ensures Post(req, secret, t + 400, receivedAt, parse, toNumber, hmac, write) == Reject(401, "Invalid signature")
  {
  }
}
