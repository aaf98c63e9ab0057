/** The decision logic of the `verify` and `enroll_face` endpoints: the
    device-key check, the JSON field checks in the source's order, the room
    lookup, the data-URL split, the embedding, the best-match scan with its
    threshold, and the room authorization that fixes the attendance status. */
module Views {
  import opened Wrappers
  import opened Text
  import Authorization
  import Matcher
  import FaceBox

  // ---------------------------------------------------------------- device key

  /** The `X-DEVICE-KEY` header as the view reads it: a missing or empty
      header reads as the empty text. */
  function SentKey(sent: Option<string>): string {
    if sent.Some? then sent.value else ""
  }

  /** `require_device_key`: `configured` is `str(settings.DEVICE_KEY)`. An
      empty configured key lets every request through; otherwise the sent
      key and the configured key must agree once both are stripped. */
  function RequireDeviceKey(configured: string, sent: Option<string>): (ok: bool)
    ensures configured == [] ==> ok
    ensures sent.None? && !AllSpace(configured) ==> !ok
  {
    if configured == [] then true
    else Strip(SentKey(sent)) == Strip(configured)
  }

  /** Whitespace around either key never changes the decision. */
  lemma DeviceKeyIgnoresPadding(configured: string, key: string, pre: string, post: string)
    requires configured != [] && AllSpace(pre) && AllSpace(post)
    ensures RequireDeviceKey(configured, Some(pre + key + post)) == RequireDeviceKey(configured, Some(key))
  {
    StripIgnoresPadding(pre, key, post);
  }

  /** The configured key itself, sent with or without padding, is accepted. */
  lemma ConfiguredKeyAccepted(configured: string, pre: string, post: string)
    requires AllSpace(pre) && AllSpace(post)
    ensures RequireDeviceKey(configured, Some(pre + configured + post))
  {
    if configured != [] {
      StripIgnoresPadding(pre, configured, post);
    }
  }

  /** With a key configured, a request passes exactly when the key it sends
      is the stripped configured key with whitespace around it; any other
      key, and a missing one unless the configured key is blank, is refused. */
  lemma DeviceKeyDecision(configured: string, sent: Option<string>)
    requires configured != []
    ensures RequireDeviceKey(configured, sent) <==>
      exists pre, post :: AllSpace(pre) && AllSpace(post) && SentKey(sent) == pre + Strip(configured) + post
  {
    var key := SentKey(sent);
    if RequireDeviceKey(configured, sent) {
      var pre, post := StripPadding(key);
    }
    if exists pre, post :: AllSpace(pre) && AllSpace(post) && key == pre + Strip(configured) + post {
      var pre, post :| AllSpace(pre) && AllSpace(post) && key == pre + Strip(configured) + post;
      StripIgnoresPadding(pre, Strip(configured), post);
      StripIdempotent(configured);
    }
  }

  /** A configured key made only of whitespace is non-empty, so the check is
      on, yet it strips to the empty text: a request with no key at all
      passes. */
  lemma BlankKeyAcceptsMissingHeader(configured: string)
    requires configured != [] && AllSpace(configured)
    ensures RequireDeviceKey(configured, None)
  {
  }

  // ---------------------------------------------------------------- request body

  /** A JSON value (RFC 8259) as `json.loads` produces it; an object keeps
      its members in text order, duplicates included. */
  datatype Json =
    | JNull
    | JBool(b: bool)
    | JNumber(n: real)
    | JString(s: string)
    | JArray(items: seq<Json>)
    | JObject(members: seq<(string, Json)>)

  /** The position of the last member with the given key, if any. */
  function LastIndex(members: seq<(string, Json)>, key: string): (k: Option<nat>)
    ensures k.None? <==> forall i :: 0 <= i < |members| ==> members[i].0 != key
    ensures k.Some? ==> k.value < |members| && members[k.value].0 == key
                        && forall j :: k.value < j < |members| ==> members[j].0 != key
  {
    if |members| == 0 then None
    else if members[|members| - 1].0 == key then Some(|members| - 1)
    else
      var front := members[..|members| - 1];
      assert forall i :: 0 <= i < |front| ==> front[i] == members[i];
      LastIndex(front, key)
  }

  /** `data.get(key)` on the dict `json.loads` builds: the value of the last
      member with that key (a later duplicate overwrites an earlier one), or
      `None` when there is none. */
  function Get(members: seq<(string, Json)>, key: string): (r: Option<Json>)
    ensures r.None? <==> forall i :: 0 <= i < |members| ==> members[i].0 != key
    ensures r.Some? ==> var k := LastIndex(members, key).value; members[k] == (key, r.value)
  {
    match LastIndex(members, key)
    case None => None
    case Some(k) => Some(members[k].1)
  }

  /** Python truthiness of what `data.get` returns: a missing key and JSON
      `null` are `None`; `false`, `0`, `""`, `[]` and `{}` are falsy. */
  predicate Truthy(v: Option<Json>) {
    match v
    case None => false
    case Some(j) =>
      match j
      case JNull => false
      case JBool(b) => b
      case JNumber(n) => n != 0.0
      case JString(s) => s != []
      case JArray(items) => items != []
      case JObject(members) => members != []
  }

  /** `(data.get("room_code") or "").strip()`: a falsy value becomes the
      empty code; a non-empty string is stripped; any other truthy value has
      no `strip` and raises, which the view reports as invalid JSON
      (`None` here). */
  function RoomCode(v: Option<Json>): (r: Option<string>)
    ensures r.None? <==> Truthy(v) && !v.value.JString?
    ensures !Truthy(v) ==> r == Some("")
    ensures Truthy(v) && v.value.JString? ==> r == Some(Strip(v.value.s))
  {
    if !Truthy(v) then Some("")
    else if v.value.JString? then Some(Strip(v.value.s))
    else None
  }

  /** Codes that differ only by surrounding whitespace name the same room. */
  lemma RoomCodeIgnoresPadding(code: string, pre: string, post: string)
    requires AllSpace(pre) && AllSpace(post)
    ensures RoomCode(Some(JString(pre + code + post))) == RoomCode(Some(JString(code)))
  {
    if pre + code + post == [] {
      assert pre + code + post == code;
    } else {
      StripIgnoresPadding(pre, code, post);
      assert Truthy(Some(JString(pre + code + post)));
      assert Strip(code) == [] ==> RoomCode(Some(JString(code))) == Some([]);
    }
  }

  // ---------------------------------------------------------------- rooms and images

  /** A `Room` row; `code` is unique in the table. */
  datatype Room = Room(pk: int, code: string)

  /** `Room.objects.filter(code=room_code).first()`. */
  function FindRoom(rooms: seq<Room>, code: string): (r: Option<Room>)
    ensures r.None? <==> forall i :: 0 <= i < |rooms| ==> rooms[i].code != code
    ensures r.Some? ==> r.value in rooms && r.value.code == code
  {
    if |rooms| == 0 then None
    else if rooms[0].code == code then Some(rooms[0])
    else
      var r := FindRoom(rooms[1..], code);
      assert forall i :: 1 <= i < |rooms| ==> rooms[i] == rooms[1..][i - 1];
      r
  }

  /** `header, encoded = image_data.split(",", 1)`: the text after the first
      comma of a data URL (section 3 of RFC 2397); `None` when the value is
      not a string or has no comma, where the unpacking raises. */
  function DataUrlPayload(image: Json): (encoded: Option<string>)
    ensures encoded.Some? <==> image.JString? && ',' in image.s
    ensures encoded.Some? ==> exists header :: ',' !in header && image.s == header + [','] + encoded.value
  {
    if image.JString? then
      match SplitOnce(image.s, ',')
      case NoSplit => None
      case Pair(header, encoded) => Some(encoded)
    else None
  }

  /** A data URL gives back exactly its payload, whatever the payload
      contains, commas included. */
  lemma DataUrlRoundTrip(header: string, payload: string)
    requires ',' !in header
    ensures DataUrlPayload(JString(header + [','] + payload)) == Some(payload)
  {
    SplitJoin(header, ',', payload);
  }

  /** What Base64 decoding (RFC 4648), `np.frombuffer` and `cv2.imdecode`
      followed by the BGR-to-RGB conversion make of the payload: an exception
      (invalid Base64, an empty buffer), `None` from `imdecode` (the bytes are
      not an image), or the decoded RGB image. */
  datatype Decoded = DecodeRaised | NotAnImage | DecodedImage(img: FaceBox.Image)

  // ---------------------------------------------------------------- verify

  /** A request: whether the method is POST, the device-key header, and the
      body as `json.loads` reads it (`None` when it is not UTF-8 JSON). */
  datatype Request = Request(isPost: bool, deviceKey: Option<string>, body: Option<Json>)

  /** What the view reads besides the request: settings, the model-loading
      outcome, the tables, the clock and the foreign primitives. `repr`
      renders an embedding exception. */
  datatype Env = Env(
    deviceKey: string,
    modelLoaded: bool,
    rooms: seq<Room>,
    students: seq<Matcher.Student>,
    access: seq<Authorization.RoomAccess>,
    now: Authorization.TimeOfDay,
    threshold: real,
    decode: string -> Decoded,
    vision: FaceBox.Vision,
    sim: Matcher.Similarity,
    repr: FaceBox.EmbedError -> string)

  /** The body of a `verify` response: a refusal with its error, a
      recognised student (`matched` true), or the framework's error page for
      an exception the view does not catch. */
  datatype Body =
    | ServerError
    | Refused(error: string)
    | Recognized(authorized: bool, studentId: string, fullName: string, room: string, status: string, reason: string)

  datatype Reply = Reply(code: int, body: Body)

  /** A `log_attempt` call: its action and the `reason` entry of its data, if
      it has one. */
  datatype LogEntry = LogEntry(action: string, reason: Option<string>)

  /** The `Attendance` row `verify` creates. */
  datatype AttendanceRow = AttendanceRow(studentPk: int, roomPk: int, status: string, confidence: real)

  datatype VerifyOutcome = VerifyOutcome(reply: Reply, attendance: Option<AttendanceRow>, log: Option<LogEntry>)

  /** An early return of `verify`, before the scan. */
  datatype Rejection = Rejection(code: int, error: string, log: Option<LogEntry>)

  /** What passes all the checks before the scan: the room and the probe
      embedding. */
  datatype Admission = Admission(room: Room, probe: Matcher.Vector)

  function Fail(action: string, reason: string): Option<LogEntry> {
    Some(LogEntry(action, Some(reason)))
  }

  /** The body of `verify` up to the scan, in the source's order: method,
      device key, model, JSON, image present, room code present, room known,
      data URL, Base64 and image decoding, embedding. */
  function Admit(req: Request, env: Env): Result<Admission, Rejection> {
    if !req.isPost then Err(Rejection(405, "POST only", None))
    else if !RequireDeviceKey(env.deviceKey, req.deviceKey) then
      Err(Rejection(401, "Unauthorized device", Fail("VERIFY_FAILED", "BAD_DEVICE_KEY")))
    else if !env.modelLoaded then Err(Rejection(500, "ArcFace model not loaded", None))
    else if req.body.None? || !req.body.value.JObject? then Err(Rejection(400, "Invalid JSON", None))
    else
      var image := Get(req.body.value.members, "image");
      var code := RoomCode(Get(req.body.value.members, "room_code"));
      if code.None? then Err(Rejection(400, "Invalid JSON", None))
      else if !Truthy(image) then Err(Rejection(400, "No image", Fail("VERIFY_FAILED", "NO_IMAGE")))
      else if code.value == [] then Err(Rejection(400, "room_code required", Fail("VERIFY_FAILED", "NO_ROOM_CODE")))
      else
        match FindRoom(env.rooms, code.value)
        case None => Err(Rejection(400, "Invalid room", Fail("VERIFY_FAILED", "INVALID_ROOM")))
        case Some(room) => AdmitImage(room, image.value, env)
  }

  /** The rest of the checks, once the room is known: data URL, Base64 and
      image decoding, embedding. */
  function AdmitImage(room: Room, image: Json, env: Env): Result<Admission, Rejection> {
    match DataUrlPayload(image)
    case None => Err(Rejection(400, "Bad image format", None))
    case Some(encoded) =>
      match env.decode(encoded)
      case DecodeRaised => Err(Rejection(400, "Bad image format", None))
      case NotAnImage => Err(Rejection(400, "Invalid image", None))
      case DecodedImage(img) =>
        match FaceBox.EmbedFromRgb(img, env.vision)
        case Err(e) =>
          Err(Rejection(200, "Embedding failed: " + env.repr(e), Some(LogEntry("VERIFY_EMBED_FAIL", None))))
        case Ok(probe) => Ok(Admission(room, probe))
  }

  /** The scan, the threshold test and, on a match, the authorization, the
      attendance row and the response. A stored encoding whose length differs
      from the probe's makes the scan raise: nothing is logged or recorded
      and the response is a 500. */
  function Decide(room: Room, probe: Matcher.Vector, env: Env): VerifyOutcome {
    var m := Matcher.Scan(env.students, probe, env.sim);
    Matcher.ScanSelectsFirstBest(env.students, probe, env.sim);
    if !Matcher.Aligned(env.students, probe) then
      VerifyOutcome(Reply(500, ServerError), None, None)
    else if Matcher.Matched(m, env.threshold) then
      var student := env.students[m.best.value];
      var outcome := Authorization.AuthorizeStudent(student.pk, Some(room.pk), env.access, env.now);
      var status := Matcher.AttendanceStatus(outcome.granted);
      VerifyOutcome(
        Reply(200, Recognized(outcome.granted, student.studentId, student.fullName, room.code, status,
                              Authorization.Code(outcome.reason))),
        Some(AttendanceRow(student.pk, room.pk, status, m.score)),
        Some(LogEntry("FACE_VERIFICATION", None)))
    else
      VerifyOutcome(Reply(200, Refused("Face not matched")), None,
                    Fail("AUTHENTICATION_FAILED", "FACE_NOT_MATCHED"))
  }

  /** `verify(request)`. */
  function Verify(req: Request, env: Env): VerifyOutcome {
    match Admit(req, env)
    case Err(r) => VerifyOutcome(Reply(r.code, Refused(r.error)), None, r.log)
    case Ok(a) => Decide(a.room, a.probe, env)
  }

  /** The fields of a request that reached the field checks. */
  predicate Parsed(req: Request) {
    req.body.Some? && req.body.value.JObject?
    && RoomCode(Get(req.body.value.members, "room_code")).Some?
  }

  function ImageOf(req: Request): Option<Json>
    requires Parsed(req)
  {
    Get(req.body.value.members, "image")
  }

  function CodeOf(req: Request): string
    requires Parsed(req)
  {
    RoomCode(Get(req.body.value.members, "room_code")).value
  }

  /** The checks that come before the JSON fields all pass. */
  predicate Gated(req: Request, env: Env) {
    req.isPost && RequireDeviceKey(env.deviceKey, req.deviceKey) && env.modelLoaded
  }

  /** A refused request never creates attendance, and only a request that
      passed every check gets a `matched` body. */
  lemma RejectionsRecordNothing(req: Request, env: Env)
    requires Admit(req, env).Err?
    ensures Verify(req, env).attendance.None?
    ensures Verify(req, env).reply == Reply(Admit(req, env).error.code, Refused(Admit(req, env).error.error))
  {
  }

  /** An empty room code, after stripping, is refused before the room table
      is consulted: neither the rooms nor anything after them matter. */
  lemma EmptyRoomCodeRejectedBeforeLookup(req: Request, env: Env, rooms: seq<Room>, decode: string -> Decoded)
    requires Gated(req, env) && Parsed(req) && Truthy(ImageOf(req)) && CodeOf(req) == []
    ensures Verify(req, env) == Verify(req, env.(rooms := rooms, decode := decode))
    ensures Verify(req, env) == VerifyOutcome(Reply(400, Refused("room_code required")), None,
                                              Fail("VERIFY_FAILED", "NO_ROOM_CODE"))
  {
  }

  /** An unknown room code is refused before the image is decoded: the
      decoder and the detectors are never consulted. */
  lemma UnknownRoomRejectedBeforeDecoding(req: Request, env: Env, decode: string -> Decoded, vision: FaceBox.Vision)
    requires Gated(req, env) && Parsed(req) && Truthy(ImageOf(req)) && CodeOf(req) != []
    requires forall i :: 0 <= i < |env.rooms| ==> env.rooms[i].code != CodeOf(req)
    ensures Verify(req, env) == Verify(req, env.(decode := decode, vision := vision))
    ensures Verify(req, env) == VerifyOutcome(Reply(400, Refused("Invalid room")), None,
                                              Fail("VERIFY_FAILED", "INVALID_ROOM"))
  {
    UnknownRoomRejected(req, env);
    UnknownRoomRejected(req, env.(decode := decode, vision := vision));
  }

  lemma UnknownRoomRejected(req: Request, env: Env)
    requires Gated(req, env) && Parsed(req) && Truthy(ImageOf(req)) && CodeOf(req) != []
    requires FindRoom(env.rooms, CodeOf(req)).None?
    ensures Admit(req, env) == Err(Rejection(400, "Invalid room", Fail("VERIFY_FAILED", "INVALID_ROOM")))
  {
  }

  /** An image value without a comma, for a known room, is a bad image format
      and is never handed to the decoder. */
  lemma MissingCommaIsBadImageFormat(req: Request, env: Env, decode: string -> Decoded)
    requires Gated(req, env) && Parsed(req) && CodeOf(req) != []
    requires ImageOf(req).Some? && ImageOf(req).value.JString? && ImageOf(req).value.s != []
    requires ',' !in ImageOf(req).value.s
    requires FindRoom(env.rooms, CodeOf(req)).Some?
    ensures Verify(req, env) == Verify(req, env.(decode := decode))
    ensures Verify(req, env).reply == Reply(400, Refused("Bad image format"))
  {
    NoCommaRejected(req, env);
    NoCommaRejected(req, env.(decode := decode));
  }

  lemma NoCommaRejected(req: Request, env: Env)
    requires Gated(req, env) && Parsed(req) && CodeOf(req) != []
    requires ImageOf(req).Some? && ImageOf(req).value.JString? && ImageOf(req).value.s != []
    requires ',' !in ImageOf(req).value.s
    requires FindRoom(env.rooms, CodeOf(req)).Some?
    ensures Admit(req, env) == Err(Rejection(400, "Bad image format", None))
  {
    var image := ImageOf(req);
    assert Truthy(image);
    var room := FindRoom(env.rooms, CodeOf(req)).value;
    assert DataUrlPayload(image.value).None?;
    assert AdmitImage(room, image.value, env) == Err(Rejection(400, "Bad image format", None));
    assert Admit(req, env) == AdmitImage(room, image.value, env);
  }

  /** Decoding that yields no image is reported as "Invalid image" by
      `verify`, while exceptions along the way are "Bad image format". */
  lemma DecodeFailureMessages(req: Request, env: Env, room: Room)
    requires Gated(req, env) && Parsed(req) && Truthy(ImageOf(req)) && CodeOf(req) != []
    requires FindRoom(env.rooms, CodeOf(req)) == Some(room)
    requires DataUrlPayload(ImageOf(req).value).Some?
    ensures var d := env.decode(DataUrlPayload(ImageOf(req).value).value);
      && (d.NotAnImage? ==> Verify(req, env).reply == Reply(400, Refused("Invalid image")))
      && (d.DecodeRaised? ==> Verify(req, env).reply == Reply(400, Refused("Bad image format")))
  {
  }

  /** The decision after the checks: a stored encoding of the wrong length
      ends the request in a 500 with nothing recorded; otherwise attendance
      is recorded exactly when a student was selected with a score at or
      above the threshold; the
      student recorded is the first best candidate; the status is "IN"
      exactly when the room authorization grants, and the response carries
      the authorization's reason code. Otherwise the face is not matched. */
  lemma AttendanceExactlyOnMatch(req: Request, env: Env)
    requires Admit(req, env).Ok?
    ensures var a := Admit(req, env).value;
      var m := Matcher.Scan(env.students, a.probe, env.sim);
      var o := Verify(req, env);
      && (!Matcher.Aligned(env.students, a.probe) ==> o == VerifyOutcome(Reply(500, ServerError), None, None))
      && (o.attendance.Some? <==> Matcher.Aligned(env.students, a.probe) && Matcher.Matched(m, env.threshold))
      && (o.attendance.Some? ==>
            && Matcher.IsFirstBest(env.students, a.probe, env.sim, m.best.value)
            && var student := env.students[m.best.value];
               var auth := Authorization.AuthorizeStudent(student.pk, Some(a.room.pk), env.access, env.now);
               && o.attendance.value == AttendanceRow(student.pk, a.room.pk, o.attendance.value.status, m.score)
               && (o.attendance.value.status == "IN" <==> auth.granted)
               && (o.attendance.value.status == "FORBIDDEN" <==> !auth.granted)
               && o.reply == Reply(200, Recognized(auth.granted, student.studentId, student.fullName, a.room.code,
                                                  o.attendance.value.status, Authorization.Code(auth.reason))))
      && (o.attendance.None? && Matcher.Aligned(env.students, a.probe) ==>
            o.reply == Reply(200, Refused("Face not matched"))
            && o.log == Fail("AUTHENTICATION_FAILED", "FACE_NOT_MATCHED"))
  {
    var a := Admit(req, env).value;
    Matcher.ScanSelectsFirstBest(env.students, a.probe, env.sim);
  }

  /** With no student holding a usable encoding, every admitted request ends
      as "Face not matched", whatever the threshold. */
  lemma NoEnrolledStudentNeverMatches(req: Request, env: Env)
    requires Admit(req, env).Ok?
    requires forall i :: 0 <= i < |env.students| ==> !Matcher.Eligible(env.students[i])
    ensures Verify(req, env).reply == Reply(200, Refused("Face not matched"))
    ensures Verify(req, env).attendance.None?
  {
    Matcher.EmptySetNeverMatches(env.students, Admit(req, env).value.probe, env.sim, env.threshold);
  }

  /** A matched student without a room-access record is recorded as
      "FORBIDDEN", with the reason `NO_ROOM_ACCESS_RECORD`. */
  lemma MatchWithoutAccessIsForbidden(req: Request, env: Env)
    requires Admit(req, env).Ok?
    requires Verify(req, env).attendance.Some?
    requires var s := Verify(req, env).attendance.value;
      forall i :: 0 <= i < |env.access| ==> !Authorization.Matches(env.access[i], s.studentPk, s.roomPk)
    ensures Verify(req, env).attendance.value.status == "FORBIDDEN"
    ensures Verify(req, env).reply.body.reason == "NO_ROOM_ACCESS_RECORD"
  {
    AttendanceExactlyOnMatch(req, env);
  }

  // ---------------------------------------------------------------- enroll_face

  /** The JSON body of an `enroll_face` response; `Enrolled` echoes the
      stored `student_id` and `full_name`. */
  datatype EnrollBody = EnrollRefused(error: string) | Enrolled(studentId: Json, fullName: Json)

  /** The `update_or_create` of the student keyed by `student_id`. */
  datatype Enrollment = Enrollment(studentId: Json, fullName: Json, encoding: Matcher.Vector)

  datatype EnrollOutcome = EnrollOutcome(code: int, body: EnrollBody, stored: Option<Enrollment>, log: Option<LogEntry>)

  function Refuse(code: int, error: string, log: Option<LogEntry>): EnrollOutcome {
    EnrollOutcome(code, EnrollRefused(error), None, log)
  }

  /** `enroll_face(request)`. Unlike `verify`, an image that does not decode
      is reported as "Bad image format" (the `None` from `imdecode` is raised
      inside the `try`), and a failed embedding as "No face detected". */
  function Enroll(req: Request, env: Env): EnrollOutcome {
    if !req.isPost then Refuse(405, "POST only", None)
    else if !RequireDeviceKey(env.deviceKey, req.deviceKey) then
      Refuse(401, "Unauthorized device", Fail("ENROLL_FAILED", "BAD_DEVICE_KEY"))
    else if !env.modelLoaded then Refuse(500, "ArcFace model not loaded", None)
    else if req.body.None? || !req.body.value.JObject? then Refuse(400, "Invalid JSON", None)
    else
      var image := Get(req.body.value.members, "image");
      var studentId := Get(req.body.value.members, "student_id");
      var fullName := Get(req.body.value.members, "full_name");
      if !Truthy(image) || !Truthy(studentId) || !Truthy(fullName) then Refuse(400, "Missing data", None)
      else
        match DataUrlPayload(image.value)
        case None => Refuse(400, "Bad image format", None)
        case Some(encoded) =>
          match env.decode(encoded)
          case DecodeRaised => Refuse(400, "Bad image format", None)
          case NotAnImage => Refuse(400, "Bad image format", None)
          case DecodedImage(img) =>
            match FaceBox.EmbedFromRgb(img, env.vision)
            case Err(_) => Refuse(200, "No face detected", Fail("ENROLL_FAILED", "NO_FACE"))
            case Ok(embedding) =>
              EnrollOutcome(200, Enrolled(studentId.value, fullName.value),
                            Some(Enrollment(studentId.value, fullName.value, embedding)),
                            Some(LogEntry("ENROLL_SUCCESS", None)))
  }

  /** A student is stored exactly when the response reports success, and
      what is stored is the request's identity with the embedding of its
      decoded image. */
  lemma EnrollStoresOnlyOnSuccess(req: Request, env: Env)
    ensures var o := Enroll(req, env);
      && (o.stored.Some? <==> o.body.Enrolled?)
      && (o.stored.Some? ==>
            && o.code == 200
            && ImagePresent(req)
            && var members := req.body.value.members;
               var encoded := DataUrlPayload(Get(members, "image").value).value;
               && env.decode(encoded).DecodedImage?
               && FaceBox.EmbedFromRgb(env.decode(encoded).img, env.vision) == Ok(o.stored.value.encoding)
               && Some(o.stored.value.studentId) == Get(members, "student_id")
               && Some(o.stored.value.fullName) == Get(members, "full_name"))
  {
  }

  /** The body is a JSON object whose image field is present. */
  predicate ImagePresent(req: Request) {
    req.body.Some? && req.body.value.JObject? && Truthy(Get(req.body.value.members, "image"))
  }

  /** The same undecodable image gets different messages from the two
      endpoints: "Invalid image" from `verify`, "Bad image format" from
      `enroll_face`. */
  lemma NotAnImageMessagesDiffer(req: Request, env: Env)
    requires Gated(req, env) && Parsed(req) && CodeOf(req) != []
    requires FindRoom(env.rooms, CodeOf(req)).Some?
    requires Truthy(ImageOf(req))
    requires Truthy(Get(req.body.value.members, "student_id")) && Truthy(Get(req.body.value.members, "full_name"))
    requires DataUrlPayload(ImageOf(req).value).Some?
    requires env.decode(DataUrlPayload(ImageOf(req).value).value).NotAnImage?
    ensures Verify(req, env).reply == Reply(400, Refused("Invalid image"))
    ensures Enroll(req, env) == Refuse(400, "Bad image format", None)
  {
  }
}
