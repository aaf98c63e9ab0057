/** The signing and field-encryption glue of `auth_app/models.py`: the
    pass-through Fernet field codec, the HMAC signature under `HMAC_SECRET`,
    and the `save` methods of `Attendance` and `AuditLog`, which store an
    HMAC of a pipe-joined payload in their `signature` field. */
module Records {
  import opened Wrappers
  import opened Crypto
  import opened Text

  /** `HMAC_SECRET`, read from the environment at import: the variable's
      value, or the empty string when it is unset. */
  function HmacSecret(env: Option<string>): string {
    if env.None? then "" else env.value
  }

  /** `hmac_signature(payload)`. */
  function HmacSignature(h: HmacHex, env: Option<string>, payload: string): string {
    h(HmacSecret(env), payload)
  }

  /** With `HMAC_SECRET` unset or empty, signing does not fail: it uses the
      empty key. */
  lemma UnsetSecretSignsWithEmptyKey(h: HmacHex, payload: string)
    ensures HmacSignature(h, None, payload) == h("", payload)
    ensures HmacSignature(h, Some(""), payload) == h("", payload)
  {
  }

  /** `get_fernet()` over `FERNET_KEY_RAW`: the key when it is set, non-empty
      and accepted by `Fernet`; nothing otherwise, the library's exception for
      a malformed key being swallowed. */
  function GetFernet(raw: Option<string>, f: Fernet): (key: Option<string>)
    ensures key.Some? <==> raw.Some? && raw.value != "" && f.keyValid(raw.value)
    ensures key.Some? ==> key.value == raw.value
  {
    if raw.None? || raw.value == "" then None
    else if !f.keyValid(raw.value) then None
    else Some(raw.value)
  }

  /** Python truthiness of an optional text: `None` and `""` are falsy. */
  predicate Truthy(s: Option<string>) {
    s.Some? && s.value != ""
  }

  /** `encrypt_text(text)`: falsy text, or no usable key, passes through
      unchanged; otherwise the Fernet token. */
  function EncryptText(text: Option<string>, raw: Option<string>, f: Fernet, entropy: string): (r: Option<string>)
    ensures !Truthy(text) || GetFernet(raw, f).None? ==> r == text
    ensures Truthy(text) && GetFernet(raw, f).Some? ==> r == Some(f.encrypt(raw.value, entropy, text.value))
  {
    var key := GetFernet(raw, f);
    if !Truthy(text) || key.None? then text
    else Some(f.encrypt(key.value, entropy, text.value))
  }

  /** The exception `decrypt_text` lets escape for a token Fernet rejects. */
  datatype CodecError = InvalidToken

  /** `decrypt_text(token)`: falsy tokens, or no usable key, pass through
      unchanged; otherwise the plaintext, or `InvalidToken` raised. */
  function DecryptText(token: Option<string>, raw: Option<string>, f: Fernet): (r: Result<Option<string>, CodecError>)
    ensures !Truthy(token) || GetFernet(raw, f).None? ==> r == Ok(token)
    ensures r.Err? <==> Truthy(token) && GetFernet(raw, f).Some? && f.decrypt(raw.value, token.value).None?
    ensures r.Ok? && Truthy(token) && GetFernet(raw, f).Some? ==> r.value == f.decrypt(raw.value, token.value)
  {
    var key := GetFernet(raw, f);
    if !Truthy(token) || key.None? then Ok(token)
    else match f.decrypt(key.value, token.value)
      case None => Err(InvalidToken)
      case Some(plain) => Ok(Some(plain))
  }

  /** The field codec round-trips every value, `None` and `""` included, with
      or without a usable key. */
  lemma FieldRoundTrip(text: Option<string>, raw: Option<string>, f: Fernet, entropy: string)
    requires Sound(f)
    ensures DecryptText(EncryptText(text, raw, f, entropy), raw, f) == Ok(text)
  {
    if Truthy(text) && GetFernet(raw, f).Some? {
      assert f.encrypt(raw.value, entropy, text.value) != [];
    }
  }

  /** A point in time (`datetime`), as microseconds since the epoch. */
  datatype DateTime = DateTime(micros: int)

  /** How the f-strings render values that are not text: `isoformat()` and
      `str()` of a datetime, and `repr` of a float. */
  datatype Render = Render(isoformat: DateTime -> string, str: DateTime -> string, floatRepr: real -> string)

  /** `room_id` in the attendance payload: the room's id, or `"NONE"`. */
  function RoomField(room: Option<int>): string {
    if room.None? then "NONE" else IntToString(room.value)
  }

  /** The attendance payload
      `student.id|room_id|timestamp.isoformat()|status|confidence`. */
  function AttendancePayload(studentPk: int, room: Option<int>, timestamp: DateTime, status: string,
                             confidence: real, r: Render): string {
    Join([IntToString(studentPk), RoomField(room), r.isoformat(timestamp), status, r.floatRepr(confidence)], '|')
  }

  /** The renderings used in payloads never contain `|`, and `isoformat()`
      tells datetimes apart. Float `repr` is asked to tell apart only the
      confidences actually compared (no rendering into strings is injective
      on every real). */
  ghost predicate RenderSound(r: Render) {
    && (forall t1, t2 :: r.isoformat(t1) == r.isoformat(t2) ==> t1 == t2)
    && (forall t :: '|' !in r.isoformat(t))
    && (forall c :: '|' !in r.floatRepr(c))
  }

  /** A rendering with datetimes as their microsecond count in decimal and
      every float as `"0.0"`. */
  function DecimalRender(): Render {
    Render((t: DateTime) => IntToString(t.micros), (t: DateTime) => IntToString(t.micros), (c: real) => "0.0")
  }

  /** `RenderSound` can be met: the decimal rendering meets it. */
  lemma DecimalRenderIsSound()
    ensures RenderSound(DecimalRender())
  {
    var r := DecimalRender();
    forall t1: DateTime, t2: DateTime | r.isoformat(t1) == r.isoformat(t2)
      ensures t1 == t2
    {
      IntToStringInjective(t1.micros, t2.micros);
    }
    forall t: DateTime
      ensures '|' !in r.isoformat(t)
    {
      IntToStringNoPipe(t.micros);
    }
  }

  lemma RoomFieldInjective(a: Option<int>, b: Option<int>)
    requires RoomField(a) == RoomField(b)
    ensures a == b
  {
    assert a.Some? ==> RoomField(a)[0] == '-' || '0' <= RoomField(a)[0] <= '9';
    assert b.Some? ==> RoomField(b)[0] == '-' || '0' <= RoomField(b)[0] <= '9';
    assert "NONE"[0] == 'N';
    if a.Some? && b.Some? {
      IntToStringInjective(a.value, b.value);
    }
  }

  lemma IntToStringNoPipe(n: int)
    ensures '|' !in IntToString(n)
  {
    var s := IntToString(n);
    assert forall k :: 0 <= k < |s| ==> s[k] != '|';
  }

  /** The attendance payload determines every signed field: two records with
      the same payload agree on student, room, timestamp, status and
      confidence, provided the status contains no `|` and the two confidences
      render differently when they differ. */
  lemma AttendancePayloadInjective(
    s1: int, room1: Option<int>, t1: DateTime, st1: string, c1: real,
    s2: int, room2: Option<int>, t2: DateTime, st2: string, c2: real, r: Render)
    requires RenderSound(r) && '|' !in st1 && '|' !in st2
    requires r.floatRepr(c1) == r.floatRepr(c2) ==> c1 == c2
    requires AttendancePayload(s1, room1, t1, st1, c1, r) == AttendancePayload(s2, room2, t2, st2, c2, r)
    ensures s1 == s2 && room1 == room2 && t1 == t2 && st1 == st2 && c1 == c2
  {
    var f := [IntToString(s1), RoomField(room1), r.isoformat(t1), st1, r.floatRepr(c1)];
    var g := [IntToString(s2), RoomField(room2), r.isoformat(t2), st2, r.floatRepr(c2)];
    IntToStringNoPipe(s1);
    IntToStringNoPipe(s2);
    assert '|' !in RoomField(room1) && '|' !in RoomField(room2) by {
      if room1.Some? { IntToStringNoPipe(room1.value); }
      if room2.Some? { IntToStringNoPipe(room2.value); }
    }
    JoinInjective(f, g, '|');
    assert f[0] == g[0] && f[1] == g[1];
    IntToStringInjective(s1, s2);
    RoomFieldInjective(room1, room2);
  }

  /** `Attendance`: the record of one verification attempt. */
  class Attendance {
    var studentPk: int
    var room: Option<int>
    var timestamp: DateTime
    var status: string
    var device: string
    var confidence: real
    var signature: Option<string>

    /** A new, unsaved record; `timestamp` defaults to the current time at
        construction. */
    constructor (studentPk: int, room: Option<int>, timestamp: DateTime, status: string, device: string, confidence: real)
      ensures this.studentPk == studentPk && this.room == room && this.timestamp == timestamp
      ensures this.status == status && this.device == device && this.confidence == confidence
      ensures signature == None
    {
      this.studentPk := studentPk;
      this.room := room;
      this.timestamp := timestamp;
      this.status := status;
      this.device := device;
      this.confidence := confidence;
      signature := None;
    }

    function Payload(r: Render): string
      reads this
    {
      AttendancePayload(studentPk, room, timestamp, status, confidence, r)
    }

    /** The stored signature is the HMAC of the record's current payload. */
    predicate SignatureMatches(h: HmacHex, key: string, r: Render)
      reads this
    {
      signature == Some(h(key, Payload(r)))
    }

    /** `Attendance.save()`: sign the current fields, then persist (which
        changes none of them). */
    method Save(h: HmacHex, env: Option<string>, r: Render)
      modifies this`signature
      ensures signature == Some(HmacSignature(h, env, Payload(r)))
      ensures SignatureMatches(h, HmacSecret(env), r)
    {
      var payload := Payload(r);
      signature := Some(HmacSignature(h, env, payload));
    }
  }

  /** Saving an unchanged record again recomputes the same signature. */
  method ResaveIsStable(a: Attendance, h: HmacHex, env: Option<string>, r: Render) returns (first: string, second: string)
    modifies a`signature
    ensures first == second == HmacSignature(h, env, a.Payload(r))
  {
    a.Save(h, env, r);
    first := a.signature.value;
    a.Save(h, env, r);
    second := a.signature.value;
  }

  /** `device` is not covered: changing it leaves a saved record's signature
      valid. */
  method RetagDevice(a: Attendance, device: string, h: HmacHex, key: string, r: Render)
    requires a.SignatureMatches(h, key, r)
    modifies a`device
    ensures a.device == device && a.SignatureMatches(h, key, r)
  {
    a.device := device;
  }

  /** Under a collision-free HMAC, two attendance signatures under one key
      agree only when the records agree on every signed field. */
  lemma AttendanceTamperEvident(h: HmacHex, key: string, a1: Attendance, a2: Attendance, r: Render)
    requires CollisionFree(h) && RenderSound(r)
    requires '|' !in a1.status && '|' !in a2.status
    requires r.floatRepr(a1.confidence) == r.floatRepr(a2.confidence) ==> a1.confidence == a2.confidence
    requires h(key, a1.Payload(r)) == h(key, a2.Payload(r))
    ensures a1.studentPk == a2.studentPk && a1.room == a2.room && a1.timestamp == a2.timestamp
    ensures a1.status == a2.status && a1.confidence == a2.confidence
  {
    AttendancePayloadInjective(a1.studentPk, a1.room, a1.timestamp, a1.status, a1.confidence,
                               a2.studentPk, a2.room, a2.timestamp, a2.status, a2.confidence, r);
  }

  /** An optional text field in an f-string: `None` renders as `"None"`. */
  function PyStr(v: Option<string>): string {
    if v.None? then "None" else v.value
  }

  function CreatedAtField(createdAt: Option<DateTime>, r: Render): string {
    if createdAt.None? then "None" else r.str(createdAt.value)
  }

  /** The audit payload `action|username|ip_address|created_at`; `user_agent`
      and `data` are not part of it. */
  function AuditPayload(action: string, username: Option<string>, ip: Option<string>,
                        createdAt: Option<DateTime>, r: Render): string {
    Join([action, PyStr(username), PyStr(ip), CreatedAtField(createdAt, r)], '|')
  }

  /** An anonymous event and one by a user literally named `None` have the same
      payload, hence the same signature. */
  lemma AnonymousLooksLikeUserNone(action: string, ip: Option<string>, createdAt: Option<DateTime>, r: Render)
    ensures AuditPayload(action, None, ip, createdAt, r) == AuditPayload(action, Some("None"), ip, createdAt, r)
  {
  }

  /** Payloads that differ only in `created_at` differ exactly when its
      renderings do. */
  lemma {:induction false} AuditPayloadCreatedAt(action: string, username: Option<string>, ip: Option<string>,
                                                 c1: Option<DateTime>, c2: Option<DateTime>, r: Render)
    ensures AuditPayload(action, username, ip, c1, r) == AuditPayload(action, username, ip, c2, r)
        <==> CreatedAtField(c1, r) == CreatedAtField(c2, r)
  {
    var p := action + "|" + PyStr(username) + "|" + PyStr(ip) + "|";
    var x, y := CreatedAtField(c1, r), CreatedAtField(c2, r);
    JoinFour(action, PyStr(username), PyStr(ip), x);
    JoinFour(action, PyStr(username), PyStr(ip), y);
    assert AuditPayload(action, username, ip, c1, r) == p + x;
    assert AuditPayload(action, username, ip, c2, r) == p + y;
    if p + x == p + y {
      assert x == (p + x)[|p|..];
    }
  }

  lemma JoinFour(a: string, b: string, c: string, d: string)
    ensures Join([a, b, c, d], '|') == a + "|" + b + "|" + c + "|" + d
  {
    var f := [a, b, c, d];
    assert f[1..] == [b, c, d] && [b, c, d][1..] == [c, d] && [c, d][1..] == [d];
    assert Join([d], '|') == d;
    assert Join([c, d], '|') == c + "|" + d;
    assert Join([b, c, d], '|') == b + "|" + (c + "|" + d);
    assert Join(f, '|') == a + "|" + (b + "|" + (c + "|" + d));
  }

  /** `AuditLog`: a security-relevant event. `adding` is Django's
      `_state.adding`, true until the first save inserts the row. */
  class AuditLog {
    var action: string
    var username: Option<string>
    var ipAddress: Option<string>
    var userAgent: Option<string>
    var data: Option<string>
    var signature: Option<string>
    var createdAt: Option<DateTime>
    var adding: bool

    constructor (action: string, username: Option<string>, ipAddress: Option<string>,
                 userAgent: Option<string>, data: Option<string>)
      ensures this.action == action && this.username == username && this.ipAddress == ipAddress
      ensures this.userAgent == userAgent && this.data == data
      ensures signature == None && createdAt == None && adding
    {
      this.action := action;
      this.username := username;
      this.ipAddress := ipAddress;
      this.userAgent := userAgent;
      this.data := data;
      signature := None;
      createdAt := None;
      adding := true;
    }

    function Payload(r: Render): string
      reads this
    {
      AuditPayload(action, username, ipAddress, createdAt, r)
    }

    predicate SignatureMatches(h: HmacHex, key: string, r: Render)
      reads this
    {
      signature == Some(h(key, Payload(r)))
    }

    /** `AuditLog.save()` as written: the payload is built from the current
        fields, then `super().save()` runs, whose `auto_now_add` stamps
        `created_at` when the row is first inserted. */
    method Save(h: HmacHex, env: Option<string>, r: Render, now: DateTime)
      modifies this`signature, this`createdAt, this`adding
      ensures signature == Some(HmacSignature(h, env, AuditPayload(action, username, ipAddress, old(createdAt), r)))
      ensures createdAt == if old(adding) then Some(now) else old(createdAt)
      ensures !adding
    {
      var payload := Payload(r);
      signature := Some(HmacSignature(h, env, payload));
      if adding {
        createdAt := Some(now);
      }
      adding := false;
    }

    /** The save with `created_at` fixed before the payload is built (the
        timestamp assigned at insertion, then signed), so that the signature
        covers the stored timestamp. */
    method SaveStamped(h: HmacHex, env: Option<string>, r: Render, now: DateTime)
      modifies this`signature, this`createdAt, this`adding
      ensures createdAt == if old(adding) then Some(now) else old(createdAt)
      ensures SignatureMatches(h, HmacSecret(env), r)
      ensures !adding
    {
      if adding {
        createdAt := Some(now);
      }
      adding := false;
      signature := Some(HmacSignature(h, env, Payload(r)));
    }
  }

  /** The first save of an audit event signs `created_at` as `"None"` and then
      stores a timestamp, so under a collision-free HMAC the stored signature
      does not match the stored record. */
  method FirstSaveLeavesStaleSignature(log: AuditLog, h: HmacHex, env: Option<string>, r: Render, now: DateTime)
    requires log.adding && log.createdAt == None && CollisionFree(h) && r.str(now) != "None"
    modifies log`signature, log`createdAt, log`adding
    ensures !log.SignatureMatches(h, HmacSecret(env), r)
  {
    log.Save(h, env, r, now);
    AuditPayloadCreatedAt(log.action, log.username, log.ipAddress, None, Some(now), r);
    var signed := AuditPayload(log.action, log.username, log.ipAddress, None, r);
    assert signed != log.Payload(r);
    assert h(HmacSecret(env), signed) != h(HmacSecret(env), log.Payload(r));
  }

  /** Saving a new audit event three times: the second save signs the
      stored timestamp and so changes the signature the first save left;
      from then on the record and its signature agree and further saves
      leave the signature as it is. */
  method RepeatedSavesSettle(log: AuditLog, h: HmacHex, env: Option<string>, r: Render,
                             now1: DateTime, now2: DateTime, now3: DateTime)
    returns (first: string, second: string, third: string)
    requires log.adding && log.createdAt == None && CollisionFree(h) && r.str(now1) != "None"
    modifies log`signature, log`createdAt, log`adding
    ensures first != second && second == third
    ensures log.createdAt == Some(now1) && log.SignatureMatches(h, HmacSecret(env), r)
  {
    log.Save(h, env, r, now1);
    first := log.signature.value;
    log.Save(h, env, r, now2);
    second := log.signature.value;
    log.Save(h, env, r, now3);
    third := log.signature.value;
    AuditPayloadCreatedAt(log.action, log.username, log.ipAddress, None, Some(now1), r);
  }

  /** With the timestamp fixed before signing, the first save leaves a
      signature that matches the stored record. */
  method FirstStampedSaveMatches(log: AuditLog, h: HmacHex, env: Option<string>, r: Render, now: DateTime)
    requires log.adding
    modifies log`signature, log`createdAt, log`adding
    ensures log.createdAt == Some(now) && log.SignatureMatches(h, HmacSecret(env), r)
  {
    log.SaveStamped(h, env, r, now);
  }
}
