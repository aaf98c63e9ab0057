/** Room access control: the ordered deny-by-default decision of
    `authorize_student` over the student's room-access record and the local
    time of day. */
module Authorization {
  import opened Wrappers

  /** Python's `datetime.time` has microsecond resolution; a time of day is
      the number of microseconds since midnight. */
  const MicrosPerDay: int := 86_400_000_000

  type TimeOfDay = t: int | 0 <= t < MicrosPerDay

  /** A `RoomAccess` row: at most one per (student, room), by the table's
      uniqueness constraint. An unset bound is `None`. */
  datatype RoomAccess = RoomAccess(
    studentPk: int,
    roomPk: int,
    allowed: bool,
    allowedFrom: Option<TimeOfDay>,
    allowedTo: Option<TimeOfDay>)

  datatype Reason =
    | NoRoom
    | NoRoomAccessRecord
    | RoomAccessDenied
    | BeforeAllowedTime
    | AfterAllowedTime
    | Authorized

  /** The reason code returned to callers and written to the audit log. */
  function Code(r: Reason): string {
    match r
    case NoRoom => "NO_ROOM"
    case NoRoomAccessRecord => "NO_ROOM_ACCESS_RECORD"
    case RoomAccessDenied => "ROOM_ACCESS_DENIED"
    case BeforeAllowedTime => "BEFORE_ALLOWED_TIME"
    case AfterAllowedTime => "AFTER_ALLOWED_TIME"
    case Authorized => "AUTHORIZED"
  }

  /** The pair `(is_allowed, reason)` that `authorize_student` returns. */
  datatype Outcome = Outcome(granted: bool, reason: Reason)

  predicate Matches(a: RoomAccess, studentPk: int, roomPk: int) {
    a.studentPk == studentPk && a.roomPk == roomPk
  }

  /** `RoomAccess.objects.filter(student=..., room=...).first()`: the first
      matching row of the table, in the table's order. */
  function FindAccess(records: seq<RoomAccess>, studentPk: int, roomPk: int): (r: Option<RoomAccess>)
    ensures r.None? <==> forall i :: 0 <= i < |records| ==> !Matches(records[i], studentPk, roomPk)
    ensures r.Some? ==> r.value in records && Matches(r.value, studentPk, roomPk)
  {
    if |records| == 0 then None
    else if Matches(records[0], studentPk, roomPk) then Some(records[0])
    else
      var rest := FindAccess(records[1..], studentPk, roomPk);
      assert forall i :: 1 <= i < |records| ==> records[i] == records[1..][i - 1];
      rest
  }

  /** The access policy stated declaratively: the record allows entry and the
      time lies inside the window, both bounds included. */
  predicate Permits(a: RoomAccess, now: TimeOfDay) {
    && a.allowed
    && (a.allowedFrom.Some? ==> a.allowedFrom.value <= now)
    && (a.allowedTo.Some? ==> now <= a.allowedTo.value)
  }

  /** `authorize_student(student, room)`: `room` is `None` when there is no
      room; `records` is the `RoomAccess` table and `now` the local time of
      day, both read by the source from the database and the clock. */
  function AuthorizeStudent(studentPk: int, room: Option<int>, records: seq<RoomAccess>, now: TimeOfDay): (o: Outcome)
    ensures o.granted <==> o.reason == Authorized
    ensures o.granted <==>
      room.Some? && FindAccess(records, studentPk, room.value).Some?
      && Permits(FindAccess(records, studentPk, room.value).value, now)
  {
    if room.None? then Outcome(false, NoRoom)
    else
      var access := FindAccess(records, studentPk, room.value);
      if access.None? then Outcome(false, NoRoomAccessRecord)
      else if !access.value.allowed then Outcome(false, RoomAccessDenied)
      else if access.value.allowedFrom.Some? && now < access.value.allowedFrom.value then Outcome(false, BeforeAllowedTime)
      else if access.value.allowedTo.Some? && now > access.value.allowedTo.value then Outcome(false, AfterAllowedTime)
      else Outcome(true, Authorized)
  }

  /** A missing room is refused whatever the student, records and time. */
  lemma NoRoomAlwaysRefused(studentPk: int, records: seq<RoomAccess>, now: TimeOfDay)
    ensures AuthorizeStudent(studentPk, None, records, now) == Outcome(false, NoRoom)
  {
  }

  /** Deny by default: without a record for (student, room) access is never
      granted, and the reason says so. */
  lemma AbsentRecordNeverGrants(studentPk: int, roomPk: int, records: seq<RoomAccess>, now: TimeOfDay)
    requires forall i :: 0 <= i < |records| ==> !Matches(records[i], studentPk, roomPk)
    ensures AuthorizeStudent(studentPk, Some(roomPk), records, now) == Outcome(false, NoRoomAccessRecord)
  {
  }

  /** A record with `allowed` false refuses, whatever its time window. */
  lemma DisallowedIgnoresWindow(studentPk: int, roomPk: int, records: seq<RoomAccess>, now: TimeOfDay)
    requires FindAccess(records, studentPk, roomPk).Some?
    requires !FindAccess(records, studentPk, roomPk).value.allowed
    ensures AuthorizeStudent(studentPk, Some(roomPk), records, now) == Outcome(false, RoomAccessDenied)
  {
  }

  /** The reasons for an existing, allowed record, in the order they are
      tested: too early is reported before too late, and both window bounds
      are inclusive. */
  lemma WindowReasons(studentPk: int, roomPk: int, records: seq<RoomAccess>, now: TimeOfDay)
    requires FindAccess(records, studentPk, roomPk).Some?
    requires FindAccess(records, studentPk, roomPk).value.allowed
    ensures var a := FindAccess(records, studentPk, roomPk).value;
      var o := AuthorizeStudent(studentPk, Some(roomPk), records, now);
      && (o.reason == BeforeAllowedTime <==> a.allowedFrom.Some? && now < a.allowedFrom.value)
      && (o.reason == AfterAllowedTime <==>
            (a.allowedFrom.None? || a.allowedFrom.value <= now) && a.allowedTo.Some? && now > a.allowedTo.value)
      && (o.reason == Authorized <==> Permits(a, now))
  {
  }

  /** Both ends of a window admit: arriving exactly at `allowed_from` or
      exactly at `allowed_to` is authorized. */
  lemma BoundsInclusive(studentPk: int, roomPk: int, records: seq<RoomAccess>)
    requires FindAccess(records, studentPk, roomPk).Some?
    requires var a := FindAccess(records, studentPk, roomPk).value;
      a.allowed && a.allowedFrom.Some? && a.allowedTo.Some? && a.allowedFrom.value <= a.allowedTo.value
    ensures var a := FindAccess(records, studentPk, roomPk).value;
      && AuthorizeStudent(studentPk, Some(roomPk), records, a.allowedFrom.value).granted
      && AuthorizeStudent(studentPk, Some(roomPk), records, a.allowedTo.value).granted
  {
  }

  /** A window that would cross midnight (`allowed_to` earlier than
      `allowed_from`) is not treated as wrapping: it admits at no time of
      day. */
  lemma MidnightWindowNeverGrants(studentPk: int, roomPk: int, records: seq<RoomAccess>, now: TimeOfDay)
    requires FindAccess(records, studentPk, roomPk).Some?
    requires var a := FindAccess(records, studentPk, roomPk).value;
      a.allowedFrom.Some? && a.allowedTo.Some? && a.allowedTo.value < a.allowedFrom.value
    ensures !AuthorizeStudent(studentPk, Some(roomPk), records, now).granted
  {
  }

  /** The reason codes are pairwise distinct, so the code names the reason. */
  lemma CodesDistinct(r1: Reason, r2: Reason)
    requires Code(r1) == Code(r2)
    ensures r1 == r2
  {
  }
}
