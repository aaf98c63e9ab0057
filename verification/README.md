# Face-recognition attendance: access decisions and signed records

This project models the decision core of a Django attendance system. A camera device
posts a face image and a room code. The server embeds the face, picks the closest enrolled
student, decides whether that student may enter the room at this time of day, and records
a signed attendance row. The model covers:

- the room authorizer (`authorize_student`), an ordered deny-by-default chain with an
  optional time-of-day window;
- the `verify` endpoint:
  - its checks in the source's order (device key, JSON fields, room code, room lookup,
    data URL, decoding, embedding);
  - the best-match scan (`BestMatch`, a loop proved against the scan function `Scan`);
  - the threshold test;
  - the attendance status;
- the `enroll_face` endpoint's checks and what it stores;
- the face-box geometry of the ONNX engine:
  - MediaPipe clamping and the 40-pixel rejection;
  - Haar's largest-area pick;
  - the detector fallback chain and the minimum-size rejection;
  - the centred square fallback;
  - the empty-crop error;
- the record-signing and field-encryption glue:
  - `auth_app/models.py`: the `Attendance` and `AuditLog` classes, whose `save` updates
    `signature` in place;
  - `auth_app/utils.py`: the `None`-preserving Fernet wrappers, the signing-key fallback
    and `sign_dict`'s sorted-key canonical form.

The foreign primitives are parameters, and the model constrains them only where a lemma
says so:

- HMAC-SHA256 (RFC 2104, FIPS 180-4);
- Fernet;
- JSON serialisation (RFC 8259);
- Base64 (RFC 4648) with `cv2.imdecode`;
- the detectors and the ONNX network;
- the similarity function;
- the clock and the database tables.

Each such assumption is a predicate that the lemma requires:

- `Crypto.Sound`: the Fernet round trip, and tokens are never empty;
- `Crypto.CollisionFree`: an idealised HMAC;
- `Records.RenderSound`: the value renderings contain no `|`, and `isoformat()` tells
  datetimes apart (`Records.DecimalRenderIsSound` shows it can be met). Float `repr` is
  required to tell apart only the two confidences a lemma compares.

Modules, one per source file plus shared helpers:

- `Wrappers`: `Option` and `Result`;
- `Text`: Python's `str.strip` over the `isspace` code points, `split(sep, 1)`,
  f-string joining and integer rendering;
- `Crypto`: the primitive types and their axioms;
- `Authorization`: `auth_app/authorization.py`;
- `Matcher`: the scan of `auth_app/views.py`;
- `FaceBox`: `face_service/engine_onnx.py`;
- `Records`: `auth_app/models.py`;
- `AuditUtils`: `auth_app/utils.py`;
- `Views`: the request handling of `auth_app/views.py`.

Behaviours of the code worth noting:

- A MediaPipe box that is found but smaller than `min_size` sends the chain straight to
  the centred fallback. Haar is not consulted (`FaceBox.SmallFirstBoxSkipsHaar`).
- With `HMAC_SECRET` unset, `models.py` signs with the empty key instead of failing
  (`Records.UnsetSecretSignsWithEmptyKey`).
- A time window whose end precedes its start, as a night shift crossing midnight would
  have, never authorizes at any time of day (`Authorization.MidnightWindowNeverGrants`).
- `models.decrypt_text` lets `InvalidToken` escape. The model returns it as
  `Err(InvalidToken)`. `utils.decrypt_text` returns `None` instead.

Configuration facts the model takes as parameters:

- `FACE_MATCH_THRESHOLD` is assigned twice in `project/settings.py`, both times from the
  environment variable of that name. The second assignment wins, so when the variable is
  unset the threshold is 0.6, not 0.35. The model takes the threshold as a parameter.
- `AUDIT_SECRET_KEY` is not defined in `project/settings.py`, so `utils.hmac_signature`
  always falls back to `SECRET_KEY` (`AuditUtils.SigningKeyFallback`).

A time of day is a count of microseconds since midnight. Python's `datetime.time` has
microsecond resolution, and only the order of times matters.

## Model

| member | source | states |
|---|---|---|
| Authorization.AuthorizeStudent | auth_app/authorization.py:6-33 | access is granted exactly when the reason is `AUTHORIZED`, and exactly when a room is given, the first access record for (student, room) exists, allows entry and the time lies inside the window with both bounds included |
| Authorization.FindAccess | auth_app/authorization.py:18 | the lookup finds nothing exactly when no record matches the pair; what it finds is a matching record of the table |
| Authorization.NoRoomAlwaysRefused | auth_app/authorization.py:13-14 | without a room the outcome is `(False, NO_ROOM)` whatever the student, records and time |
| Authorization.AbsentRecordNeverGrants | auth_app/authorization.py:18-21 | with no record for the pair the outcome is `(False, NO_ROOM_ACCESS_RECORD)` |
| Authorization.DisallowedIgnoresWindow | auth_app/authorization.py:23-24 | a record with `allowed` false refuses with `ROOM_ACCESS_DENIED` at every time, whatever its window |
| Authorization.WindowReasons | auth_app/authorization.py:27-33 | for an allowing record: before the start gives `BEFORE_ALLOWED_TIME` (checked first), after the end gives `AFTER_ALLOWED_TIME`, otherwise `AUTHORIZED` |
| Authorization.BoundsInclusive | auth_app/authorization.py:27-31 | the start and the end of a window are themselves authorized |
| Authorization.MidnightWindowNeverGrants | auth_app/authorization.py:27-31 | a window whose end precedes its start never authorizes |
| Authorization.CodesDistinct | auth_app/authorization.py:14-33 | the six reason codes are pairwise distinct, so the code determines the reason |
| Matcher.BestMatch | auth_app/views.py:234-250 | the loop raises exactly when some eligible stored encoding differs in length from the probe (the dot product's `ValueError`); otherwise it ends in exactly the state of the scan `Scan` |
| Matcher.ScanUpToMeaning | auth_app/views.py:234-250 | after any prefix, the state is the sentinel with no student, or the first eligible student of maximal score, which is above -1.0 |
| Matcher.ScanSelectsFirstBest | auth_app/views.py:234-250 | a selected student is the first best eligible candidate; nothing is selected exactly when no eligible score exceeds -1.0, and then the score is -1.0 |
| Matcher.FirstBestUnique | auth_app/views.py:248-250 | the first best candidate is unique, so ties go to the earliest |
| Matcher.IneligibleNeverSelected | auth_app/views.py:237-240 | a student with a null or empty encoding is never selected |
| Matcher.NoCandidatesNoMatch | auth_app/views.py:234-235 | with no eligible candidate the result is no student and the score -1.0 |
| Matcher.MatchedMonotone | auth_app/views.py:254 | a match survives lowering the threshold, and a score equal to the threshold matches |
| Matcher.EmptySetNeverMatches | auth_app/views.py:254 | with no eligible candidate nothing matches, whatever the threshold |
| Views.RequireDeviceKey | auth_app/views.py:65-76 | an empty configured key accepts every request; a missing header is refused unless the configured key is blank |
| Views.DeviceKeyDecision | auth_app/views.py:65-76 | with a key configured, a request passes exactly when the key it sends is the stripped configured key surrounded by whitespace; every other key is refused |
| Views.DeviceKeyIgnoresPadding | auth_app/views.py:71-72 | whitespace around the sent key never changes the decision |
| Views.ConfiguredKeyAccepted | auth_app/views.py:67-76 | the configured key, padded or not, is accepted |
| Views.BlankKeyAcceptsMissingHeader | auth_app/views.py:67-72 | a configured key of whitespace only turns the check on yet accepts a request with no key |
| Views.LastIndex | auth_app/views.py:191-193 | the position found holds the key and no later member has it; nothing is found exactly when no member has the key, so the last duplicate wins |
| Views.Get | auth_app/views.py:191-193 | `data.get` finds nothing exactly when no member has the key, and otherwise returns the value of the last member with it |
| Views.RoomCodeIgnoresPadding | auth_app/views.py:193 | codes differing only by surrounding whitespace give the same room code |
| Views.FindRoom | auth_app/views.py:205-206 | the lookup fails exactly when no room has the code; what it finds has the code |
| Views.DataUrlPayload | auth_app/views.py:212 | a payload exists exactly when the value is a string containing a comma, and it is what follows the first comma |
| Views.DataUrlRoundTrip | auth_app/views.py:212 | a header without commas followed by a comma and any payload gives back that payload |
| Views.RejectionsRecordNothing | auth_app/views.py:180-231 | a request refused before the scan creates no attendance and gets the refusal's status and error |
| Views.EmptyRoomCodeRejectedBeforeLookup | auth_app/views.py:201-203 | an empty stripped room code gets 400 "room_code required" and the `NO_ROOM_CODE` log, and the rooms and decoder are not consulted |
| Views.UnknownRoomRejectedBeforeDecoding | auth_app/views.py:205-208 | an unknown room code gets 400 "Invalid room" and the `INVALID_ROOM` log, and the decoder and detectors are not consulted |
| Views.MissingCommaIsBadImageFormat | auth_app/views.py:212-219 | for a known room, an image string without a comma gets 400 "Bad image format" without reaching the decoder |
| Views.DecodeFailureMessages | auth_app/views.py:213-219 | an image `imdecode` rejects gets "Invalid image"; an exception while decoding gets "Bad image format" |
| Views.AttendanceExactlyOnMatch | auth_app/views.py:234-293 | a stored encoding whose length differs from the probe's ends the request in a 500 with nothing logged or recorded; otherwise attendance is created exactly when a student is selected with score at or above the threshold; it names the first best student, the room and the score, its status is `IN` exactly when the authorizer grants, and the reply carries the authorizer's reason; otherwise the reply is "Face not matched" with the `FACE_NOT_MATCHED` log |
| Views.NoEnrolledStudentNeverMatches | auth_app/views.py:237-293 | with no usable encoding on file, every admitted request ends as "Face not matched" without attendance |
| Views.MatchWithoutAccessIsForbidden | auth_app/views.py:255-263 | a matched student with no access record for the room is recorded as `FORBIDDEN` with reason `NO_ROOM_ACCESS_RECORD` |
| Views.EnrollStoresOnlyOnSuccess | auth_app/views.py:112-175 | a student is stored exactly when the response reports success, with the request's id and name and the embedding of its decoded image |
| Views.NotAnImageMessagesDiffer | auth_app/views.py:136-144 | the same undecodable image gets "Invalid image" from `verify` but "Bad image format" from `enroll_face` |
| FaceBox.Trunc | face_service/engine_onnx.py:58-61 | `int()` truncates toward zero |
| FaceBox.MediaPipeBox | face_service/engine_onnx.py:58-67 | a returned box lies inside the image with both sides at least 40; none is returned exactly when a clamped side is under 40 |
| FaceBox.LargestFace | face_service/engine_onnx.py:101 | the chosen detection has maximal area and is the first of that area |
| FaceBox.HaarBox | face_service/engine_onnx.py:86-102 | Haar yields a box exactly when it ran and found faces, and the box is the largest face converted from `(x, y, w, h)` to corners |
| FaceBox.FallbackSide | face_service/engine_onnx.py:127 | the side never exceeds the shorter image side and is zero exactly when that side is under 2 |
| FaceBox.FallbackBox | face_service/engine_onnx.py:126-132 | the fallback is a square of that side inside the image, centred with floor division |
| FaceBox.DetectSingleFaceBox | face_service/engine_onnx.py:109-132 | the result is the fallback or a box of both sides at least `min_size`; a MediaPipe box is returned when it is large enough; the result is always the fallback, MediaPipe's box, or Haar's box when MediaPipe found none |
| FaceBox.HaarOnlyAsFallback | face_service/engine_onnx.py:113-117 | when MediaPipe yields a box, the Haar stage does not affect the result |
| FaceBox.SmallFirstBoxSkipsHaar | face_service/engine_onnx.py:116-132 | a MediaPipe box under `min_size` leads to the centred fallback |
| FaceBox.HaarUsedWhenFirstFails | face_service/engine_onnx.py:116-124 | when MediaPipe yields nothing, a large-enough Haar box is returned, and otherwise the fallback |
| FaceBox.SliceIndex | face_service/engine_onnx.py:139 | a Python slice bound is clamped into the sequence |
| FaceBox.SliceLength | face_service/engine_onnx.py:139 | a slice never selects more than the sequence holds |
| FaceBox.CropRegion | face_service/engine_onnx.py:139 | the crop lies inside the image |
| FaceBox.WithinBoxCrops | face_service/engine_onnx.py:138-141 | a box inside the image crops to exactly its rows and columns, and succeeds exactly when both sides are positive |
| FaceBox.FallbackCropFailsOnlyOnTinyImages | face_service/engine_onnx.py:127-141 | the fallback crop fails exactly when the shorter image side is under 2 |
| FaceBox.MediaPipeBoxCrops | face_service/engine_onnx.py:58-67 | a MediaPipe box always crops |
| FaceBox.SelectedBoxCrops | face_service/engine_onnx.py:109-141 | on an image whose shorter side is at least 2 and with Haar boxes inside the image, the selected box always crops |
| FaceBox.EmbedFailsOnlyInNetwork | face_service/engine_onnx.py:168-178 | under the same conditions, embedding fails only in the network |
| Records.UnsetSecretSignsWithEmptyKey | auth_app/models.py:13-48 | with `HMAC_SECRET` unset or empty, signing uses the empty key |
| Records.FieldRoundTrip | auth_app/models.py:29-40 | decryption undoes encryption for every value, `None` and `""` included |
| Records.RoomFieldInjective | auth_app/models.py:138 | the room field determines the room, and `NONE` is only for a missing room |
| Records.IntToStringNoPipe | auth_app/models.py:139 | an integer rendering contains no `|` |
| Records.DecimalRenderIsSound | auth_app/models.py:139 | a rendering meeting `RenderSound` exists, so the lemmas that require it can be applied |
| Records.AttendancePayloadInjective | auth_app/models.py:139 | the attendance payload determines the student, room, timestamp, status and confidence |
| Records.Attendance.constructor | auth_app/models.py:122-135 | a new record holds the given fields and no signature |
| Records.Attendance.Save | auth_app/models.py:137-141 | the signature becomes the HMAC of the current payload, so it matches the record |
| Records.ResaveIsStable | auth_app/models.py:137-141 | saving an unchanged record twice gives the same signature |
| Records.RetagDevice | auth_app/models.py:133-140 | changing `device` keeps a saved signature valid, because the payload does not cover it |
| Records.AttendanceTamperEvident | auth_app/models.py:139-140 | with a collision-free HMAC, equal signatures mean equal signed fields |
| Records.AnonymousLooksLikeUserNone | auth_app/models.py:156 | an event without a user and one by a user named "None" have the same payload |
| Records.AuditPayloadCreatedAt | auth_app/models.py:156 | two audit payloads differing only in `created_at` are equal exactly when its renderings are |
| Records.AuditLog.constructor | auth_app/models.py:146-153 | a new event holds the given fields, no signature and no `created_at` |
| Records.AuditLog.Save | auth_app/models.py:153-158 | as written: the signature covers the `created_at` held before the save, and the first save then stamps `created_at` |
| Records.AuditLog.SaveStamped | auth_app/models.py:153-158 | corrected: with `created_at` stamped before signing, the signature matches the stored event |
| Records.FirstSaveLeavesStaleSignature | auth_app/models.py:153-158 | as written, a first save leaves a signature that does not match the stored event |
| Records.RepeatedSavesSettle | auth_app/models.py:153-158 | as written, the second save of a new event changes its signature, and a third save leaves it as the second left it, now matching the stored event |
| Records.FirstStampedSaveMatches | auth_app/models.py:153-158 | corrected, a first save leaves a matching signature |
| AuditUtils.DerivedKeyIsStable | auth_app/utils.py:10-15 | without `FERNET_KEY` the key depends on `SECRET_KEY` alone, so it is the same across restarts |
| AuditUtils.CodecRoundTrip | auth_app/utils.py:17-29 | decryption undoes encryption for every value, `None` included |
| AuditUtils.EmptyTextEncrypted | auth_app/utils.py:17-21 | the empty text is encrypted here, while the models' codec passes it through |
| AuditUtils.SigningKeyFallback | auth_app/utils.py:32-38 | with `AUDIT_SECRET_KEY` unset or empty the signature is the HMAC under `SECRET_KEY`; with it set, `SECRET_KEY` does not affect the signature |
| AuditUtils.SortItems | auth_app/utils.py:41 | sorting keeps exactly the items of the dictionary |
| AuditUtils.SortItemsSorted | auth_app/utils.py:41 | the sorted items are in strictly increasing key order |
| AuditUtils.SortedUnique | auth_app/utils.py:41 | two strictly key-sorted item lists with the same items are equal |
| AuditUtils.SignDictOrderIndependent | auth_app/utils.py:40-42 | dictionaries with the same key/value pairs sign identically, whatever their insertion order |
| Text.Strip | auth_app/views.py:72 | the result is a slice of the text with only whitespace before and after it, neither starts nor ends with whitespace, and is empty exactly when the text is all whitespace |
| Text.StripIdempotent | auth_app/views.py:72 | stripping twice is stripping once |
| Text.StripIgnoresPadding | auth_app/views.py:72 | whitespace added around a text does not change its stripped form |
| Text.SplitOnce | auth_app/views.py:212 | the split succeeds exactly when the separator occurs, and the parts rebuild the text around its first occurrence |
| Text.SplitJoin | auth_app/views.py:212 | splitting a joined pair whose head has no separator gives the pair back |
| Text.JoinInjective | auth_app/models.py:139 | pipe-joined fields without pipes determine the fields |
| Text.IntToStringInjective | auth_app/models.py:139 | distinct integers render differently |

## Left out

- ONNX inference, embedding normalisation and cosine similarity (`face_service/engine_onnx.py:150-191`) are floating-point work over a foreign runtime. The network is `Vision.infer`, and similarity is a function parameter whose values only need an order. The `ValueError` of a dot product between vectors of different lengths is modelled (`Matcher.BestMatch`, `Views.Decide`); the error page's content is not.
- MediaPipe and Haar internals are foreign libraries, so their results are inputs. This covers the choice of the highest-scoring detection at `face_service/engine_onnx.py:55`, the cv2 resize and colour conversion, and the [-1, 1] rescale.
- FaceBox.FallbackSide: `int(min(h, w) * 0.6)` is a float product; the model uses the exact `(3 * m) / 5` and does not capture any side length where the float rounding of `0.6` would change the truncated result.
- Records.AttendanceTamperEvident and Records.AttendancePayloadInjective: confidences are reals, not IEEE doubles, so Python's `repr`, which tells distinct non-NaN doubles apart, is a parameter. The lemmas require it to tell apart only the two confidences they compare.
- `detect_and_crop_face` is not used by the endpoints and is not modelled.
- `get_arcface` is a process-wide lazy cache around I/O, so it is left out. Whether the model loaded is the parameter `Env.modelLoaded`.
- The `probe is None` branch of `verify` is unreachable, because `embed_from_rgb` returns an array or raises.
- Response fields built from floats or the clock (`confidence` rounded to 3 places, `time`) are left out, as are the extra data entries of the log calls. A log call is modelled by its action and `reason` entry.
- Views.Enroll: `update_or_create` is modelled as the row it writes; the ORM's coercion of non-string JSON ids and names is not modelled.
- Decoding is the parameter `Env.decode`. This covers Base64, `np.frombuffer`, `cv2.imdecode` and the colour conversion. Stored encodings are modelled as decoded vectors, so a byte length that is not a multiple of 4 (where `np.frombuffer` raises) is not modelled.
- AuditUtils.SignDict: dictionary keys are text only. `json.dumps(sort_keys=True)` turns non-text keys into strings and raises `TypeError` when key types are mixed; neither is modelled.
- Text is `seq<char>`, so UTF-8 encoding and decoding are folded into the primitives. The same goes for the `bytes` form of `AUDIT_SECRET_KEY`.
- HMAC, Fernet and JSON serialisation are opaque. Their guarantees appear only as the predicates `Crypto.Sound` (round trip, non-empty tokens) and `Crypto.CollisionFree`. Fernet's tamper detection is not modelled beyond `decrypt` returning `None`.
- JSON parsing is not modelled: a request body is given as a parsed `Json` value, or as nothing when it is not valid UTF-8 JSON.
- HTTP, persistence and UI are left out: register/login/pages, `attendance_api`, urls, admin, serializers, `accounting.py`, `signals.py`, the backup command, `camera_client.py` and the settings. The `super().save()` writes are left out too, except that the first save stamps `created_at`.

## Findings

| source | as written | input that shows it | evidently intended | confidence | as-written member | corrected member |
|---|---|---|---|---|---|---|
| auth_app/models.py:153-158 | `AuditLog.save` builds the payload before `super().save()` fills `created_at` (auto_now_add), so a new event is signed with `created_at` rendered as "None" | any new `AuditLog`, e.g. action "LOGIN_FAILED" saved at any time whose rendering is not "None" | sign the event with the `created_at` that is stored | high (not executed) | Records.FirstSaveLeavesStaleSignature | Records.FirstStampedSaveMatches |
