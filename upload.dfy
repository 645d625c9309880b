/**
 * `POST /upload`: the bearer token and the content type of the request are
 * checked (`Validators.auth`, `Validators.contentType`), then the key and
 * the file of the JSON body, the size estimate of the base64 text, its
 * decoding, the no-overwrite rule, and finally the write to the bucket.
 */
module Upload {
  import opened Wrappers
  import opened JsValue
  import opened Text
  import opened Base64

  const MaxKeyBytes: nat := 1024
  const MaxUploadBytes: nat := 10 * 1024 * 1024
  const DefaultContentType: string := "application/octet-stream"

  // ---------------------------------------------------------------------
  // Validators.auth

  /** The token `Validators.auth` reads from the `Authorization` header
      (`""` when absent): the trimmed rest after a "Bearer " prefix, or
      `null` without one. */
  function BearerToken(header: Option<string>): (t: Option<string>)
    ensures var auth := if header.Some? then header.value else "";
      && (t.Some? <==> StartsWith(auth, "Bearer "))
      && (t.Some? ==> t.value == Trim(auth[7..]))
  {
    var auth := if header.Some? then header.value else "";
    if StartsWith(auth, "Bearer ") then Some(Trim(auth[7..])) else None
  }

  /** `token === env.UPLOAD_TOKEN`, with `uploadToken` the configured secret
      (`None` when unset): a missing prefix (`null`) never matches, not even
      an unset secret (`undefined`). */
  predicate Authorized(header: Option<string>, uploadToken: Option<string>)
    ensures var auth := if header.Some? then header.value else "";
      Authorized(header, uploadToken) <==>
        uploadToken.Some? && StartsWith(auth, "Bearer ") && uploadToken.value == Trim(auth[7..])
  {
    var t := BearerToken(header);
    t.Some? && uploadToken == t
  }

  /** A client sending the configured token after "Bearer ", with any white
      space around it, is let in. */
  lemma BearerHeaderAccepted(token: string, lead: string, trail: string)
    requires token != [] && !IsJsSpace(token[0]) && !IsJsSpace(token[|token| - 1])
    requires forall k :: 0 <= k < |lead| ==> IsJsSpace(lead[k])
    requires forall k :: 0 <= k < |trail| ==> IsJsSpace(trail[k])
    ensures Authorized(Some("Bearer " + lead + token + trail), Some(token))
  {
    var h := "Bearer " + lead + token + trail;
    assert h[..7] == "Bearer ";
    assert h[7..] == lead + token + trail;
    TrimSurrounded(lead, token, trail);
  }

  /** Nobody is let in when no token is configured, or when the configured
      token begins or ends with white space, which a trimmed header can never
      match. */
  lemma UnmatchableTokens(header: Option<string>, uploadToken: Option<string>)
    requires uploadToken.None? || (uploadToken.value != [] &&
      (IsJsSpace(uploadToken.value[0]) || IsJsSpace(uploadToken.value[|uploadToken.value| - 1])))
    ensures !Authorized(header, uploadToken)
  {
  }

  // ---------------------------------------------------------------------
  // Validators.contentType

  /** The media type the upload demands. */
  const JsonType: string := "application/json"

  /** It is already in lower case. */
  lemma JsonTypeIsLower()
    ensures AsciiLower(JsonType) == JsonType
  {
    assert JsonType == "application/json";
    LowerKept("application/json");
  }

  /** `String(ct || "").toLowerCase().includes("application/json")` for the
      `Content-Type` header, `""` when absent: "application/json", in any
      mix of ASCII case, occurs somewhere in the header. */
  predicate ContentTypeAccepted(header: Option<string>)
    ensures var ct := if header.Some? then header.value else "";
      ContentTypeAccepted(header) <==> exists i :: OccursIgnoringCaseAt(ct, JsonType, i)
  {
    var ct := if header.Some? then header.value else "";
    JsonTypeIsLower();
    ContainsLowered(ct, JsonType);
    Contains(AsciiLower(ct), JsonType)
  }

  // ---------------------------------------------------------------------
  // The key

  datatype UploadError =
    | Unauthorized
    | ContentTypeMustBeJson
    | MissingFileOrKey
    | BadKeyLength
    | BadKeyPath
    | BadKeyControlChars
    | PayloadTooLarge
    | BadBase64(cause: DecodeError)
    | ObjectAlreadyExists
    | R2HeadError
    | R2PutError
    | UnhandledException

  /** 401 for a bad token, 409 for an existing object, 413 for an oversized
      file, 500 for a failed bucket call or an exception the handler does not
      catch, 400 for every other refusal. */
  function UploadStatus(e: UploadError): (status: int)
    ensures status == 401 <==> e == Unauthorized
    ensures status == 409 <==> e == ObjectAlreadyExists
    ensures status == 413 <==> e == PayloadTooLarge
    ensures status == 500 <==> e == R2HeadError || e == R2PutError || e == UnhandledException
    ensures status == 400 <==>
      || e == ContentTypeMustBeJson || e == MissingFileOrKey
      || e == BadKeyLength || e == BadKeyPath || e == BadKeyControlChars || e.BadBase64?
  {
    match e
    case Unauthorized => 401
    case ContentTypeMustBeJson => 400
    case MissingFileOrKey => 400
    case BadKeyLength => 400
    case BadKeyPath => 400
    case BadKeyControlChars => 400
    case PayloadTooLarge => 413
    case BadBase64(_) => 400
    case ObjectAlreadyExists => 409
    case R2HeadError => 500
    case R2PutError => 500
    case UnhandledException => 500
  }

  /** `/[\u0000-\u001F\u007F]/` */
  predicate IsControl(c: char) {
    c as int < 0x20 || c as int == 0x7F
  }

  /** The length rule: 1 to 1024 bytes of UTF-8. */
  predicate KeyLengthOk(key: string) {
    key != [] && Utf8Length(key) <= MaxKeyBytes
  }

  /** The path rule: no '/' at either end, no two dots in a row. */
  predicate KeyPathOk(key: string) {
    && (key != [] ==> key[0] != '/' && key[|key| - 1] != '/')
    && (forall k :: 0 <= k < |key| - 1 ==> !(key[k] == '.' && key[k + 1] == '.'))
  }

  /** No character in U+0000..U+001F or U+007F. */
  predicate NoControlChars(key: string) {
    forall k :: 0 <= k < |key| ==> !IsControl(key[k])
  }

  /** The key rule, character by character. */
  predicate KeyAcceptable(key: string) {
    KeyLengthOk(key) && KeyPathOk(key) && NoControlChars(key)
  }

  /** `key.includes("..")`, spelled out: two dots in a row somewhere. */
  lemma DoubleDots(key: string)
    ensures Contains(key, "..") <==> exists k :: 0 <= k < |key| - 1 && key[k] == '.' && key[k + 1] == '.'
  {
    if Contains(key, "..") {
      var k :| 0 <= k <= |key| && OccursAt(key, "..", k);
      assert key[k..k + 2][0] == key[k] && key[k..k + 2][1] == key[k + 1];
    }
    if exists k :: 0 <= k < |key| - 1 && key[k] == '.' && key[k + 1] == '.' {
      var k :| 0 <= k < |key| - 1 && key[k] == '.' && key[k + 1] == '.';
      assert key[k..k + 2] == "..";
      assert OccursAt(key, "..", k);
    }
  }

  /** The three key checks of the handler, in order: the first rule the
      key breaks names the error. */
  function KeyProblem(key: string): (r: Option<UploadError>)
    ensures r == Some(BadKeyLength) <==> !KeyLengthOk(key)
    ensures r == Some(BadKeyPath) <==> KeyLengthOk(key) && !KeyPathOk(key)
    ensures r == Some(BadKeyControlChars) <==> KeyLengthOk(key) && KeyPathOk(key) && !NoControlChars(key)
    ensures r.None? <==> KeyAcceptable(key)
    ensures r.Some? ==> r.value in {BadKeyLength, BadKeyPath, BadKeyControlChars}
  {
    if key == "" || Utf8Length(key) > MaxKeyBytes then Some(BadKeyLength)
    else
      assert StartsWith(key, "/") <==> key[0] == '/' by {
        assert key[..1] == [key[0]];
      }
      assert EndsWith(key, "/") <==> key[|key| - 1] == '/' by {
        assert key[|key| - 1..] == [key[|key| - 1]];
      }
      DoubleDots(key);
      if StartsWith(key, "/") || EndsWith(key, "/") || Contains(key, "..") then Some(BadKeyPath)
      else if exists k :: 0 <= k < |key| && IsControl(key[k]) then Some(BadKeyControlChars)
      else None
  }

  // ---------------------------------------------------------------------
  // The other fields

  /** `String(overwrite ?? "false").toLowerCase() === "true"` */
  function AllowOverwrite(v: Value): (b: bool)
    ensures b <==> SameIgnoringAsciiCase(ToJsString(Coalesce(v, JStr("false"))), "true")
    ensures v.JUndef? || v.JNull? ==> !b
  {
    LowerMatches(ToJsString(Coalesce(v, JStr("false"))), "true");
    AsciiLower(ToJsString(Coalesce(v, JStr("false")))) == "true"
  }

  /** `[\w.+-]` */
  predicate TypeChar(c: char) {
    'A' <= c <= 'Z' || 'a' <= c <= 'z' || '0' <= c <= '9' || c == '_' || c == '.' || c == '+' || c == '-'
  }

  /** `/^[\w.+-]+\/[\w.+-]+$/.test(s)`: one '/' with a non-empty run of
      type characters on each side. */
  predicate MimeShaped(s: string) {
    exists i :: 0 < i < |s| - 1 && s[i] == '/' && forall k :: 0 <= k < |s| && k != i ==> TypeChar(s[k])
  }

  /** The `contentType` stored with the object: the request's when it is a
      string of the right shape, `application/octet-stream` otherwise. */
  function ContentTypeOrDefault(v: Value): (r: string)
    ensures MimeShaped(r)
    ensures v.JStr? && MimeShaped(v.s) ==> r == v.s
    ensures !(v.JStr? && MimeShaped(v.s)) ==> r == DefaultContentType
  {
    if v.JStr? && MimeShaped(v.s) then v.s
    else
      assert DefaultContentType[11] == '/';
      assert forall k :: 0 <= k < |DefaultContentType| && k != 11 ==> TypeChar(DefaultContentType[k]);
      DefaultContentType
  }

  /** `fileBase64.length`: the UTF-16 length of a string, the number of
      items of an array; `undefined` for the other values. */
  function LengthOf(v: Value): (r: Option<nat>)
    ensures r.Some? <==> v.JStr? || v.JArr?
    ensures v.JStr? ==> |v.s| <= r.value <= 2 * |v.s|
    ensures v.JArr? ==> r.value == |v.items|
  {
    match v
    case JStr(s) => Some(Utf16Length(s))
    case JArr(items) => Some(|items|)
    case _ => None
  }

  /** `Math.floor(fileBase64.length * 3 / 4) > MAX_BYTES`; an undefined
      length makes the comparison false. */
  function TooLarge(v: Value): (r: bool)
    ensures r <==> LengthOf(v).Some? && LengthOf(v).value > 13_981_014
  {
    var len := LengthOf(v);
    len.Some? && len.value * 3 / 4 > MaxUploadBytes
  }

  // ---------------------------------------------------------------------
  // The handler

  /** What the handler reads of the request. */
  datatype UploadRequest = UploadRequest(authorization: Option<string>, contentType: Option<string>, body: Value)

  /** An object of the bucket: its bytes and its HTTP content type. */
  datatype StoredObject = StoredObject(bytes: seq<byte>, contentType: string)

  datatype UploadResponse = Refused(error: UploadError, status: int) | Uploaded(key: string, size: nat)

  /** `(body || {}).fileBase64` */
  function FileField(body: Value): Value {
    Field(Or(body, JObj([])), "fileBase64")
  }

  /** `(key || "").toString().trim()` for `(body || {}).key`: "" for a
      missing or falsy key, the trim of a string key, and never white space
      at either end. */
  function RawKey(body: Value): (r: string)
    ensures !Truthy(Field(body, "key")) ==> r == ""
    ensures Field(body, "key").JStr? ==> r == Trim(Field(body, "key").s)
    ensures r != [] ==> !IsJsSpace(r[0]) && !IsJsSpace(r[|r| - 1])
  {
    var member := Field(Or(body, JObj([])), "key");
    assert member == Field(body, "key");
    var text := ToJsString(Or(member, JStr("")));
    assert !Truthy(member) ==> text == "";
    assert member.JStr? ==> text == member.s;
    Trim(text)
  }

  /** `(key || "").toString()` throws, which the worker's outer handler
      answers with 500 unhandled_exception: the `|| ""` makes no
      difference, since only objects and arrays throw. */
  predicate KeyThrows(body: Value)
    ensures KeyThrows(body) <==> StringThrows(Field(body, "key"))
  {
    var member := Field(Or(body, JObj([])), "key");
    assert member == Field(body, "key");
    StringThrows(Or(member, JStr("")))
  }

  /** `String(overwrite ?? "false")` throws, likewise answered with 500
      unhandled_exception. */
  predicate OverwriteThrows(body: Value)
    ensures OverwriteThrows(body) <==> StringThrows(Field(body, "overwrite"))
  {
    var member := Field(Or(body, JObj([])), "overwrite");
    assert member == Field(body, "overwrite");
    StringThrows(Coalesce(member, JStr("false")))
  }

  /** Every check of the handler passes for the request, given the
      canonical form `canon` of the key (`decodeURIComponent` when it
      succeeds, then NFC), whether the bucket's `head` throws and whether its
      `put` succeeds. */
  predicate UploadAccepted(req: UploadRequest, uploadToken: Option<string>, canon: string -> string,
                           objects: map<string, StoredObject>, headThrows: bool, putSucceeds: bool)
  {
    var body, key := req.body, canon(RawKey(req.body));
    var allow := AllowOverwrite(Field(Or(body, JObj([])), "overwrite"));
    && Authorized(req.authorization, uploadToken)
    && ContentTypeAccepted(req.contentType)
    && !KeyThrows(body)
    && Truthy(FileField(body)) && RawKey(body) != ""
    && KeyAcceptable(key)
    && !OverwriteThrows(body)
    && !TooLarge(FileField(body))
    && DecodeFlexible(FileField(body)).Ok?
    && (!allow ==> !headThrows && key !in objects)
    && putSucceeds
  }

  /** What the end of the handler does with the decoding outcome `decoded`
      of the file: a refusal for bad base64, the `head` lookup when
      overwriting is not allowed, then the `put` of the bytes with
      `contentType` under `key`. The second component is the bucket
      afterwards. */
  function StoreOutcome(key: string, decoded: Result<seq<byte>, DecodeError>, allow: bool, contentType: string,
                        objects: map<string, StoredObject>, headThrows: bool, putSucceeds: bool)
    : (out: (UploadResponse, map<string, StoredObject>))
    ensures out.0.Refused? ==> out.1 == objects && out.0.status == UploadStatus(out.0.error)
    ensures decoded.Err? ==> out.0 == Refused(BadBase64(decoded.error), 400)
    ensures out.0 == Refused(R2HeadError, 500) <==> decoded.Ok? && !allow && headThrows
    ensures out.0 == Refused(ObjectAlreadyExists, 409) <==> decoded.Ok? && !allow && !headThrows && key in objects
    ensures out.0 == Refused(R2PutError, 500) <==>
      decoded.Ok? && (!allow ==> !headThrows && key !in objects) && !putSucceeds
    ensures out.0.Uploaded? <==> decoded.Ok? && (!allow ==> !headThrows && key !in objects) && putSucceeds
    ensures out.0.Uploaded? ==>
      out == (Uploaded(key, |decoded.value|), objects[key := StoredObject(decoded.value, contentType)])
  {
    if decoded.Err? then (Refused(BadBase64(decoded.error), 400), objects)
    else if !allow && headThrows then (Refused(R2HeadError, 500), objects)
    else if !allow && key in objects then (Refused(ObjectAlreadyExists, 409), objects)
    else if !putSucceeds then (Refused(R2PutError, 500), objects)
    else (Uploaded(key, |decoded.value|), objects[key := StoredObject(decoded.value, contentType)])
  }

  /** What the handler has gathered once the request passed its checks:
      the canonical key, the file field, the overwrite flag and the content
      type to store. */
  datatype Checked = Checked(key: string, file: Value, allow: bool, contentType: string)

  /** The file or the key is missing: `!fileBase64 || !key`. */
  predicate Missing(body: Value) {
    !Truthy(FileField(body)) || RawKey(body) == ""
  }

  /** The checks of the request, in the handler's order, up to the size
      estimate; the first that fails gives the error, and a conversion that
      throws ends the handler with unhandled_exception. `canon` is the
      canonical form of the key (`decodeURIComponent` when it succeeds, then
      NFC). */
  function Screen(req: UploadRequest, uploadToken: Option<string>, canon: string -> string)
    : (r: Result<Checked, UploadError>)
    ensures r == Err(Unauthorized) <==> !Authorized(req.authorization, uploadToken)
    ensures r == Err(ContentTypeMustBeJson) <==>
      Authorized(req.authorization, uploadToken) && !ContentTypeAccepted(req.contentType)
    ensures r == Err(UnhandledException) <==>
      && Authorized(req.authorization, uploadToken) && ContentTypeAccepted(req.contentType)
      && (|| KeyThrows(req.body)
          || (!Missing(req.body) && KeyAcceptable(canon(RawKey(req.body))) && OverwriteThrows(req.body)))
    ensures r == Err(MissingFileOrKey) <==>
      && Authorized(req.authorization, uploadToken) && ContentTypeAccepted(req.contentType)
      && !KeyThrows(req.body) && Missing(req.body)
    ensures var problem := KeyProblem(canon(RawKey(req.body)));
      (&& Authorized(req.authorization, uploadToken) && ContentTypeAccepted(req.contentType)
       && !KeyThrows(req.body) && !Missing(req.body) && problem.Some?) ==> r == Err(problem.value)
    ensures r == Err(PayloadTooLarge) <==>
      && Authorized(req.authorization, uploadToken) && ContentTypeAccepted(req.contentType)
      && !KeyThrows(req.body) && !Missing(req.body)
      && KeyAcceptable(canon(RawKey(req.body))) && !OverwriteThrows(req.body) && TooLarge(FileField(req.body))
    ensures r.Ok? <==>
      && Authorized(req.authorization, uploadToken)
      && ContentTypeAccepted(req.contentType)
      && !KeyThrows(req.body)
      && Truthy(FileField(req.body)) && RawKey(req.body) != ""
      && KeyAcceptable(canon(RawKey(req.body)))
      && !OverwriteThrows(req.body)
      && !TooLarge(FileField(req.body))
    ensures r.Ok? ==> r.value == Checked(canon(RawKey(req.body)), FileField(req.body),
      AllowOverwrite(Field(Or(req.body, JObj([])), "overwrite")),
      ContentTypeOrDefault(Field(Or(req.body, JObj([])), "contentType")))
  {
    var body := Or(req.body, JObj([]));
    var file := FileField(req.body);
    if !Authorized(req.authorization, uploadToken) then Err(Unauthorized)
    else if !ContentTypeAccepted(req.contentType) then Err(ContentTypeMustBeJson)
    else if KeyThrows(req.body) then Err(UnhandledException)
    else if !Truthy(file) || RawKey(req.body) == "" then Err(MissingFileOrKey)
    else
      var key := canon(RawKey(req.body));
      var problem := KeyProblem(key);
      if problem.Some? then Err(problem.value)
      else if OverwriteThrows(req.body) then Err(UnhandledException)
      else if TooLarge(file) then Err(PayloadTooLarge)
      else Ok(Checked(key, file, AllowOverwrite(Field(body, "overwrite")), ContentTypeOrDefault(Field(body, "contentType"))))
  }

  /** The response and the new bucket of `POST /upload` (the bucket binding
      present). `headThrows` and `putSucceeds` stand for the outcome of the
      bucket's calls. */
  function UploadOutcome(req: UploadRequest, uploadToken: Option<string>, canon: string -> string,
                         objects: map<string, StoredObject>, headThrows: bool, putSucceeds: bool)
    : (out: (UploadResponse, map<string, StoredObject>))
    ensures out.0.Refused? ==> out.1 == objects && out.0.status == UploadStatus(out.0.error)
    ensures out.0.Uploaded? ==>
      KeyAcceptable(out.0.key) && out.0.key in out.1 && out.1 == objects[out.0.key := out.1[out.0.key]]
  {
    var screened := Screen(req, uploadToken, canon);
    if screened.Err? then (Refused(screened.error, UploadStatus(screened.error)), objects)
    else
      var c := screened.value;
      assert KeyAcceptable(c.key);
      var decoded := DecodeFlexible(c.file);
      var out := StoreOutcome(c.key, decoded, c.allow, c.contentType, objects, headThrows, putSucceeds);
      assert out.0.Uploaded? ==> out.1 == objects[c.key := StoredObject(decoded.value, c.contentType)];
      out
  }

  /** A request the checks refuse gets the error's response. */
  lemma RefusedOutcome(req: UploadRequest, uploadToken: Option<string>, canon: string -> string,
                       objects: map<string, StoredObject>, headThrows: bool, putSucceeds: bool)
    requires Screen(req, uploadToken, canon).Err?
    ensures var e := Screen(req, uploadToken, canon).error;
      UploadOutcome(req, uploadToken, canon, objects, headThrows, putSucceeds) == (Refused(e, UploadStatus(e)), objects)
  {
  }

  /** A request that passes the checks gets what storing the decoded file
      gives. */
  lemma CheckedOutcome(req: UploadRequest, uploadToken: Option<string>, canon: string -> string,
                       objects: map<string, StoredObject>, headThrows: bool, putSucceeds: bool)
    requires Screen(req, uploadToken, canon).Ok?
    ensures var c := Screen(req, uploadToken, canon).value;
      UploadOutcome(req, uploadToken, canon, objects, headThrows, putSucceeds) ==
        StoreOutcome(c.key, DecodeFlexible(c.file), c.allow, c.contentType, objects, headThrows, putSucceeds)
  {
  }

  /** The end of the handler, from the decoding of the file on. */
  method StoreDecoded(key: string, file: Value, allow: bool, contentType: string,
                      objects: map<string, StoredObject>, headThrows: bool, putSucceeds: bool)
    returns (resp: UploadResponse, objects': map<string, StoredObject>)
    ensures (resp, objects') ==
      StoreOutcome(key, DecodeFlexible(file), allow, contentType, objects, headThrows, putSucceeds)
  {
    objects' := objects;
    var decoded := DecodeBase64Flexible(file);
    if decoded.Err? {
      return Refused(BadBase64(decoded.error), 400), objects';
    }
    var bytes := decoded.value;
    if !allow {
      if headThrows {
        return Refused(R2HeadError, 500), objects';
      }
      if key in objects {
        return Refused(ObjectAlreadyExists, 409), objects';
      }
    }
    if !putSucceeds {
      return Refused(R2PutError, 500), objects';
    }
    objects' := objects[key := StoredObject(bytes[..], contentType)];
    resp := Uploaded(key, bytes.Length);
  }

  /** The checks of the handler, step by step, in its order; the first
      that fails gives the error. */
  method CheckRequest(req: UploadRequest, uploadToken: Option<string>, canon: string -> string)
    returns (r: Result<Checked, UploadError>)
    ensures r == Screen(req, uploadToken, canon)
  {
    if !Authorized(req.authorization, uploadToken) {
      return Err(Unauthorized);
    }
    if !ContentTypeAccepted(req.contentType) {
      return Err(ContentTypeMustBeJson);
    }
    var body := Or(req.body, JObj([]));
    var fileBase64 := Field(body, "fileBase64");
    if StringThrows(Or(Field(body, "key"), JStr(""))) {
      return Err(UnhandledException);
    }
    var key := Trim(ToJsString(Or(Field(body, "key"), JStr(""))));
    assert fileBase64 == FileField(req.body) && key == RawKey(req.body);
    if !Truthy(fileBase64) || key == "" {
      return Err(MissingFileOrKey);
    }
    key := canon(key);
    var problem := KeyProblem(key);
    if problem.Some? {
      return Err(problem.value);
    }
    if StringThrows(Coalesce(Field(body, "overwrite"), JStr("false"))) {
      return Err(UnhandledException);
    }
    var allowOverwrite := AllowOverwrite(Field(body, "overwrite"));
    var contentType := ContentTypeOrDefault(Field(body, "contentType"));
    if TooLarge(fileBase64) {
      return Err(PayloadTooLarge);
    }
    return Ok(Checked(key, fileBase64, allowOverwrite, contentType));
  }

  /** `POST /upload` with the bucket binding present: the checks, then
      decoding and storing the file; its response and the bucket afterwards
      are those of `UploadOutcome`. */
  method HandleUpload(req: UploadRequest, uploadToken: Option<string>, canon: string -> string,
                      objects: map<string, StoredObject>, headThrows: bool, putSucceeds: bool)
    returns (resp: UploadResponse, objects': map<string, StoredObject>)
    ensures (resp, objects') == UploadOutcome(req, uploadToken, canon, objects, headThrows, putSucceeds)
  {
    var checked := CheckRequest(req, uploadToken, canon);
    if checked.Err? {
      RefusedOutcome(req, uploadToken, canon, objects, headThrows, putSucceeds);
      return Refused(checked.error, UploadStatus(checked.error)), objects;
    }
    var c := checked.value;
    CheckedOutcome(req, uploadToken, canon, objects, headThrows, putSucceeds);
    resp, objects' := StoreDecoded(c.key, c.file, c.allow, c.contentType, objects, headThrows, putSucceeds);
  }

  // ---------------------------------------------------------------------
  // What the handler promises

  /** An unauthorised request is refused with 401 before anything else is
      looked at, and a request with the wrong content type with 400 right
      after. */
  lemma AuthorisationFirst(req: UploadRequest, uploadToken: Option<string>, canon: string -> string,
                           objects: map<string, StoredObject>, headThrows: bool, putSucceeds: bool)
    ensures var (resp, objects') := UploadOutcome(req, uploadToken, canon, objects, headThrows, putSucceeds);
      && (!Authorized(req.authorization, uploadToken) ==> resp == Refused(Unauthorized, 401))
      && (Authorized(req.authorization, uploadToken) && !ContentTypeAccepted(req.contentType) ==>
            resp == Refused(ContentTypeMustBeJson, 400))
  {
  }

  /** An upload happens exactly when every check passes. */
  lemma UploadedExactlyWhenAccepted(req: UploadRequest, uploadToken: Option<string>, canon: string -> string,
                                    objects: map<string, StoredObject>, headThrows: bool, putSucceeds: bool)
    ensures var (resp, _) := UploadOutcome(req, uploadToken, canon, objects, headThrows, putSucceeds);
      resp.Uploaded? <==> UploadAccepted(req, uploadToken, canon, objects, headThrows, putSucceeds)
  {
  }

  /** An upload stores the decoded bytes of the file, with the checked
      content type, under the canonical key, which satisfies the key rule;
      no other object changes. */
  lemma UploadStoresDecodedFile(req: UploadRequest, uploadToken: Option<string>, canon: string -> string,
                                objects: map<string, StoredObject>, headThrows: bool, putSucceeds: bool)
    ensures var (resp, objects') := UploadOutcome(req, uploadToken, canon, objects, headThrows, putSucceeds);
      var file := FileField(req.body);
      var ct := ContentTypeOrDefault(Field(Or(req.body, JObj([])), "contentType"));
      resp.Uploaded? ==>
        && resp.key == canon(RawKey(req.body))
        && KeyAcceptable(resp.key)
        && DecodeFlexible(file).Ok?
        && resp.size == |DecodeFlexible(file).value|
        && objects' == objects[resp.key := StoredObject(DecodeFlexible(file).value, ct)]
  {
  }

  /** Without `overwrite: "true"` an existing object is never replaced. */
  lemma NoSilentOverwrite(req: UploadRequest, uploadToken: Option<string>, canon: string -> string,
                          objects: map<string, StoredObject>, headThrows: bool, putSucceeds: bool)
    requires canon(RawKey(req.body)) in objects
    requires !AllowOverwrite(Field(Or(req.body, JObj([])), "overwrite"))
    ensures var (resp, objects') := UploadOutcome(req, uploadToken, canon, objects, headThrows, putSucceeds);
      resp.Refused? && objects' == objects
  {
  }
}
