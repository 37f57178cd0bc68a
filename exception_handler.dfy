/** The error classifier of the Nordigen client: `ExceptionHandler::handleException`
    turns a failed HTTP response (status code and raw body) into exactly one thrown
    exception. The throw is modelled as the returned `Thrown` value. */
module ExceptionHandler {
  import opened Json
  import opened Php

  /** The exception classes the handler can throw. */
  datatype Kind =
    | UnknownRequestError
    | AccessExpiredError
    | AccountInactiveError
    | InstitutionConnectionError
    | InstitutionServiceError
    | RateLimitError
    | NordigenException

  /** What `handleException` throws: the class, the exception code and the message. */
  datatype Thrown = Thrown(kind: Kind, code: int, message: string)

  /** `$institutionExceptionMap`: the API's error `type` names and the class each selects. */
  const InstitutionExceptionMap: map<string, Kind> := map[
    "UnknownRequestError" := UnknownRequestError,
    "AccessExpiredError" := AccessExpiredError,
    "AccountInactiveError" := AccountInactiveError,
    "ConnectionError" := InstitutionConnectionError,
    "ServiceError" := InstitutionServiceError,
    "RateLimitError" := RateLimitError
  ]

  /** The `type` used when the body has none: the name of the fallback class itself. */
  const DefaultType: string := "NordigenException"

  /** `getExceptionType`: the body's `type`, or the default when it is absent or null. */
  function ExceptionType(json: Json): (t: Json)
    requires json.IsPhpArray()
    ensures t != JNull
    ensures IsSet(json, "type") ==> Get(json, "type") == Some(t)
    ensures !IsSet(json, "type") ==> t == JString(DefaultType)
  {
    Coalesce(json, "type", JString(DefaultType))
  }

  /** `self::$institutionExceptionMap[$errorType] ?? NordigenException::class`.
      A type that is not a string (a number or a boolean) is never one of the keys. */
  function ExceptionClassFor(errorType: Json): (k: Kind)
    // a class other than the fallback is chosen exactly for a string that is a map key
    ensures k != NordigenException <==> errorType.JString? && errorType.s in InstitutionExceptionMap
    // and that string is the key the map files the chosen class under
    ensures k != NordigenException ==> errorType == JString(TypeName(k))
  {
    if errorType.JString? && errorType.s in InstitutionExceptionMap
    then InstitutionExceptionMap[errorType.s]
    else NordigenException
  }

  /** `"HTTP {$errorCode} Error"`. */
  function HttpError(status: int): (r: string)
    ensures Unpadded(r) && r != []
  {
    "HTTP " + Decimal(status) + " Error"
  }

  /** The message for a body that is not a PHP array: the status line, then the
      trimmed body after ": " when the body is not empty in PHP's sense. */
  function NonArrayMessage(status: int, content: string): (m: string)
    // the status line always comes first
    ensures HttpError(status) <= m
    // and is the whole message exactly when the body is empty in PHP's sense
    ensures IsEmptyString(content) <==> m == HttpError(status)
    ensures !IsEmptyString(content) ==> m[|HttpError(status)|..] == ": " + Trim(content)
  {
    var line := HttpError(status);
    if IsEmptyString(content) then line
    else
      var tail := ": " + Trim(content);
      SplitAppend(line, tail);
      line + tail
  }

  /** The two halves of a concatenation can be sliced back out of it. */
  lemma SplitAppend(a: string, b: string)
    ensures |a + b| == |a| + |b|
    ensures (a + b)[..|a|] == a && (a + b)[|a|..] == b
  {
  }

  /** The `summary` and `detail` values that are not empty, in that order. */
  function SummaryParts(json: Json): (parts: seq<Json>)
    requires json.IsPhpArray()
    // one part for each of the two fields that holds a non-empty value
    ensures |parts| ==
              (if IsSet(json, "summary") && !IsEmpty(Get(json, "summary").value) then 1 else 0) +
              (if IsSet(json, "detail") && !IsEmpty(Get(json, "detail").value) then 1 else 0)
    // only set, non-empty values are kept
    ensures forall p <- parts :: !IsEmpty(p) && p != JNull
    // the summary, when kept, comes first
    ensures IsSet(json, "summary") && !IsEmpty(Get(json, "summary").value) ==>
              parts != [] && parts[0] == Get(json, "summary").value
    ensures IsSet(json, "detail") && !IsEmpty(Get(json, "detail").value) ==>
              parts != [] && parts[|parts| - 1] == Get(json, "detail").value
    // nothing is kept when neither field holds a non-empty value
    ensures parts == [] <==>
              (!IsSet(json, "summary") || IsEmpty(Get(json, "summary").value)) &&
              (!IsSet(json, "detail") || IsEmpty(Get(json, "detail").value))
  {
    var summary := Coalesce(json, "summary", JString(""));
    var detail := Coalesce(json, "detail", JString(""));
    (if IsEmpty(summary) then [] else [summary]) + (if IsEmpty(detail) then [] else [detail])
  }

  /** The fallback when neither `summary` nor `detail` gave a part: `message`, else
      `error` (a string as is, anything else through `json_encode`), else the trimmed
      body when it is not empty; at most one of them. */
  function FallbackParts(json: Json, content: string, rt: Runtime): (parts: seq<Json>)
    requires json.IsPhpArray()
    ensures |parts| <= 1
    // `message` takes precedence over `error`, which takes precedence over the body
    ensures IsSet(json, "message") ==> parts == [Get(json, "message").value]
    ensures !IsSet(json, "message") && IsSet(json, "error") ==>
              |parts| == 1 && parts[0].JString? &&
              (Get(json, "error").value.JString? ==> parts[0] == Get(json, "error").value)
    ensures !IsSet(json, "message") && IsSet(json, "error") && !Get(json, "error").value.JString? ==>
              parts == [JString(rt.jsonEncode(Get(json, "error").value))]
    // with neither field set, the trimmed body when it is not empty in PHP's sense
    ensures !IsSet(json, "message") && !IsSet(json, "error") && !IsEmptyString(content) ==>
              parts == [JString(Trim(content))]
    // empty exactly when nothing is set and the body is empty in PHP's sense
    ensures parts == [] <==>
              !IsSet(json, "message") && !IsSet(json, "error") && IsEmptyString(content)
  {
    if IsSet(json, "message") then [Get(json, "message").value]
    else if IsSet(json, "error") then
      var error := Get(json, "error").value;
      [if error.JString? then error else JString(rt.jsonEncode(error))]
    else if !IsEmptyString(content) then [JString(Trim(content))]
    else []
  }

  /** `$messageParts` once lines 58-75 have run. */
  function MessageParts(json: Json, content: string, rt: Runtime): (parts: seq<Json>)
    requires json.IsPhpArray()
    ensures 1 <= |parts| <= 2 || (parts == [] && IsEmptyString(content))
    // the summary and detail parts when there are any, otherwise the single fallback
    ensures SummaryParts(json) != [] ==> parts == SummaryParts(json)
    ensures SummaryParts(json) == [] ==> parts == FallbackParts(json, content, rt)
  {
    var parts := SummaryParts(json);
    if parts == [] then FallbackParts(json, content, rt) else parts
  }

  /** `handleException`: the exception thrown for a failed response with status code
      `status` and body `content`. `decoded` is `json_decode($content, true)`, or None
      when decoding failed; `rt` supplies the PHP runtime functions the handler calls. */
  function HandleException(status: int, content: string, decoded: Option<Json>, rt: Runtime): (e: Thrown)
    // the status code is the exception code on every path
    ensures e.code == status
    // a body that is not a PHP array always gives the fallback class
    ensures decoded.None? || !decoded.value.IsPhpArray() ==> e.kind == NordigenException
    // any other class was named, by its map key, in the body's `type` field
    ensures e.kind != NordigenException ==>
              decoded.Some? && decoded.value.IsPhpArray() &&
              Get(decoded.value, "type") == Some(JString(TypeName(e.kind)))
    // on the PHP-array path the message is always trimmed
    ensures decoded.Some? && decoded.value.IsPhpArray() ==> Unpadded(e.message)
  {
    if decoded.None? || !decoded.value.IsPhpArray() then
      Thrown(NordigenException, status, NonArrayMessage(status, content))
    else
      var json := decoded.value;
      var errorType := ExceptionType(json);
      var parts := MessageParts(json, content, rt);
      var message := if parts != [] then Implode(" ", parts, rt) else HttpError(status);
      Thrown(ExceptionClassFor(errorType), status, Trim(message))
  }

  /** The shape of `$institutionExceptionMap`: six keys, each class filed under the
      name `TypeName` gives it, and the fallback class under none of them. */
  lemma InstitutionExceptionMapShape()
    ensures |InstitutionExceptionMap.Keys| == 6
    ensures NordigenException !in InstitutionExceptionMap.Values
    ensures DefaultType !in InstitutionExceptionMap
    ensures forall key <- InstitutionExceptionMap :: TypeName(InstitutionExceptionMap[key]) == key
  {
    assert InstitutionExceptionMap.Keys == {"UnknownRequestError", "AccessExpiredError",
      "AccountInactiveError", "ConnectionError", "ServiceError", "RateLimitError"};
  }

  /** The map key that selects a class, read off the table in the other direction;
      the fallback class has none, so it gets the default type name. */
  function TypeName(k: Kind): string {
    match k
    case UnknownRequestError => "UnknownRequestError"
    case AccessExpiredError => "AccessExpiredError"
    case AccountInactiveError => "AccountInactiveError"
    case InstitutionConnectionError => "ConnectionError"
    case InstitutionServiceError => "ServiceError"
    case RateLimitError => "RateLimitError"
    case NordigenException => DefaultType
  }
}
