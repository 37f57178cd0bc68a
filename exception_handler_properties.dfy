/** What `handleException` promises, stated over the model in exception_handler.dfy:
    the class table, the non-array path, the order in which the message is chosen,
    list bodies, trimming, and the cases the unit tests exercise. */
module ExceptionHandlerProperties {
  import opened Json
  import opened Php
  import opened ExceptionHandler

  // ---------------------------------------------------------------- the class table

  /** The table and TypeName are inverse to each other: every non-fallback class has
      exactly one key, and a string selects a class iff it is that class's key. */
  lemma ExceptionClassForString(s: string, k: Kind)
    ensures ExceptionClassFor(JString(s)) == k <==>
              (k != NordigenException && s == TypeName(k)) ||
              (k == NordigenException && s !in InstitutionExceptionMap)
  {
    if k != NordigenException && s == TypeName(k) {
      assert s in InstitutionExceptionMap;
    }
  }

  /** The default `type` is not a key, so a body without `type` falls back. */
  lemma DefaultTypeIsNotAKey()
    ensures DefaultType !in InstitutionExceptionMap
    ensures ExceptionClassFor(JString(DefaultType)) == NordigenException
  {
  }

  /** A body whose `type` is one of the six keys selects exactly that key's class. */
  lemma KnownTypeSelectsClass(status: int, content: string, json: Json, rt: Runtime, t: string)
    requires json.IsPhpArray() && Get(json, "type") == Some(JString(t))
    requires t in InstitutionExceptionMap
    ensures HandleException(status, content, Some(json), rt).kind == InstitutionExceptionMap[t]
    ensures HandleException(status, content, Some(json), rt).kind != NordigenException
  {
  }

  /** A body whose `type` is absent, null, not a string, or a string that is not a key
      gives the fallback class. */
  lemma OtherTypeFallsBack(status: int, content: string, json: Json, rt: Runtime)
    requires json.IsPhpArray()
    requires !IsSet(json, "type") || !Get(json, "type").value.JString? ||
             Get(json, "type").value.s !in InstitutionExceptionMap
    ensures HandleException(status, content, Some(json), rt).kind == NordigenException
  {
  }

  // ---------------------------------------------------------------- bodies that are not PHP arrays

  /** A body that did not decode, or decoded to a string, number, boolean or null: the
      fallback class, and the status line with the trimmed body appended when the body
      is not empty in PHP's sense. */
  lemma NonArrayBody(status: int, content: string, decoded: Option<Json>, rt: Runtime)
    requires decoded.None? || !decoded.value.IsPhpArray()
    ensures HandleException(status, content, decoded, rt).kind == NordigenException
    ensures IsEmptyString(content) ==> HandleException(status, content, decoded, rt).message == HttpError(status)
    ensures !IsEmptyString(content) ==>
              HandleException(status, content, decoded, rt).message == HttpError(status) + ": " + Trim(content)
  {
  }

  /** On the non-array path the message is not trimmed again: it is already trimmed
      exactly when the body is PHP-empty or has something besides trim characters. */
  lemma NonArrayMessageTrimmedIff(status: int, content: string, decoded: Option<Json>, rt: Runtime)
    requires decoded.None? || !decoded.value.IsPhpArray()
    ensures var m := HandleException(status, content, decoded, rt).message;
            Trim(m) == m <==> IsEmptyString(content) || Trim(content) != ""
  {
    assert HandleException(status, content, decoded, rt).message == NonArrayMessage(status, content);
    NonArrayMessageTrimmed(status, content);
  }

  lemma NonArrayMessageTrimmed(status: int, content: string)
    ensures var m := NonArrayMessage(status, content);
            Trim(m) == m <==> IsEmptyString(content) || Trim(content) != ""
  {
    var m := NonArrayMessage(status, content);
    var head := HttpError(status);
    if IsEmptyString(content) {
      TrimUnpadded(m);
    } else {
      var tail := ": " + Trim(content);
      assert m[..|head|] == head && m[|head|..] == tail;
      assert m[0] == head[0] by {
        assert m[..|head|][0] == m[0];
      }
      assert m[|m| - 1] == tail[|tail| - 1] by {
        assert m[|head|..][|tail| - 1] == m[|m| - 1];
      }
      if Trim(content) != "" {
        TrimUnpadded(m);
      } else {
        assert !Unpadded(m);
      }
    }
  }

  // ---------------------------------------------------------------- the message of a PHP-array body

  /** Both `summary` and `detail` are non-empty strings: the message is the two
      joined by a space, summary first, then trimmed; `message` and `error` are ignored. */
  lemma SummaryAndDetail(status: int, content: string, json: Json, rt: Runtime, summary: string, detail: string)
    requires json.IsPhpArray()
    requires Get(json, "summary") == Some(JString(summary)) && !IsEmptyString(summary)
    requires Get(json, "detail") == Some(JString(detail)) && !IsEmptyString(detail)
    ensures HandleException(status, content, Some(json), rt).message == Trim(summary + " " + detail)
  {
    assert MessageParts(json, content, rt) == [JString(summary), JString(detail)];
  }

  /** When the summary does not start and the detail does not end with a trim
      character, the message is exactly `summary + " " + detail`: it contains both. */
  lemma SummaryAndDetailVerbatim(status: int, content: string, json: Json, rt: Runtime, summary: string, detail: string)
    requires json.IsPhpArray()
    requires Get(json, "summary") == Some(JString(summary)) && !IsEmptyString(summary)
    requires Get(json, "detail") == Some(JString(detail)) && !IsEmptyString(detail)
    requires !IsTrimChar(summary[0]) && !IsTrimChar(detail[|detail| - 1])
    ensures HandleException(status, content, Some(json), rt).message == summary + " " + detail
  {
    SummaryAndDetail(status, content, json, rt, summary, detail);
    var joined := summary + " " + detail;
    assert joined[0] == summary[0] && joined[|joined| - 1] == detail[|detail| - 1];
    TrimUnpadded(joined);
  }

  /** Only `summary` is a non-empty string (`detail` absent, null or empty): the
      message is the trimmed summary. */
  lemma SummaryOnly(status: int, content: string, json: Json, rt: Runtime, summary: string)
    requires json.IsPhpArray()
    requires Get(json, "summary") == Some(JString(summary)) && !IsEmptyString(summary)
    requires !IsSet(json, "detail") || IsEmpty(Get(json, "detail").value)
    ensures HandleException(status, content, Some(json), rt).message == Trim(summary)
  {
    assert MessageParts(json, content, rt) == [JString(summary)];
  }

  /** Only `detail` is a non-empty string (`summary` absent, null or empty): the
      message is the trimmed detail. */
  lemma DetailOnly(status: int, content: string, json: Json, rt: Runtime, detail: string)
    requires json.IsPhpArray()
    requires !IsSet(json, "summary") || IsEmpty(Get(json, "summary").value)
    requires Get(json, "detail") == Some(JString(detail)) && !IsEmptyString(detail)
    ensures HandleException(status, content, Some(json), rt).message == Trim(detail)
  {
    assert MessageParts(json, content, rt) == [JString(detail)];
  }

  /** Neither `summary` nor `detail` gives a part. */
  predicate NoSummaryOrDetail(json: Json)
    requires json.IsPhpArray()
  {
    && (!IsSet(json, "summary") || IsEmpty(Get(json, "summary").value))
    && (!IsSet(json, "detail") || IsEmpty(Get(json, "detail").value))
  }

  /** First fallback: a non-null `message`, whatever `error` and the body hold. */
  lemma FallbackToMessage(status: int, content: string, json: Json, rt: Runtime)
    requires json.IsPhpArray() && NoSummaryOrDetail(json)
    requires IsSet(json, "message")
    ensures HandleException(status, content, Some(json), rt).message
              == Trim(ToPhpString(Get(json, "message").value, rt))
  {
    assert SummaryParts(json) == [];
  }

  /** Second fallback: a non-null `error`, as is when a string, else `json_encode`d. */
  lemma FallbackToError(status: int, content: string, json: Json, rt: Runtime)
    requires json.IsPhpArray() && NoSummaryOrDetail(json)
    requires !IsSet(json, "message") && IsSet(json, "error")
    ensures var error := Get(json, "error").value;
            HandleException(status, content, Some(json), rt).message
              == Trim(if error.JString? then error.s else rt.jsonEncode(error))
  {
    assert SummaryParts(json) == [];
  }

  /** Third fallback: the trimmed body, when it is not PHP-empty. */
  lemma FallbackToBody(status: int, content: string, json: Json, rt: Runtime)
    requires json.IsPhpArray() && NoSummaryOrDetail(json)
    requires !IsSet(json, "message") && !IsSet(json, "error")
    requires !IsEmptyString(content)
    ensures HandleException(status, content, Some(json), rt).message == Trim(content)
  {
    assert SummaryParts(json) == [];
    TrimIdempotent(content);
  }

  /** Last fallback: the status line. */
  lemma FallbackToStatus(status: int, content: string, json: Json, rt: Runtime)
    requires json.IsPhpArray() && NoSummaryOrDetail(json)
    requires !IsSet(json, "message") && !IsSet(json, "error")
    requires IsEmptyString(content)
    ensures HandleException(status, content, Some(json), rt).message == HttpError(status)
  {
    assert SummaryParts(json) == [];
    TrimUnpadded(HttpError(status));
  }

  /** On the PHP-array path the message is trimmed, so trimming it again changes nothing. */
  lemma ArrayMessageIsTrimmed(status: int, content: string, json: Json, rt: Runtime)
    requires json.IsPhpArray()
    ensures var m := HandleException(status, content, Some(json), rt).message;
            Trim(m) == m
  {
    TrimUnpadded(HandleException(status, content, Some(json), rt).message);
  }

  // ---------------------------------------------------------------- list bodies

  /** A JSON list goes down the same path as an object, has none of the keys, and so
      gives the fallback class and the trimmed raw body as message. */
  lemma ListBody(status: int, content: string, items: seq<Json>, rt: Runtime)
    ensures HandleException(status, content, Some(JArray(items)), rt).kind == NordigenException
    ensures !IsEmptyString(content) ==>
              HandleException(status, content, Some(JArray(items)), rt).message == Trim(content)
  {
    var json := JArray(items);
    assert NoSummaryOrDetail(json);
    if !IsEmptyString(content) {
      FallbackToBody(status, content, json, rt);
    }
  }

  /** A list body that starts and ends with something other than a trim character
      (such as the `[` and `]` of `json_encode`'s output) is the message verbatim, so
      the message holds every string element the body holds. */
  lemma ListBodyVerbatim(status: int, content: string, items: seq<Json>, rt: Runtime)
    requires content != [] && Unpadded(content) && content != "0"
    ensures HandleException(status, content, Some(JArray(items)), rt).message == content
  {
    ListBody(status, content, items, rt);
    TrimUnpadded(content);
  }

  /** `{}` and `[]` both decode to PHP's empty array, and the handler cannot tell them
      apart: the same class, code and message for either. */
  lemma EmptyObjectIsEmptyList(status: int, content: string, rt: Runtime)
    ensures HandleException(status, content, Some(JArray([])), rt) ==
            HandleException(status, content, Some(JObject(map[])), rt)
  {
    SameKeysSameException(status, content, JArray([]), JObject(map[]), rt);
  }

  /** The handler reads only the five keys `type`, `summary`, `detail`, `message` and
      `error` of a PHP-array body. */
  lemma SameKeysSameException(status: int, content: string, a: Json, b: Json, rt: Runtime)
    requires a.IsPhpArray() && b.IsPhpArray()
    requires forall key <- ["type", "summary", "detail", "message", "error"] :: Get(a, key) == Get(b, key)
    ensures HandleException(status, content, Some(a), rt) == HandleException(status, content, Some(b), rt)
  {
    assert Get(a, "type") == Get(b, "type");
    assert ExceptionType(a) == ExceptionType(b);
    SameKeysSameParts(content, a, b, rt);
  }

  lemma SameKeysSameParts(content: string, a: Json, b: Json, rt: Runtime)
    requires a.IsPhpArray() && b.IsPhpArray()
    requires forall key <- ["summary", "detail", "message", "error"] :: Get(a, key) == Get(b, key)
    ensures MessageParts(a, content, rt) == MessageParts(b, content, rt)
  {
    assert Get(a, "summary") == Get(b, "summary") && Get(a, "detail") == Get(b, "detail");
    assert SummaryParts(a) == SummaryParts(b);
    assert Get(a, "message") == Get(b, "message") && Get(a, "error") == Get(b, "error");
    assert FallbackParts(a, content, rt) == FallbackParts(b, content, rt);
  }

  // ---------------------------------------------------------------- the unit tests' cases

  /** `{"detail":"Rate limit exceeded","type":"RateLimitError"}` with status 429, whatever
      its exact text, throws RateLimitError with the detail as message. */
  lemma RateLimitResponse(detail: string, content: string, rt: Runtime)
    requires detail == "Rate limit exceeded"
    ensures var json := JObject(map["detail" := JString(detail), "type" := JString("RateLimitError")]);
            var e := HandleException(429, content, Some(json), rt);
            e.kind == RateLimitError && e.code == 429 && e.message == detail
  {
    var json := JObject(map["detail" := JString(detail), "type" := JString("RateLimitError")]);
    assert "summary" !in json.fields;
    KnownTypeSelectsClass(429, content, json, rt, "RateLimitError");
    DetailOnly(429, content, json, rt, detail);
    assert detail[0] == 'R' && detail[|detail| - 1] == 'd';
    TrimUnpadded(detail);
  }

  /** The same body with the unknown `type` "SomeNewError" and status 401 throws
      NordigenException. */
  lemma UnknownTypeResponse(detail: string, content: string, rt: Runtime)
    requires detail == "Rate limit exceeded"
    ensures var json := JObject(map["detail" := JString(detail), "type" := JString("SomeNewError")]);
            var e := HandleException(401, content, Some(json), rt);
            e.kind == NordigenException && e.code == 401
  {
    var json := JObject(map["detail" := JString(detail), "type" := JString("SomeNewError")]);
    assert Get(json, "type") == Some(JString("SomeNewError"));
    OtherTypeFallsBack(401, content, json, rt);
  }

  /** A body with a summary, a detail (such as "Authentication failed" and "Invalid API
      credentials provided") and the unknown `type` "SomeNewError" throws
      NordigenException whose message holds both, summary first. */
  lemma FullDetailsResponse(summary: string, detail: string, content: string, rt: Runtime)
    requires summary != "" && !IsEmptyString(summary) && !IsTrimChar(summary[0])
    requires detail != "" && !IsEmptyString(detail) && !IsTrimChar(detail[|detail| - 1])
    ensures var json := JObject(map["summary" := JString(summary), "detail" := JString(detail),
                                    "type" := JString("SomeNewError")]);
            var e := HandleException(401, content, Some(json), rt);
            e.kind == NordigenException && e.message == summary + " " + detail
  {
    var json := JObject(map["summary" := JString(summary), "detail" := JString(detail),
                            "type" := JString("SomeNewError")]);
    assert Get(json, "type") == Some(JString("SomeNewError"));
    OtherTypeFallsBack(401, content, json, rt);
    assert Get(json, "summary") == Some(JString(summary));
    assert Get(json, "detail") == Some(JString(detail));
    SummaryAndDetailVerbatim(401, content, json, rt, summary, detail);
  }

  /** A body wrapped in brackets is left alone by `trim`. */
  lemma BracketedBody(inner: string)
    ensures var body := "[" + inner + "]";
            Unpadded(body) && !IsEmptyString(body)
  {
    var body := "[" + inner + "]";
    assert body[0] == '[' && body[|body| - 1] == ']';
  }

  /** A list of one string (one that JSON writes without escapes): the message is the
      raw body, which holds the string. */
  lemma ListOfStringResponse(text: string, rt: Runtime)
    ensures var body := "[\"" + text + "\"]";
            var e := HandleException(400, body, Some(JArray([JString(text)])), rt);
            e.kind == NordigenException && e.message == body
  {
    var body := "[\"" + text + "\"]";
    assert body == "[" + ("\"" + text + "\"") + "]";
    BracketedBody("\"" + text + "\"");
    ListBodyVerbatim(400, body, [JString(text)], rt);
  }

  /** A list of an object with `message` a and one with `detail` b: there is no
      per-element joining; the message is the raw body, which holds a and then b. */
  lemma ListOfObjectsResponse(a: string, b: string, rt: Runtime)
    ensures var body := "[{\"message\":\"" + a + "\"},{\"detail\":\"" + b + "\"}]";
            var items := [JObject(map["message" := JString(a)]), JObject(map["detail" := JString(b)])];
            var e := HandleException(400, body, Some(JArray(items)), rt);
            e.kind == NordigenException && e.message == body
  {
    var inner := "{\"message\":\"" + a + "\"},{\"detail\":\"" + b + "\"}";
    var body := "[{\"message\":\"" + a + "\"},{\"detail\":\"" + b + "\"}]";
    assert body == "[" + inner + "]";
    BracketedBody(inner);
    ListBodyVerbatim(400, body, [JObject(map["message" := JString(a)]), JObject(map["detail" := JString(b)])], rt);
  }

  /** The message can be empty: `{"message": ""}` gives "". */
  lemma EmptyMessageField(status: int, content: string, rt: Runtime)
    ensures HandleException(status, content, Some(JObject(map["message" := JString("")])), rt).message == ""
  {
    var json := JObject(map["message" := JString("")]);
    assert NoSummaryOrDetail(json);
    FallbackToMessage(status, content, json, rt);
  }

  /** An empty body with status 500 gives "HTTP 500 Error". */
  lemma EmptyBodyResponse(rt: Runtime)
    ensures HandleException(500, "", None, rt).message == "HTTP 500 Error"
  {
  }

  /** A whitespace-only body is not PHP-empty, so ": " is appended to the status
      line and the message keeps a trailing space. */
  lemma WhitespaceBodyResponse(rt: Runtime)
    ensures HandleException(500, "  ", None, rt).message == "HTTP 500 Error: "
  {
    assert LeadingTrimCount("  ") == 2;
    assert Trim("  ") == "";
    assert HttpError(500) == "HTTP 500 Error";
  }
}
