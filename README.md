# Nordigen PHP client: the error classifier

This project models `ExceptionHandler::handleException` of the Nordigen (GoCardless
Bank Account Data) PHP client. When an API call fails, the handler reads the response's status
code and raw body. It decides whether `json_decode($content, true)` produced a PHP array
(a JSON object or a JSON list). It then throws exactly one exception: a class picked
from the six-entry `$institutionExceptionMap` by the body's `type`, or
`NordigenException`. The message comes from a fixed chain: summary and detail, then
`message`, then `error`, then the trimmed raw body, then `HTTP {status} Error`.

The handler is pure apart from its `throw`. The model is a Dafny function,
`ExceptionHandler.HandleException`. It returns the thrown exception as a `Thrown`
value (class, code, message).

- `json.dfy` (module `Json`): the decoded JSON value and `is_array`.
- `php.dfy` (module `Php`): the PHP built-ins the handler uses. These are `trim` with
  its default character set, `empty` on strings and on decoded values, an integer
  written into a string template, key lookup on a decoded PHP array with `??` and
  `isset`, and the string conversion `implode` applies to each part. A JSON list
  decodes to a PHP array whose keys are 0, 1, 2, ..., so a string key reaches a list
  element exactly when it is the canonical decimal text of that position ("0", "1",
  not "01" or "-1").
- `exception_handler.dfy` (module `ExceptionHandler`): the class enum, the map, the
  `getExceptionType` step, the class lookup and `handleException`.
- `exception_handler_properties.dfy` (module `ExceptionHandlerProperties`): what the
  handler promises, proved over the model. This includes the cases from the unit
  tests.

Inputs the model takes as parameters:

- `decoded` is the result of `json_decode($content, true)`. `None` means decoding
  failed.
- `rt: Php.Runtime` supplies `json_encode` and PHP's decimal text for a float. The
  handler calls both, but their code is not part of this model.

Behaviour of the code that the model follows, where a reader might expect otherwise:

- There is no separate branch for JSON lists. A decoded list is a PHP array, so it takes
  the object path. It has none of the string keys, so its message is the trimmed raw
  body (`ListBody`, `ListOfObjectsResponse`). There is no per-element joining.
- An empty JSON object and an empty JSON list both decode to the same empty PHP array.
  They behave the same (`EmptyObjectIsEmptyList`).
- The message can be empty: `{"message": ""}` gives `""` (`EmptyMessageField`).
- On the non-array path the final message is not trimmed. A body of only whitespace is
  not empty in PHP's sense, so the message becomes `HTTP 500 Error: ` with a trailing
  space (`NonArrayMessageTrimmedIff`, `WhitespaceBodyResponse`). On the PHP-array path
  the message is always trimmed.
- The `type` used when the body has none is the literal `NordigenException`. That is not
  a key of the map, so the result is the fallback class.

## Model

| member | source | states |
|---|---|---|
| `Json.Json.IsPhpArray` | src/Exceptions/ExceptionHandler.php:45 | `is_array($json)` holds exactly for a decoded JSON object or JSON list |
| `Php.Get` | src/Exceptions/ExceptionHandler.php:54-55 | `$json[$key]` on a JSON object finds a value exactly when the object holds the key, and that value; on a JSON list it finds one exactly when the key is the decimal text of a position, and that position's element |
| `Php.ListIndex` | src/Exceptions/ExceptionHandler.php:54-55 | a string key names a list position only when it is all digits and is that position's decimal text; a key not starting with a digit names none |
| `Php.DecimalOfDigits` | src/Exceptions/ExceptionHandler.php:54-55 | a digit string without leading zeros is the decimal text of the number it denotes |
| `Php.ListHasNoWordKey` | src/Exceptions/ExceptionHandler.php:54-55 | a key that does not start with a digit (such as `summary`, `detail`, `message`, `error`, `type`) finds nothing in a JSON list |
| `Php.Coalesce` | src/Exceptions/ExceptionHandler.php:54-55 | `$json[$key] ?? $default` is the stored value when the key holds a non-null value, and the default when the key is absent or holds null |
| `Php.IsSetCoalesce` | src/Exceptions/ExceptionHandler.php:68-71 | `isset($json[$key])` holds exactly when the key holds a non-null value; then `??` gives that value, otherwise the default |
| `Php.EmptyValues` | src/Exceptions/ExceptionHandler.php:59-67 | `empty` holds of exactly null, false, 0, 0.0, "", "0" and the empty array |
| `Php.EmptyContent` | src/Exceptions/ExceptionHandler.php:47 | `empty($content)` on the raw body is `empty` of the same string as a decoded value: true only for "" and "0" |
| `Php.Trim` | src/Exceptions/ExceptionHandler.php:80 | `trim` leaves no space, tab, newline, carriage return, NUL or vertical tab at either end and never lengthens the string |
| `Php.TrimDecompose` | src/Exceptions/ExceptionHandler.php:48 | `trim` only removes trim characters: the input is the result with trim characters before and after it |
| `Php.TrimOfPadded` | src/Exceptions/ExceptionHandler.php:73 | trimming a core with no trim character at either end, padded with trim characters, gives back exactly that core (with TrimDecompose: the result is the unique such core) |
| `Php.TrimIdempotent` | src/Exceptions/ExceptionHandler.php:80 | trimming a trimmed string changes nothing |
| `Php.TrimUnpadded` | src/Exceptions/ExceptionHandler.php:73 | a string with no trim character at either end is left as it is |
| `Php.NatToDecimalValue` | src/Exceptions/ExceptionHandler.php:46 | the decimal text of a status code reads back as the same number |
| `Php.Decimal` | src/Exceptions/ExceptionHandler.php:46 | `{$errorCode}` is a leading '-' exactly for negative codes, then digits that denote the code's magnitude, with no leading zero unless the code is 0 |
| `Php.ToPhpString` | src/Exceptions/ExceptionHandler.php:77 | `implode` takes a string part as it is and turns an array part into "Array" |
| `Php.Implode` | src/Exceptions/ExceptionHandler.php:77 | `implode(' ', $messageParts)` of one part is that part's string, and of two parts the two joined by the separator in order |
| `Php.ImplodeAppend` | src/Exceptions/ExceptionHandler.php:77 | appending a part to a non-empty list appends the separator and that part's string to the joined text |
| `ExceptionHandler.ExceptionType` | src/Exceptions/ExceptionHandler.php:26-30 | `getExceptionType` returns the body's non-null `type`, or the literal `NordigenException` when there is none; never null |
| `ExceptionHandler.InstitutionExceptionMapShape` | src/Exceptions/ExceptionHandler.php:11-18 | `$institutionExceptionMap` has six keys; each class is filed under the one name `TypeName` gives it, and NordigenException is filed under none |
| `ExceptionHandler.ExceptionClassFor` | src/Exceptions/ExceptionHandler.php:79 | the lookup picks a class other than NordigenException exactly when the type is a string that is a map key, and then the type is that class's key |
| `ExceptionHandler.NonArrayMessage` | src/Exceptions/ExceptionHandler.php:46-49 | the message starts with `HTTP {status} Error`; that is the whole message exactly when the body is PHP-empty, and otherwise `: ` and the trimmed body follow |
| `ExceptionHandler.SummaryParts` | src/Exceptions/ExceptionHandler.php:54-64 | one part for each of summary and detail that holds a non-empty value, and no others: each part is such a value, a usable summary comes first and a usable detail last |
| `ExceptionHandler.FallbackParts` | src/Exceptions/ExceptionHandler.php:67-74 | at most one part: a set `message`; else a set `error`, itself when a string and its `json_encode` otherwise; else the trimmed body; none exactly when neither field is set and the body is PHP-empty |
| `ExceptionHandler.HttpError` | src/Exceptions/ExceptionHandler.php:46 | `HTTP {status} Error` is non-empty and has nothing to trim at either end |
| `ExceptionHandler.MessageParts` | src/Exceptions/ExceptionHandler.php:58-75 | `$messageParts` is the summary and detail parts when there are any and the fallback part otherwise; it holds one or two parts, and is empty only when the body is empty in PHP's sense |
| `ExceptionHandler.HandleException` | src/Exceptions/ExceptionHandler.php:38-81 | one exception for every input. Its code is the status. A body that is not a PHP array gives NordigenException. Any other class was named by its map key in the body's `type`. On the PHP-array path the message is trimmed |
| `ExceptionHandlerProperties.ExceptionClassForString` | src/Exceptions/ExceptionHandler.php:11-18 | a string selects a non-fallback class iff it is that class's map key (ConnectionError for InstitutionConnectionError, ServiceError for InstitutionServiceError, ...); every other string gives NordigenException |
| `ExceptionHandlerProperties.DefaultTypeIsNotAKey` | src/Exceptions/ExceptionHandler.php:28 | the default type `NordigenException` is not a map key and selects the fallback class |
| `ExceptionHandlerProperties.KnownTypeSelectsClass` | src/Exceptions/ExceptionHandler.php:79 | a `type` equal to one of the six keys selects exactly that key's class |
| `ExceptionHandlerProperties.OtherTypeFallsBack` | src/Exceptions/ExceptionHandler.php:79 | a `type` that is absent, null, not a string, or a string that is not a key gives NordigenException |
| `ExceptionHandlerProperties.NonArrayBody` | src/Exceptions/ExceptionHandler.php:44-51 | a body that failed to decode or decoded to a non-array gives NordigenException. The message is `HTTP {status} Error`, with `: ` and the trimmed body appended when the body is not PHP-empty |
| `ExceptionHandlerProperties.NonArrayMessageTrimmedIff` | src/Exceptions/ExceptionHandler.php:46-50 | on that path the message is already trimmed iff the body is PHP-empty or holds something besides trim characters |
| `ExceptionHandlerProperties.SummaryAndDetail` | src/Exceptions/ExceptionHandler.php:54-64 | non-empty summary and detail give `trim(summary + " " + detail)`, summary first, whatever `message` and `error` hold |
| `ExceptionHandlerProperties.SummaryAndDetailVerbatim` | src/Exceptions/ExceptionHandler.php:59-80 | when neither joined end is a trim character, the message is exactly `summary + " " + detail`, so it contains both |
| `ExceptionHandlerProperties.SummaryOnly` | src/Exceptions/ExceptionHandler.php:59-61 | a non-empty summary with no usable detail gives the trimmed summary |
| `ExceptionHandlerProperties.DetailOnly` | src/Exceptions/ExceptionHandler.php:62-64 | a non-empty detail with no usable summary gives the trimmed detail |
| `ExceptionHandlerProperties.FallbackToMessage` | src/Exceptions/ExceptionHandler.php:67-69 | without summary or detail, a non-null `message` is used (as PHP converts it to a string, trimmed), whatever `error` and the body hold |
| `ExceptionHandlerProperties.FallbackToError` | src/Exceptions/ExceptionHandler.php:70-71 | failing that, a non-null `error` is used: as it is when a string, else its `json_encode` |
| `ExceptionHandlerProperties.FallbackToBody` | src/Exceptions/ExceptionHandler.php:72-73 | failing that, the trimmed raw body when it is not PHP-empty |
| `ExceptionHandlerProperties.FallbackToStatus` | src/Exceptions/ExceptionHandler.php:77 | failing all of these, `HTTP {status} Error` |
| `ExceptionHandlerProperties.ArrayMessageIsTrimmed` | src/Exceptions/ExceptionHandler.php:80 | on the PHP-array path, trimming the message again changes nothing |
| `ExceptionHandlerProperties.ListBody` | src/Exceptions/ExceptionHandler.php:45-80 | a decoded JSON list gives NordigenException and, when the body is not PHP-empty, the trimmed raw body as message |
| `ExceptionHandlerProperties.ListBodyVerbatim` | src/Exceptions/ExceptionHandler.php:72-73 | a list body with no trim character at either end is the message verbatim |
| `ExceptionHandlerProperties.EmptyObjectIsEmptyList` | src/Exceptions/ExceptionHandler.php:41-80 | `{}` and `[]` give the same class, code and message |
| `ExceptionHandlerProperties.SameKeysSameException` | src/Exceptions/ExceptionHandler.php:53-80 | two PHP-array bodies that agree on `type`, `summary`, `detail`, `message` and `error` give the same exception: the handler reads no other key |
| `ExceptionHandlerProperties.BracketedBody` | src/Exceptions/ExceptionHandler.php:72-73 | a body wrapped in `[` and `]` is not PHP-empty and has nothing to trim |
| `ExceptionHandlerProperties.RateLimitResponse` | tests/UnitTests/CoreTests/ExceptionHandlerTest.php:16-26 | detail "Rate limit exceeded" with type RateLimitError and status 429 throws RateLimitError, code 429, with the detail as message |
| `ExceptionHandlerProperties.UnknownTypeResponse` | tests/UnitTests/CoreTests/ExceptionHandlerTest.php:31-41 | the unknown type SomeNewError with status 401 throws NordigenException with code 401 |
| `ExceptionHandlerProperties.FullDetailsResponse` | tests/UnitTests/CoreTests/ExceptionHandlerTest.php:46-62 | summary, detail and type SomeNewError throw NordigenException whose message is summary, a space, detail |
| `ExceptionHandlerProperties.ListOfStringResponse` | tests/UnitTests/CoreTests/ExceptionHandlerTest.php:67-79 | a list of one string gives NordigenException whose message is the raw body, which holds the string |
| `ExceptionHandlerProperties.ListOfObjectsResponse` | tests/UnitTests/CoreTests/ExceptionHandlerTest.php:84-100 | a list of an object with `message` a and one with `detail` b gives the raw body as message, which holds a and then b |
| `ExceptionHandlerProperties.EmptyMessageField` | src/Exceptions/ExceptionHandler.php:68-69 | `{"message": ""}` gives an empty message |
| `ExceptionHandlerProperties.EmptyBodyResponse` | src/Exceptions/ExceptionHandler.php:45-50 | an empty body with status 500 gives `HTTP 500 Error` |
| `ExceptionHandlerProperties.WhitespaceBodyResponse` | src/Exceptions/ExceptionHandler.php:46-48 | a body of spaces with status 500 gives `HTTP 500 Error: `, with a trailing space |

## Left out

- Reading the body from the PSR-7 response (`getBody()->getContents()`) and the exception
  constructors: the status code and body text are inputs, and the throw is the returned
  `Thrown` value. The response object the exceptions also carry is not modelled.
- `json_decode` and `json_last_error`: their result is the input `decoded`. Nothing ties
  it to `content`, so the model also covers pairs that the real decoder never produces.
- `json_encode` of a non-string `error`, and PHP's text for a float inside `implode`:
  they come from `Php.Runtime` as opaque functions. The case where `json_encode` fails and
  returns false (which `implode` would turn into "") is not modelled.
- PHP's warnings and deprecation notices (an array converted to "Array" inside
  `implode`, a float used as an array key) are not modelled; only the values are.
- `ExceptionHandler.ExceptionClassFor`: a `type` that is itself a JSON object or list is
  treated as an unrecognised type. PHP 8 instead rejects an array used as an array key
  with a TypeError while it looks the type up in the map.
- Strings are sequences of characters, while PHP works on bytes. This makes no difference
  here, because `trim`'s characters and everything the handler compares are ASCII.
- The endpoint wrappers (src/API/EndUserAgreement.php) are thin callers that build a
  payload and make one HTTP request. They have no logic of their own and are not part of
  this model.
