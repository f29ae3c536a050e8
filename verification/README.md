# PSR-7 response value object

A Dafny model of the Guzzle PSR-7 `Response` class: an immutable HTTP response
holding a status code, a reason phrase, a protocol version, headers and an
optional body. Its behaviour is the coupling of status and reason phrase. When
the caller gives no reason, or an empty one, and the status code is in the
class's static phrase table, the table's phrase is used. Otherwise the caller's
string is kept verbatim, and it may be empty. `withStatus` returns a copy with
a new status and reason, defaulted by the same rule. Nothing else changes.

Files:

- `wrappers.dfy` (`Wrappers`): the `Option` datatype, standing in for PHP `null`.
- `phrases.dfy` (`Phrases`): the static phrase table and the defaulting rule
  `Resolve`. The table is written as a lookup function, `Lookup(code)`. It
  returns `Some(phrase)` exactly for the 58 codes the source lists and `None`
  for every other integer, which is what `isset(self::$phrases[$code])`
  followed by an index does. The phrases are reproduced as written, including
  their translation quirks: 505's phrase duplicates the meaning of 506's.
- `response.dfy` (`Responses`): the response datatype, the constructor `New`,
  the default construction `Default`, `WithStatus`, the invariant `Valid`
  (an empty reason only for an unknown code, and a recorded body that is
  neither null nor ""), and the lemmas relating them.
  `getStatusCode` and `getReasonPhrase` are the datatype's selectors
  `statusCode` and `reasonPhrase`.

Values are immutable, so the "receiver is left untouched" half of `withStatus`
holds by construction: `WithStatus(x, c, r)` is a new value and `x` is still `x`.

## Model

| member | source | states |
|---|---|---|
| Phrases.Lookup | sys/import3p/s3/GuzzleHttp/Psr7/Response.php:14-73 | the static table, its 58 entries as written, read as a lookup; every code it lists lies between 100 and 511, so a code such as 0 or 999 has no phrase |
| Phrases.Known | sys/import3p/s3/GuzzleHttp/Psr7/Response.php:102 | isset on the table: a code the table lists always has a phrase, and that phrase is non-empty |
| Phrases.Resolve | sys/import3p/s3/GuzzleHttp/Psr7/Response.php:102-105 | the defaulting rule: a non-empty reason is kept verbatim; an empty reason takes the table's phrase for a known code and stays "" for an unknown one |
| Phrases.ResolveEmptyIff | sys/import3p/s3/GuzzleHttp/Psr7/Response.php:102-105 | the resolved reason is empty if and only if the supplied reason is empty and the code is not in the table |
| Phrases.ResolveIdempotent | sys/import3p/s3/GuzzleHttp/Psr7/Response.php:125-128 | feeding a resolved reason back through the defaulting rule for the same code leaves it unchanged |
| Responses.BodyArg.IsEmpty | sys/import3p/s3/GuzzleHttp/Psr7/Response.php:97 | a body argument counts as absent exactly when it is null or the empty string; a stream-like source never does |
| Responses.ReasonText | sys/import3p/s3/GuzzleHttp/Psr7/Response.php:102-105 | the reason argument as the source reads it: null and "" are both empty under the loose comparison with '', and a given string is kept as it is |
| Responses.New | sys/import3p/s3/GuzzleHttp/Psr7/Response.php:88-109 | the status is stored as given, with no range check. An empty or null reason takes the table's phrase for a known status and stays "" for an unknown one. A non-empty reason is kept verbatim even for a known status. The body is recorded exactly when it is neither null nor "". Version and headers are carried through |
| Responses.Default | sys/import3p/s3/GuzzleHttp/Psr7/Response.php:88-109 | construction with every default gives status 200, reason "OK", protocol "1.1", no headers and no recorded body |
| Responses.NewIsValid | sys/import3p/s3/GuzzleHttp/Psr7/Response.php:102-105 | every constructed response has an empty reason only if its status is not in the table, and records a body only if it is neither null nor "" |
| Responses.NewReasonEmptyIff | sys/import3p/s3/GuzzleHttp/Psr7/Response.php:102-105 | a constructed reason is empty if and only if no reason (null or "") was supplied and the status is unknown |
| Responses.WithStatus | sys/import3p/s3/GuzzleHttp/Psr7/Response.php:121-129 | the copy has the new status. Its reason is the table's phrase when the given reason is "" and the code is known, and the given reason otherwise. Protocol, headers and body equal the receiver's |
| Responses.WithStatusPreservesValid | sys/import3p/s3/GuzzleHttp/Psr7/Response.php:121-129 | withStatus establishes "empty reason only for an unknown status" for any receiver, carries the body over, and so keeps every valid response valid |
| Responses.WithStatusMirrorsNew | sys/import3p/s3/GuzzleHttp/Psr7/Response.php:121-129 | withStatus on a constructed response equals constructing anew from the same headers, body and version with the new status and reason |
| Responses.WithCurrentStatusIsIdentity | sys/import3p/s3/GuzzleHttp/Psr7/Response.php:121-129 | re-applying a response's own status and reason returns an equal response whenever its reason is empty only for an unknown status |
| Responses.WithStatusLastWins | sys/import3p/s3/GuzzleHttp/Psr7/Response.php:121-129 | of two successive withStatus calls only the second matters; the first leaves no trace |
| Responses.CustomReasonReplacedByDefault | sys/import3p/s3/GuzzleHttp/Psr7/Response.php:121-129 | a custom reason on a known status is replaced by the table's phrase by withStatus(same status, ""), so that call is not a no-op |
| Responses.ApplyStatuses | sys/import3p/s3/GuzzleHttp/Psr7/Response.php:121-129 | any series of withStatus calls keeps protocol, headers and body, and keeps a valid response valid |
| Responses.ApplyStatusesIsLast | sys/import3p/s3/GuzzleHttp/Psr7/Response.php:121-129 | a non-empty series of withStatus calls equals its last call alone; an empty series changes nothing |
| Responses.ApplyStatusesCouplesReason | sys/import3p/s3/GuzzleHttp/Psr7/Response.php:121-129 | after at least one withStatus call the reason is empty only for an unknown status, whatever the starting response's reason was |

## Left out

- The `(int)` coercion of the status (lines 95 and 124): the status is modelled as an `int` already, so non-numeric input and its coercion to 0 are not represented. Line 103 indexes the table with the raw status rather than the coerced one; for an `int` the two are the same.
- `stream_for` (line 98) and the stream object: the body is recorded as the argument the stream would be built from (`Some(arg)`), or `None` when the message's default body applies. Reading a stream back is not modelled.
- `setHeaders` and the header storage of `MessageTrait` (lines 11 and 101): not part of this model. Headers are carried through unchanged as a list of names with their values; a single string value is passed as a one-element list.
- PHP loose typing of the reason: the constructor's reason is `Option<string>`, with "empty" meaning null or "". A non-string reason stored by `withStatus` (line 128) is not representable.
- Object identity and `clone`: a response is a value. "Distinct instance" has no counterpart, and "receiver unchanged" holds because values are immutable.
- The initial field values `''` and `200` (lines 76 and 79): the constructor always overwrites both, so they are not observable and are not modelled separately.
- Byte strings: PHP strings are byte sequences and Dafny strings are sequences of Unicode characters, so the phrases with non-ASCII letters ("Múltiples opciones", "Condición previa Falló", …) have different lengths in the two. No contract depends on a phrase's length.
