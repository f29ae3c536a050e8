/**
 The PSR-7 response value object: a status code and reason phrase that are
 always set together, a protocol version, headers and an optional body. Every
 "mutator" returns a new value; values are immutable, so the receiver of
 `WithStatus` is left exactly as it was.
 */
module Responses {
  import opened Wrappers
  import Phrases

  /** The header argument handed to the message's header storage: pairs of a
      header name and its values, a single value being passed as a
      one-element list. Its normalisation belongs to that storage, which this
      model does not cover, so a response carries it unchanged. */
  type HeaderList = seq<(string, seq<string>)>

  /** What a caller may pass as the body: nothing (`null`), a string, or a
      stream-like source (a resource or stream object), which the model only
      tells apart by an opaque handle. */
  datatype BodyArg = NullBody | TextBody(text: string) | SourceBody(handle: nat)
  {
    /** `null` and the empty string leave the body to the message's default;
        any stream-like source is wrapped, even one with no content. */
    predicate IsEmpty(): (b: bool)
      ensures SourceBody? ==> !b
      ensures b <==> this == NullBody || this == TextBody("")
    {
      NullBody? || (TextBody? && text == "")
    }
  }

  /** A response. `body` is `Some(arg)` when a stream was built from `arg`,
      and `None` when the message's default (empty) body applies. The
      accessors `getStatusCode` and `getReasonPhrase` are the selectors
      `statusCode` and `reasonPhrase`. */
  datatype Response = Response(
    statusCode: int,
    reasonPhrase: string,
    protocol: string,
    headers: HeaderList,
    body: Option<BodyArg>)

  /** What every constructed response satisfies: the reason phrase is empty
      only for a status code the phrase table does not know, and a recorded
      body was built from neither `null` nor "". */
  predicate Valid(x: Response)
  {
    && (x.reasonPhrase == "" ==> !Phrases.Known(x.statusCode))
    && (x.body.Some? ==> !x.body.value.IsEmpty())
  }

  /** `withStatus`: a copy of `x` with status `code`; `reason` is defaulted
      from the table when it is empty and `code` is known. Nothing else
      changes. */
  function WithStatus(x: Response, code: int, reason: string): (r: Response)
    ensures r.statusCode == code
    ensures reason == "" && Phrases.Known(code) ==> r.reasonPhrase == Phrases.Lookup(code).value
    ensures reason != "" || !Phrases.Known(code) ==> r.reasonPhrase == reason
    ensures r.protocol == x.protocol && r.headers == x.headers && r.body == x.body
  {
    x.(statusCode := code, reasonPhrase := Phrases.Resolve(code, reason))
  }

  const DefaultStatus: int := 200
  const DefaultVersion: string := "1.1"

  /** The reason argument as the source reads it: `null` and "" both count
      as empty under the loose comparison with '', and the string cast turns
      `null` into "". */
  function ReasonText(reason: Option<string>): (r: string)
    ensures r == "" <==> reason.None? || reason.value == ""
    ensures reason.Some? ==> r == reason.value
  {
    reason.GetOr("")
  }

  /** The constructor: stores the status as given (no range check), records a
      body only when it is neither `null` nor "", stores the version verbatim
      and defaults an empty or missing reason from the table. */
  function New(status: int, headers: HeaderList, body: BodyArg, version: string,
               reason: Option<string>): (r: Response)
    ensures r.statusCode == status
    ensures ReasonText(reason) == "" && Phrases.Known(status) ==> r.reasonPhrase == Phrases.Lookup(status).value
    ensures ReasonText(reason) == "" && !Phrases.Known(status) ==> r.reasonPhrase == ""
    ensures reason.Some? && reason.value != "" ==> r.reasonPhrase == reason.value
    ensures r.body.None? <==> body.IsEmpty()
    ensures r.body.Some? ==> r.body.value == body
    ensures r.protocol == version && r.headers == headers
  {
    Response(status, Phrases.Resolve(status, ReasonText(reason)), version, headers,
             if body.IsEmpty() then None else Some(body))
  }

  /** The constructor with every argument left at its default. */
  function Default(): (r: Response)
    ensures r.statusCode == 200 && r.reasonPhrase == "OK" && r.protocol == "1.1"
    ensures r.headers == [] && r.body.None?
  {
    New(DefaultStatus, [], NullBody, DefaultVersion, None)
  }

  /** A constructed response satisfies `Valid`. */
  lemma NewIsValid(status: int, headers: HeaderList, body: BodyArg, version: string,
                   reason: Option<string>)
    ensures Valid(New(status, headers, body, version, reason))
  {
    Phrases.ResolveEmptyIff(status, ReasonText(reason));
  }

  /** The constructed reason is empty exactly when no reason was supplied and
      the status is unknown to the table. */
  lemma NewReasonEmptyIff(status: int, headers: HeaderList, body: BodyArg, version: string,
                          reason: Option<string>)
    ensures New(status, headers, body, version, reason).reasonPhrase == ""
        <==> ReasonText(reason) == "" && !Phrases.Known(status)
  {
    Phrases.ResolveEmptyIff(status, ReasonText(reason));
  }

  /** `WithStatus` establishes the status/reason coupling for any receiver
      and carries the body over, so it keeps `Valid`. */
  lemma WithStatusPreservesValid(x: Response, code: int, reason: string)
    ensures var r := WithStatus(x, code, reason);
      r.reasonPhrase == "" ==> !Phrases.Known(r.statusCode)
    ensures Valid(x) ==> Valid(WithStatus(x, code, reason))
  {
    Phrases.ResolveEmptyIff(code, reason);
  }

  /** `WithStatus` defaults the reason exactly as the constructor does: it
      gives the response the constructor would have built from the same
      headers, body and version with the new status and reason. */
  lemma WithStatusMirrorsNew(status: int, headers: HeaderList, body: BodyArg, version: string,
                             reason: Option<string>, code: int, newReason: string)
    ensures WithStatus(New(status, headers, body, version, reason), code, newReason)
         == New(code, headers, body, version, Some(newReason))
  {
  }

  /** Re-applying a response's own status and reason gives it back, whenever
      its reason is coupled to its status as construction leaves it. */
  lemma WithCurrentStatusIsIdentity(x: Response)
    requires x.reasonPhrase == "" ==> !Phrases.Known(x.statusCode)
    ensures WithStatus(x, x.statusCode, x.reasonPhrase) == x
  {
  }

  /** Only the last of two `WithStatus` calls matters. */
  lemma WithStatusLastWins(x: Response, c1: int, r1: string, c2: int, r2: string)
    ensures WithStatus(WithStatus(x, c1, r1), c2, r2) == WithStatus(x, c2, r2)
  {
  }

  /** A custom reason is not sticky: asking again for the same known status
      with an empty reason replaces it by the table's phrase. */
  lemma CustomReasonReplacedByDefault(status: int, headers: HeaderList, body: BodyArg,
                                      version: string, custom: string)
    requires Phrases.Known(status) && custom != "" && custom != Phrases.Lookup(status).value
    ensures New(status, headers, body, version, Some(custom)).reasonPhrase == custom
    ensures WithStatus(New(status, headers, body, version, Some(custom)), status, "").reasonPhrase
         == Phrases.Lookup(status).value
    ensures WithStatus(New(status, headers, body, version, Some(custom)), status, "")
         != New(status, headers, body, version, Some(custom))
  {
  }

  /** A series of `withStatus` calls, applied left to right. */
  function ApplyStatuses(x: Response, changes: seq<(int, string)>): (r: Response)
    ensures r.protocol == x.protocol && r.headers == x.headers && r.body == x.body
    ensures Valid(x) ==> Valid(r)
    decreases |changes|
  {
    if changes == [] then x
    else
      WithStatusPreservesValid(x, changes[0].0, changes[0].1);
      ApplyStatuses(WithStatus(x, changes[0].0, changes[0].1), changes[1..])
  }

  /** However many `withStatus` calls precede it, the last one alone decides
      the status and reason; an empty series leaves the response unchanged. */
  lemma {:induction false} ApplyStatusesIsLast(x: Response, changes: seq<(int, string)>)
    ensures changes == [] ==> ApplyStatuses(x, changes) == x
    ensures changes != [] ==>
      ApplyStatuses(x, changes) == WithStatus(x, changes[|changes| - 1].0, changes[|changes| - 1].1)
    decreases |changes|
  {
    if |changes| > 1 {
      var c := changes[0];
      ApplyStatusesIsLast(WithStatus(x, c.0, c.1), changes[1..]);
      WithStatusLastWins(x, c.0, c.1, changes[|changes| - 1].0, changes[|changes| - 1].1);
    }
  }

  /** After at least one `withStatus` call the status/reason coupling holds,
      whatever the reason of the starting response was; the body half of
      `Valid` is carried over from the start. */
  lemma ApplyStatusesCouplesReason(x: Response, changes: seq<(int, string)>)
    requires changes != []
    ensures var r := ApplyStatuses(x, changes);
      r.reasonPhrase == "" ==> !Phrases.Known(r.statusCode)
    ensures Valid(x) ==> Valid(ApplyStatuses(x, changes))
  {
    var last := changes[|changes| - 1];
    ApplyStatusesIsLast(x, changes);
    Phrases.ResolveEmptyIff(last.0, last.1);
  }
}
