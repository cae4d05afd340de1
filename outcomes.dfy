/**
  The HTTP boundary of the adapter. `request` wraps a Guzzle call in a
  catch-all: it returns the response object, or, when the client threw,
  the JSON-encoded exception message as a string. Every operation then
  decides its outcome with `is_object` and, for rename, the status code.
  The transport itself is not modelled: each operation receives the
  `Response` the call would have produced and returns the `Request` it
  issues.
 */
module Outcomes {
  import opened PhpStrings
  import opened Normalizer

  /** What `request` returns: a response object, or the caught exception's message. */
  datatype Response = Resp(status: int, headers: HeaderBag, body: PhpString) | Fail(message: PhpString)

  /** The arguments `request` hands to the HTTP client. */
  datatype Request = Request(verb: PhpString, url: PhpString, headers: map<PhpString, PhpString>, body: Option<PhpString>)

  /**
    `request(verb, url, headers, body)`: a body is attached only when PHP's
    `empty()` is false for it, so neither "" nor "0" is ever sent.
   */
  function Outgoing(verb: PhpString, url: PhpString, headers: map<PhpString, PhpString>, body: PhpString): Request {
    Request(verb, url, headers, if PhpEmpty(body) then None else Some(body))
  }

  /**
    rename's test after the COPY: it gives up only when a response came
    back with a status other than 201; a transport failure, which is a
    string and not an object, lets it go on to delete the original.
   */
  predicate RenameProceeds(copy: Response) {
    !(copy.Resp? && copy.status != 201)
  }

  /** The intended test: go on only when the COPY returned 201 Created. */
  predicate RenameProceedsCorrected(copy: Response) {
    copy.Resp? && copy.status == 201
  }

  /** A PHP value as far as deleteDir inspects it: a bool, or an object with an optional `status`. */
  datatype PhpValue = BoolValue(b: bool) | ObjectValue(status: Option<int>)

  /** `isset($v->status) && $v->status === 200`. */
  predicate HasStatus200(v: PhpValue) {
    v.ObjectValue? && v.status == Some(200)
  }

  /** A transport failure on the COPY still deletes the original; the corrected test does not. */
  lemma RenameDeletesAfterTransportFailure(message: PhpString)
    ensures RenameProceeds(Fail(message))
    ensures !RenameProceedsCorrected(Fail(message))
  {
  }

  /** The two tests agree on every response and differ on every transport failure. */
  lemma RenameTestsDifferOnlyOnFailure(copy: Response)
    ensures RenameProceeds(copy) != RenameProceedsCorrected(copy) <==> copy.Fail?
    ensures RenameProceedsCorrected(copy) ==> RenameProceeds(copy)
  {
  }

  /** deleteDir inspects the bool that delete returns, which never has a status. */
  lemma DeleteDirNeverSucceeds(deleted: bool)
    ensures !HasStatus200(BoolValue(deleted))
  {
  }
}
