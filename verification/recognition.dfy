/**
 * The polling half of the recognition protocol: after the document is
 * submitted, the client polls the operation until a response reports the
 * status "Succeeded". Every other status, a failure status included, leads to
 * another poll. The responses the service would return are given as a finite
 * sequence, one per poll.
 */
module RecognitionClient {
  import opened Models

  const Succeeded: string := "Succeeded"

  /**
   * Polls `responses` in order and returns the first response whose status is
   * exactly "Succeeded", with the number of polls made. `None` means the
   * given responses ran out first; the service itself would be polled again.
   */
  method RetrieveBatchReadResponse(responses: seq<BatchResult>) returns (batchResult: Option<BatchResult>, polls: nat)
    ensures polls <= |responses|
    ensures batchResult.Some? ==>
      1 <= polls && batchResult.value == responses[polls - 1] && batchResult.value.status == Succeeded
    ensures forall j :: 0 <= j < |responses| && j < polls - 1 ==> responses[j].status != Succeeded
    ensures batchResult.None? <==> forall j :: 0 <= j < |responses| ==> responses[j].status != Succeeded
  {
    batchResult := None;
    polls := 0;
    while batchResult.None? && polls < |responses|
      invariant polls <= |responses|
      invariant forall j :: 0 <= j < polls - 1 ==> responses[j].status != Succeeded
      invariant batchResult.None? ==> forall j :: 0 <= j < polls ==> responses[j].status != Succeeded
      invariant batchResult.Some? ==>
        1 <= polls && batchResult.value == responses[polls - 1] && batchResult.value.status == Succeeded
    {
      var result := responses[polls];
      polls := polls + 1;
      batchResult := if result.status == Succeeded then Some(result) else None;
    }
  }
}
