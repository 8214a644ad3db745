/**
 * `EventController.processEventsPayload`: hand the payload to the service
 * and choose the response status from the messages it returns.
 */
module EventController {
  import opened JavaText
  import Processing
  import opened EventService

  datatype HttpStatus = Accepted | BadRequest | MultiStatus

  /** The response: the service's map as the body, and the chosen status. */
  datatype Response = Response(body: map<int, string>, status: HttpStatus)

  /**
   * The status for a result map: some success and some failure is a
   * partial success, failures only are a bad request, and otherwise
   * (every line succeeded, or there were no lines) the batch is accepted.
   */
  function StatusFor(results: map<int, string>): (status: HttpStatus)
    ensures status == MultiStatus <==>
      (exists k :: k in results && results[k] == Processing.SUCCESS_MESSAGE)
      && (exists k :: k in results && results[k] != Processing.SUCCESS_MESSAGE)
    ensures status == BadRequest <==>
      results != map[] && forall k :: k in results ==> results[k] != Processing.SUCCESS_MESSAGE
    ensures status == Accepted <==> forall k :: k in results ==> results[k] == Processing.SUCCESS_MESSAGE
    ensures results == map[] ==> status == Accepted
  {
    // `anyMatch` over the values, stated over the keys that hold them.
    var hasErrors := exists k :: k in results && results[k] != Processing.SUCCESS_MESSAGE;
    var hasSuccess := exists k :: k in results && results[k] == Processing.SUCCESS_MESSAGE;
    assert results != map[] ==> exists k :: k in results by {
      if forall k :: k !in results {
        assert results == map[];
      }
    }
    if hasErrors && hasSuccess then MultiStatus
    else if hasErrors then BadRequest
    else Accepted
  }

  /** `processEventsPayload`: the service's results, unchanged, with the status they call for. */
  method ProcessEventsPayload(service: EventServiceImpl, payload: string, clock: int -> int) returns (response: Response)
    requires service.Valid()
    modifies service
    ensures service.Valid()
    ensures response.body == Processing.ResultMap(JavaSplit(payload, '\n'), clock)
    ensures response.status == StatusFor(response.body)
    ensures var lines := JavaSplit(payload, '\n');
      service.eventDeque
        == Processing.InsertAll(old(service.eventDeque), Processing.AcceptedEvents(Processing.Outcomes(lines, clock), |lines|))
  {
    var eventProcessingResults := service.ValidateAndProcessEvents(payload, clock);
    var status := StatusFor(eventProcessingResults);
    response := Response(eventProcessingResults, status);
  }

  /**
   * The status of a batch in terms of its lines: accepted when every line
   * was accepted, a bad request when there are lines and none was accepted,
   * and a partial success when some were and some were not.
   */
  lemma BatchStatus(lines: seq<string>, clock: int -> int)
    ensures var status, outcomes := StatusFor(Processing.ResultMap(lines, clock)), Processing.Outcomes(lines, clock);
      && |outcomes| == |lines|
      && (status == Accepted <==> forall i :: 0 <= i < |outcomes| ==> outcomes[i].Accepted?)
      && (status == BadRequest <==> |outcomes| >= 1 && forall i :: 0 <= i < |outcomes| ==> !outcomes[i].Accepted?)
      && (status == MultiStatus <==>
            (exists i :: 0 <= i < |outcomes| && outcomes[i].Accepted?)
            && (exists i :: 0 <= i < |outcomes| && !outcomes[i].Accepted?))
  {
    Processing.OutcomesRejectWithErrors(lines, clock);
    OutcomesStatus(Processing.Outcomes(lines, clock));
  }

  /** The status of the results of a sequence of outcomes, in terms of which outcomes are acceptances. */
  lemma OutcomesStatus(outcomes: seq<Processing.LineOutcome>)
    requires forall i :: 0 <= i < |outcomes| && outcomes[i].Rejected? ==> |outcomes[i].errors| >= 1
    ensures var status := StatusFor(Processing.ResultsUpTo(outcomes, |outcomes|));
      && (status == Accepted <==> forall i :: 0 <= i < |outcomes| ==> outcomes[i].Accepted?)
      && (status == BadRequest <==> |outcomes| >= 1 && forall i :: 0 <= i < |outcomes| ==> !outcomes[i].Accepted?)
      && (status == MultiStatus <==>
            (exists i :: 0 <= i < |outcomes| && outcomes[i].Accepted?)
            && (exists i :: 0 <= i < |outcomes| && !outcomes[i].Accepted?))
  {
    LineMessages(outcomes);
  }

  /** The keys holding the success message are those of the accepted outcomes, one past their index. */
  lemma LineMessages(outcomes: seq<Processing.LineOutcome>)
    requires forall i :: 0 <= i < |outcomes| && outcomes[i].Rejected? ==> |outcomes[i].errors| >= 1
    ensures var m := Processing.ResultsUpTo(outcomes, |outcomes|);
      && ((exists k :: k in m && m[k] == Processing.SUCCESS_MESSAGE)
          <==> exists i :: 0 <= i < |outcomes| && outcomes[i].Accepted?)
      && ((exists k :: k in m && m[k] != Processing.SUCCESS_MESSAGE)
          <==> exists i :: 0 <= i < |outcomes| && !outcomes[i].Accepted?)
      && (m == map[] <==> |outcomes| == 0)
  {
    var m := Processing.ResultsUpTo(outcomes, |outcomes|);
    Processing.ResultsUpToKeys(outcomes, |outcomes|);
    forall i | 0 <= i < |outcomes|
      ensures i + 1 in m
      ensures m[i + 1] == Processing.SUCCESS_MESSAGE <==> outcomes[i].Accepted?
    {
      Processing.ResultsUpToValue(outcomes, |outcomes|, i + 1);
      Processing.OutcomeMessageSuccess(outcomes[i]);
    }
    forall k | k in m
      ensures 1 <= k <= |outcomes| && m[k] == Processing.OutcomeMessage(outcomes[k - 1])
    {
      Processing.ResultsUpToValue(outcomes, |outcomes|, k);
    }
    if |outcomes| >= 1 {
      assert 1 in m;
    }
  }
}
