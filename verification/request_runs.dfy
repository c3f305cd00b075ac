/**
 A sequence of requests handled one after another against the same table. Each
 request sees the table the previous one left, which is all the service promises
 across requests since it keeps no state of its own.
 */
module RequestRuns {
  import opened PersonaModel
  import opened Handlers

  /** One request together with the outcome of its database calls. */
  datatype Call = Call(request: Request, driver: Driver)

  /** The responses sent, in order, and the final table. */
  datatype Trace = Trace(responses: seq<Response>, table: Table)

  function Run(t: Table, calls: seq<Call>): (r: Trace)
    ensures |r.responses| == |calls|
    ensures t.nextId <= r.table.nextId
    decreases |calls|
  {
    if |calls| == 0 then Trace([], t)
    else
      var step := Handle(t, calls[0].request, calls[0].driver);
      var rest := Run(step.table, calls[1..]);
      Trace([step.response] + rest.responses, rest.table)
  }

  /** The keys announced by the 201 responses, in the order they were sent. */
  function CreatedIds(rs: seq<Response>): seq<int>
    decreases |rs|
  {
    if |rs| == 0 then []
    else if rs[0].payload.CreatedPayload? then [rs[0].payload.id] + CreatedIds(rs[1..])
    else CreatedIds(rs[1..])
  }

  /** The table invariant holds after any sequence of requests, failing ones included. */
  lemma {:induction false} RunPreservesValid(t: Table, calls: seq<Call>)
    requires Valid(t)
    ensures Valid(Run(t, calls).table)
    decreases |calls|
  {
    if |calls| > 0 {
      var step := Handle(t, calls[0].request, calls[0].driver);
      RunPreservesValid(step.table, calls[1..]);
    }
  }

  /** The keys a run announces are strictly increasing, start at the counter's
      value before the run and stop below its value after it, and the counter
      advances by exactly one per 201. */
  lemma {:induction false} RunCreatedIdsIncrease(t: Table, calls: seq<Call>)
    ensures var r := Run(t, calls);
            var ids := CreatedIds(r.responses);
            && (forall i, j :: 0 <= i < j < |ids| ==> ids[i] < ids[j])
            && (forall i :: 0 <= i < |ids| ==> t.nextId <= ids[i] < r.table.nextId)
            && r.table.nextId == t.nextId + |ids|
    decreases |calls|
  {
    if |calls| > 0 {
      var step := Handle(t, calls[0].request, calls[0].driver);
      var rest := Run(step.table, calls[1..]);
      RunCreatedIdsIncrease(step.table, calls[1..]);
      var rs := [step.response] + rest.responses;
      assert rs[1..] == rest.responses;
    }
  }

  /** No key announced during a run belonged to a row of the table it started from,
      and no key is announced twice. */
  lemma RunNeverReissuesKey(t: Table, calls: seq<Call>)
    requires Valid(t)
    ensures var ids := CreatedIds(Run(t, calls).responses);
            && (forall i :: 0 <= i < |ids| ==> ids[i] !in t.rows)
            && (forall i, j :: 0 <= i < |ids| && 0 <= j < |ids| && i != j ==> ids[i] != ids[j])
  {
    RunCreatedIdsIncrease(t, calls);
    var ids := CreatedIds(Run(t, calls).responses);
    forall i, j | 0 <= i < |ids| && 0 <= j < |ids| && i != j
      ensures ids[i] != ids[j]
    {
      if i < j { assert ids[i] < ids[j]; } else { assert ids[j] < ids[i]; }
    }
  }
}
