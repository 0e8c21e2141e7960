/**
 The `main` loop of the fetcher: one started `HttpClient` per record of the
 sites file that names both a host and a path, and an event loop that runs
 each completion handler on the client whose operation completed.
 */
module Supervisor {

  import opened Wrappers
  import opened HttpWire
  import opened HttpClient
  import opened ClientProperties

  /** One line of the sites file after JSON parsing: each field present or not. */
  datatype Record = Record(host: Option<string>, path: Option<string>)

  /** `j.at("host")` and `j.at("path")` both succeed. */
  predicate Complete(r: Record) {
    r.host.Some? && r.path.Some?
  }

  /** The target a complete record names. */
  function TargetOf(r: Record): Target
    requires Complete(r)
  {
    Target(r.host.value, r.path.value)
  }

  /**
   The loop over the records: a complete record gets a new client that is
   started at once; an incomplete one is skipped with a warning.
   */
  function Launch(records: seq<Record>): (cs: seq<Client>)
    ensures |cs| <= |records|
    ensures forall i :: 0 <= i < |cs| ==> cs[i].stage == Resolving && Pending(cs[i]) == Some(Resolve(cs[i].target.host, "http"))
  {
    if records == [] then []
    else (if Complete(records[0]) then [Start(TargetOf(records[0]))] else []) + Launch(records[1..])
  }

  /** Records are handled one after another: launching a concatenation launches each part in order. */
  lemma {:induction false} LaunchInOrder(a: seq<Record>, b: seq<Record>)
    ensures Launch(a + b) == Launch(a) + Launch(b)
    decreases |a|
  {
    if a == [] {
      assert a + b == b;
    } else {
      assert (a + b)[1..] == a[1..] + b;
      LaunchInOrder(a[1..], b);
    }
  }

  /** Every client comes from a complete record, started on that record's target. */
  lemma {:induction false} LaunchedFromRecord(records: seq<Record>, i: nat)
    requires i < |Launch(records)|
    ensures exists j :: 0 <= j < |records| && Complete(records[j]) && Launch(records)[i] == Start(TargetOf(records[j]))
    decreases |records|
  {
    var head := if Complete(records[0]) then [Start(TargetOf(records[0]))] else [];
    if i < |head| {
      assert Launch(records)[i] == Start(TargetOf(records[0]));
    } else {
      LaunchedFromRecord(records[1..], i - |head|);
      var j :| 0 <= j < |records[1..]| && Complete(records[1..][j]) && Launch(records[1..])[i - |head|] == Start(TargetOf(records[1..][j]));
      assert records[1..][j] == records[j + 1];
    }
  }

  /** Every complete record gets a client started on its target. */
  lemma {:induction false} RecordLaunched(records: seq<Record>, j: nat)
    requires j < |records| && Complete(records[j])
    ensures Start(TargetOf(records[j])) in Launch(records)
    decreases |records|
  {
    if j > 0 {
      RecordLaunched(records[1..], j - 1);
      assert records[1..][j - 1] == records[j];
    }
  }

  /** A record without both fields creates no client. */
  lemma IncompleteSkipped(r: Record)
    requires !Complete(r)
    ensures Launch([r]) == []
  {
  }

  /** Every launched client satisfies the client invariant. */
  lemma LaunchedValid(records: seq<Record>)
    ensures forall i :: 0 <= i < |Launch(records)| ==> Valid(Launch(records)[i])
  {
    forall i | 0 <= i < |Launch(records)|
      ensures Valid(Launch(records)[i])
    {
      LaunchedFromRecord(records, i);
      var j :| 0 <= j < |records| && Complete(records[j]) && Launch(records)[i] == Start(TargetOf(records[j]));
      StartValid(TargetOf(records[j]));
    }
  }

  /** The completion `event` of an operation client `client` issued. */
  datatype Delivery = Delivery(client: nat, event: Event)

  /**
   The event loop runs the completion handler on the client it belongs to;
   the handler only touches `this`.
   */
  function Deliver(cs: seq<Client>, d: Delivery): (r: seq<Client>)
    requires d.client < |cs|
    ensures |r| == |cs| && r[d.client] == Step(cs[d.client], d.event)
    ensures forall j :: 0 <= j < |cs| && j != d.client ==> r[j] == cs[j]
  {
    cs[d.client := Step(cs[d.client], d.event)]
  }

  /** Every delivery of `schedule` is addressed to one of `n` clients. */
  predicate Addressed(schedule: seq<Delivery>, n: nat) {
    forall k :: 0 <= k < |schedule| ==> schedule[k].client < n
  }

  /** `io_service.run()`: the completions in the order the event loop dispatches them. */
  function RunAll(cs: seq<Client>, schedule: seq<Delivery>): (r: seq<Client>)
    requires Addressed(schedule, |cs|)
    ensures |r| == |cs|
    decreases |schedule|
  {
    if schedule == [] then cs else RunAll(Deliver(cs, schedule[0]), schedule[1..])
  }

  /** The events of `schedule` addressed to client `j`, in order. */
  function EventsFor(schedule: seq<Delivery>, j: nat): (es: seq<Event>)
    ensures |es| <= |schedule|
  {
    if schedule == [] then []
    else (if schedule[0].client == j then [schedule[0].event] else []) + EventsFor(schedule[1..], j)
  }

  /**
   Isolation: after any interleaving of completions, each client is where
   its own completions alone would have taken it.
   */
  lemma {:induction false} RunAllIsolated(cs: seq<Client>, schedule: seq<Delivery>, j: nat)
    requires Addressed(schedule, |cs|) && j < |cs|
    ensures RunAll(cs, schedule)[j] == Run(cs[j], EventsFor(schedule, j))
    decreases |schedule|
  {
    if schedule != [] {
      var d := schedule[0];
      var cs' := Deliver(cs, d);
      var later := EventsFor(schedule[1..], j);
      RunAllIsolated(cs', schedule[1..], j);
      if d.client == j {
        assert ([d.event] + later)[1..] == later;
      } else {
        assert [] + later == later;
      }
    }
  }

  /** Client `j` is untouched by a schedule with no completion for it, even one where the others fail with error codes. */
  lemma OthersUnaffected(cs: seq<Client>, schedule: seq<Delivery>, j: nat)
    requires Addressed(schedule, |cs|) && j < |cs|
    requires forall k :: 0 <= k < |schedule| ==> schedule[k].client != j
    ensures RunAll(cs, schedule)[j] == cs[j]
  {
    RunAllIsolated(cs, schedule, j);
    NoEventsFor(schedule, j);
  }

  /** No delivery is addressed to `j`, so `j` has no events. */
  lemma {:induction false} NoEventsFor(schedule: seq<Delivery>, j: nat)
    requires forall k :: 0 <= k < |schedule| ==> schedule[k].client != j
    ensures EventsFor(schedule, j) == []
    decreases |schedule|
  {
    if schedule != [] {
      NoEventsFor(schedule[1..], j);
    }
  }

  /** Every client of a launched fleet keeps the client invariant, whatever the interleaving. */
  lemma RunAllValid(records: seq<Record>, schedule: seq<Delivery>)
    requires Addressed(schedule, |Launch(records)|)
    ensures forall j :: 0 <= j < |Launch(records)| ==> Valid(RunAll(Launch(records), schedule)[j])
  {
    var cs := Launch(records);
    LaunchedValid(records);
    forall j | 0 <= j < |cs|
      ensures Valid(RunAll(cs, schedule)[j])
    {
      RunAllIsolated(cs, schedule, j);
      RunPreservesValid(cs[j], EventsFor(schedule, j));
    }
  }
}
