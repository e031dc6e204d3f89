/** The events of one execution on their way to the client: one queue, in order, none before the
    accepting response has gone out. */
module DeferredEvents {

  datatype Event = Output(channel: string, chunk: string) | ExecutionComplete(response: string)

  /** One link of the promise chain. */
  datatype Link = Queued | Sinking | Done(delivered: bool)

  datatype Queue = Queue(events: seq<Event>, links: seq<Link>, ready: bool, sunk: seq<Event>)

  const NEW := Queue([], [], false, [])

  datatype Step =
    | Enqueue(event: Event)
    | Ready                             // the scheduler's turn after construction
    | Sink(i: nat)                      // link i hands its event to the sink
    | Sunk(i: nat, delivered: bool)     // the sink's promise settles, one way or the other

  predicate CanStep(q: Queue, step: Step) {
    match step
    case Enqueue(_) => true
    case Ready => !q.ready
    case Sink(i) => q.ready && i < |q.links| && q.links[i].Queued? && (i == 0 || q.links[i - 1].Done?)
    case Sunk(i, _) => i < |q.links| && q.links[i].Sinking?
  }

  predicate Matched(q: Queue) {
    |q.events| == |q.links|
  }

  function Next(q: Queue, step: Step): Queue
    requires CanStep(q, step) && Matched(q)
  {
    match step
    case Enqueue(event) => q.(events := q.events + [event], links := q.links + [Queued])
    case Ready => q.(ready := true)
    case Sink(i) => q.(links := q.links[i := Sinking], sunk := q.sunk + [q.events[i]])
    case Sunk(i, delivered) => q.(links := q.links[i := Done(delivered)])
  }

  /** The links are done up to some point, at most one is sinking there, and the rest wait. */
  predicate InOrder(q: Queue) {
    && Matched(q) && |q.sunk| <= |q.events| && q.sunk == q.events[..|q.sunk|]
    && (forall i | 0 <= i < |q.links| :: q.links[i].Queued? <==> |q.sunk| <= i)
    && (forall i | 0 <= i < |q.links| && q.links[i].Sinking? :: i == |q.sunk| - 1)
    && (!q.ready ==> q.sunk == [])
  }

  lemma NextInOrder(q: Queue, step: Step)
    requires InOrder(q) && CanStep(q, step)
    ensures InOrder(Next(q, step))
  {
    if step.Sink? {
      assert step.i == |q.sunk|;
    }
  }

  /** queues[i] is the queue before steps[i]. */
  ghost predicate IsRun(queues: seq<Queue>, steps: seq<Step>) {
    && |queues| == |steps| + 1 && queues[0] == NEW
    && forall i | 0 <= i < |steps| ::
         Matched(queues[i]) && CanStep(queues[i], steps[i]) && queues[i + 1] == Next(queues[i], steps[i])
  }

  lemma {:induction false} RunInOrder(queues: seq<Queue>, steps: seq<Step>, i: nat)
    requires IsRun(queues, steps) && i <= |steps|
    ensures InOrder(queues[i])
    decreases i
  {
    if i > 0 {
      RunInOrder(queues, steps, i - 1);
      NextInOrder(queues[i - 1], steps[i - 1]);
    }
  }

  /** In every run the sink has been given a prefix of what was enqueued, in that order, one event
      at a time, and nothing before the queue was ready. */
  lemma SinkSeesAPrefix(queues: seq<Queue>, steps: seq<Step>, i: nat)
    requires IsRun(queues, steps) && i <= |steps|
    ensures var q := queues[i];
      && q.sunk <= q.events && (q.sunk != [] ==> q.ready)
      && forall a, b | 0 <= a < |q.links| && 0 <= b < |q.links| && q.links[a].Sinking? && q.links[b].Sinking? :: a == b
  {
    RunInOrder(queues, steps, i);
  }

  /** A sink that fails holds nothing up: whenever something waits and nothing is being sunk, the
      next event can be sunk, whatever became of the ones before it. */
  lemma FailuresDoNotBlock(queues: seq<Queue>, steps: seq<Step>, i: nat)
    requires IsRun(queues, steps) && i <= |steps|
    requires queues[i].ready && |queues[i].sunk| < |queues[i].events|
    requires forall k | 0 <= k < |queues[i].links| :: !queues[i].links[k].Sinking?
    ensures CanStep(queues[i], Sink(|queues[i].sunk|))
  {
    RunInOrder(queues, steps, i);
  }

  /** The events of the enqueueing steps, in their order. */
  function Enqueued(steps: seq<Step>): seq<Event> {
    if steps == [] then []
    else
      var last := steps[|steps| - 1];
      Enqueued(steps[..|steps| - 1]) + if last.Enqueue? then [last.event] else []
  }

  /** The queue's order is the order in which output and completion were reported. */
  lemma {:induction false} QueueKeepsTheOrder(queues: seq<Queue>, steps: seq<Step>, i: nat)
    requires IsRun(queues, steps) && i <= |steps|
    ensures queues[i].events == Enqueued(steps[..i])
    decreases i
  {
    if i > 0 {
      QueueKeepsTheOrder(queues, steps, i - 1);
      assert steps[..i][..i - 1] == steps[..i - 1] && steps[..i][i - 1] == steps[i - 1];
    }
  }
}
