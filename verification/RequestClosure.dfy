/** One request over the transport: many callbacks race to settle it, the first one that can does. */
module RequestClosure {
  import opened Wrappers

  datatype ErrorCode =
    | Cancelled | ResultUnknown | ProtocolMismatch | TransportDisconnected | SshDisconnected
    | OtherCode(name: string)

  datatype Frame =
    | InvalidJson | MismatchedId | OutputFrame | UnexpectedType
    | ErrorResponse(code: ErrorCode) | ResultResponse(result: string)

  /** The callbacks of the socket, the timer, the line reader and the abort signal. */
  datatype Callback =
    | Connected
    | SocketFailed       // error, end or close
    | TimedOut
    | Line(frame: Frame)
    | Aborted
    | CancelFailed       // the cancel request could not be confirmed

  datatype Ending = Resolved(result: string) | Rejected(code: ErrorCode)

  predicate IsDisconnect(code: ErrorCode) {
    code == TransportDisconnected || code == SshDisconnected
  }

  function DisconnectCode(sideEffect: bool): ErrorCode {
    if sideEffect then ResultUnknown else TransportDisconnected
  }

  /** What a callback settles the request with, if it does. */
  function Settles(sideEffect: bool, sent: bool, callback: Callback): Option<Ending> {
    match callback
    case Connected => None
    case SocketFailed => Some(Rejected(DisconnectCode(sideEffect)))
    case TimedOut => Some(Rejected(DisconnectCode(sideEffect)))
    case CancelFailed => Some(Rejected(DisconnectCode(sideEffect)))
    case Aborted => if sent then None else Some(Rejected(Cancelled))
    case Line(frame) =>
      match frame
      case OutputFrame => None
      case ErrorResponse(code) => Some(Rejected(if sideEffect && IsDisconnect(code) then ResultUnknown else code))
      case ResultResponse(result) => Some(Resolved(result))
      case _ => Some(Rejected(ProtocolMismatch))
  }

  /** The request went out at callback i, or before it. */
  predicate SentBy(callbacks: seq<Callback>, i: nat)
    requires i <= |callbacks|
  {
    Connected in callbacks[..i]
  }

  function EndingAt(sideEffect: bool, callbacks: seq<Callback>, i: nat): Option<Ending>
    requires i < |callbacks|
  {
    Settles(sideEffect, SentBy(callbacks, i), callbacks[i])
  }

  /** The first callback that settles decides, and before it none does. */
  ghost predicate DecidedAt(sideEffect: bool, callbacks: seq<Callback>, i: nat, ending: Ending) {
    && i < |callbacks| && EndingAt(sideEffect, callbacks, i) == Some(ending)
    && forall k | 0 <= k < i :: EndingAt(sideEffect, callbacks, k).None?
  }

  ghost predicate Undecided(sideEffect: bool, callbacks: seq<Callback>) {
    forall k | 0 <= k < |callbacks| :: EndingAt(sideEffect, callbacks, k).None?
  }

  ghost predicate FirstWins(sideEffect: bool, callbacks: seq<Callback>, ending: Option<Ending>) {
    match ending
    case None => Undecided(sideEffect, callbacks)
    case Some(e) => exists i: nat :: DecidedAt(sideEffect, callbacks, i, e)
  }

  lemma OneMore(sideEffect: bool, callbacks: seq<Callback>, callback: Callback, ending: Option<Ending>)
    requires FirstWins(sideEffect, callbacks, ending)
    ensures ending.Some? ==> FirstWins(sideEffect, callbacks + [callback], ending)
    ensures ending.None? ==>
              FirstWins(sideEffect, callbacks + [callback], Settles(sideEffect, Connected in callbacks, callback))
  {
    var all := callbacks + [callback];
    assert all[..|callbacks|] == callbacks;
    forall k | 0 <= k < |callbacks|
      ensures EndingAt(sideEffect, all, k) == EndingAt(sideEffect, callbacks, k)
    {
      assert all[..k] == callbacks[..k];
    }
    if ending.Some? {
      var i: nat :| DecidedAt(sideEffect, callbacks, i, ending.value);
      assert DecidedAt(sideEffect, all, i, ending.value);
    } else {
      assert EndingAt(sideEffect, all, |callbacks|) == Settles(sideEffect, Connected in callbacks, callback);
      var now := Settles(sideEffect, Connected in callbacks, callback);
      assert now.Some? ==> DecidedAt(sideEffect, all, |callbacks|, now.value);
    }
  }

  class Request {
    const sideEffect: bool
    var settled: bool
    var requestSent: bool
    var cancellationStarted: bool
    var ending: Option<Ending>
    ghost var callbacks: seq<Callback>
    ghost var cancels: nat  // cancel requests issued

    ghost predicate Valid()
      reads this
    {
      && FirstWins(sideEffect, callbacks, ending)
      && (settled <==> ending.Some?)
      && (!settled ==> (requestSent <==> Connected in callbacks))
      && cancels == (if cancellationStarted then 1 else 0)
      && (cancellationStarted ==> requestSent)
      && (requestSent ==> Connected in callbacks)
    }

    constructor (sideEffect: bool)
      ensures Valid() && callbacks == [] && this.sideEffect == sideEffect
    {
      this.sideEffect := sideEffect;
      settled, requestSent, cancellationStarted, ending := false, false, false, None;
      callbacks, cancels := [], 0;
    }

    method Finish(how: Ending)
      modifies this
      ensures callbacks == old(callbacks) && cancels == old(cancels)
      ensures requestSent == old(requestSent) && cancellationStarted == old(cancellationStarted)
      ensures if old(settled) then settled && ending == old(ending) else settled && ending == Some(how)
    {
      if settled {
        return;
      }
      settled := true;
      ending := Some(how);
    }

    method Abort()
      modifies this
      ensures callbacks == old(callbacks) && requestSent == old(requestSent)
      ensures if old(settled || cancellationStarted) then unchanged(this)
              else if !old(requestSent) then settled && ending == Some(Rejected(Cancelled)) && cancels == old(cancels)
                                             && !cancellationStarted
              else cancellationStarted && cancels == old(cancels) + 1
                   && settled == old(settled) && ending == old(ending)
    {
      if settled || cancellationStarted {
        return;
      }
      if !requestSent {
        Finish(Rejected(Cancelled));
        return;
      }
      cancellationStarted := true;
      cancels := cancels + 1;
    }

    method Run(callback: Callback)
      requires Valid()
      modifies this
      ensures Valid() && callbacks == old(callbacks) + [callback]
      ensures old(ending).Some? ==> ending == old(ending)
      ensures cancels >= old(cancels) && (old(settled) ==> cancels == old(cancels))
    {
      OneMore(sideEffect, callbacks, callback, ending);
      hide FirstWins;
      ghost var before := callbacks;
      assert Connected in before + [callback] <==> Connected in before || callback == Connected;
      match callback {
        case Connected =>
          if !settled {
            requestSent := true;
          }
        case SocketFailed => Finish(Rejected(DisconnectCode(sideEffect)));
        case TimedOut => Finish(Rejected(DisconnectCode(sideEffect)));
        case CancelFailed => Finish(Rejected(DisconnectCode(sideEffect)));
        case Aborted => Abort();
        case Line(frame) =>
          match frame {
            case OutputFrame =>
            case ErrorResponse(code) =>
              Finish(Rejected(if sideEffect && IsDisconnect(code) then ResultUnknown else code));
            case ResultResponse(result) => Finish(Resolved(result));
            case _ => Finish(Rejected(ProtocolMismatch));
          }
      }
      callbacks := before + [callback];
    }
  }

  // ------------------------------------------------------------------ what an ending tells

  /** A request settles once: no later callback changes how. */
  lemma SettlesOnce(
    sideEffect: bool, callbacks: seq<Callback>, more: seq<Callback>, ending: Ending, later: Option<Ending>)
    requires FirstWins(sideEffect, callbacks, Some(ending)) && FirstWins(sideEffect, callbacks + more, later)
    ensures later == Some(ending)
  {
    var all := callbacks + more;
    var i: nat :| DecidedAt(sideEffect, callbacks, i, ending);
    forall k | 0 <= k <= i
      ensures EndingAt(sideEffect, all, k) == EndingAt(sideEffect, callbacks, k)
    {
      assert all[..k] == callbacks[..k];
    }
    if later.Some? {
      var j: nat :| DecidedAt(sideEffect, all, j, later.value);
      assert i == j;
    }
  }

  /** A side effect in doubt is reported as such: it never ends in a disconnect error, and a
      local CANCELLED means the request was never sent. */
  lemma DoubtIsReported(sideEffect: bool, callbacks: seq<Callback>, code: ErrorCode)
    requires FirstWins(sideEffect, callbacks, Some(Rejected(code)))
    ensures sideEffect ==> !IsDisconnect(code)
    ensures code == Cancelled ==>
              exists i: nat :: i < |callbacks| && DecidedAt(sideEffect, callbacks, i, Rejected(code))
                               && ((callbacks[i] == Aborted && !SentBy(callbacks, i))
                                   || callbacks[i] == Line(ErrorResponse(Cancelled)))
  {
    var i: nat :| DecidedAt(sideEffect, callbacks, i, Rejected(code));
  }

  predicate Unreadable(callback: Callback) {
    callback.Line? && callback.frame in {InvalidJson, MismatchedId, UnexpectedType}
  }

  /** One way out keeps the doubt to itself: an unreadable frame that comes first ends even a
      request for a side effect, sent or not, with PROTOCOL_MISMATCH, which starts no recovery. */
  lemma UnreadableFrameHidesTheDoubt(sideEffect: bool, callbacks: seq<Callback>)
    ensures FirstWins(sideEffect, callbacks, Some(Rejected(ProtocolMismatch)))
            <==> exists i: nat :: i < |callbacks|
                   && (Unreadable(callbacks[i]) || callbacks[i] == Line(ErrorResponse(ProtocolMismatch)))
                   && forall k | 0 <= k < i :: EndingAt(sideEffect, callbacks, k).None?
  {
    if FirstWins(sideEffect, callbacks, Some(Rejected(ProtocolMismatch))) {
      var i: nat :| DecidedAt(sideEffect, callbacks, i, Rejected(ProtocolMismatch));
    } else {
      forall i: nat | i < |callbacks| && forall k | 0 <= k < i :: EndingAt(sideEffect, callbacks, k).None?
        ensures !Unreadable(callbacks[i]) && callbacks[i] != Line(ErrorResponse(ProtocolMismatch))
      {
        assert !DecidedAt(sideEffect, callbacks, i, Rejected(ProtocolMismatch));
      }
    }
  }

  /** Which callbacks leave a request open: connecting, output, and an abort once it has been sent. */
  lemma OpenExactly(sideEffect: bool, sent: bool, callback: Callback)
    ensures Settles(sideEffect, sent, callback).None?
            <==> callback == Connected || callback == Line(OutputFrame) || (callback == Aborted && sent)
  {
  }

  /** What the deciding callback says about how the request ends. */
  lemma EndingsExactly(sideEffect: bool, callbacks: seq<Callback>, i: nat, ending: Ending)
    requires DecidedAt(sideEffect, callbacks, i, ending)
    ensures
      var c := callbacks[i];
      var lost := c == SocketFailed || c == TimedOut || c == CancelFailed
                  || c == Line(ErrorResponse(TransportDisconnected)) || c == Line(ErrorResponse(SshDisconnected));
      && (forall result :: ending == Resolved(result) <==> c == Line(ResultResponse(result)))
      && (ending == Rejected(ResultUnknown) <==> (sideEffect && lost) || c == Line(ErrorResponse(ResultUnknown)))
      && (ending == Rejected(TransportDisconnected) <==>
            !sideEffect && lost && c != Line(ErrorResponse(SshDisconnected)))
      && (ending == Rejected(SshDisconnected) <==> !sideEffect && c == Line(ErrorResponse(SshDisconnected)))
      && (ending == Rejected(Cancelled) <==> c == Aborted || c == Line(ErrorResponse(Cancelled)))
      && (ending == Rejected(ProtocolMismatch) <==> Unreadable(c) || c == Line(ErrorResponse(ProtocolMismatch)))
      && (forall name :: ending == Rejected(OtherCode(name)) <==> c == Line(ErrorResponse(OtherCode(name))))
      && (c == Aborted ==> !SentBy(callbacks, i))
  {
  }
}
