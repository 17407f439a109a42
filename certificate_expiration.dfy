/** `OpenShiftCertificateExpiration.ExecuteAsync` in app/OpenShift.cs: the
    background service that stops the application shortly before the service
    certificate expires. Times are whole milliseconds; `now` is the local
    clock when the expiry is computed and `jitter` is `new Random().Next(900)`,
    a whole number of seconds. */
module CertificateExpiration {
  import opened Wrappers
  import opened Exceptions
  import opened CertificateLoader
  import opened OpenShiftIntegration

  /** `RestartSpan` and `NotAfterMargin`: fifteen minutes. */
  const RestartSpan := 900_000
  const NotAfterMargin := 900_000
  /** `(int)RestartSpan.TotalSeconds`, the exclusive bound of the jitter. */
  const JitterBound := 900
  /** `int.MaxValue`, the longest wait `Task.Delay` accepts, in milliseconds. */
  const TaskDelayLimit := 2_147_483_647

  /** The moment by which the application should have been restarted. */
  function ExpiresAt(notAfter: int): (expiresAt: int)
  {
    notAfter - NotAfterMargin
  }

  function TillExpires(notAfter: int, now: int): (tillExpires: int)
  {
    ExpiresAt(notAfter) - now
  }

  /** What the single pass of the source's block decides. */
  datatype Wait =
    /** The restart span has been reached: stop at once. */
    | NoWait
    /** Wait this long, then stop. */
    | WaitThenStop(delay: int)
    /** The wait is too long for `Task.Delay`: wait `int.MaxValue` and set `loop`. */
    | WaitLimitThenLoop

  /** The delay decision: no wait once `tillExpires <= RestartSpan` (which
      includes an expiry already passed), otherwise a wait that ends inside the
      last fifteen minutes before `expiresAt`, capped at `int.MaxValue`. */
  function Decide(notAfter: int, now: int, jitter: int): (w: Wait)
    requires 0 <= jitter < JitterBound
    ensures w.NoWait? <==> TillExpires(notAfter, now) <= RestartSpan
    ensures w.WaitLimitThenLoop? <==>
      TillExpires(notAfter, now) - RestartSpan + jitter * 1000 > TaskDelayLimit
    ensures w.WaitThenStop? ==>
      && 0 < w.delay <= TaskDelayLimit
      && now + w.delay == ExpiresAt(notAfter) - RestartSpan + jitter * 1000
      && ExpiresAt(notAfter) - RestartSpan <= now + w.delay < ExpiresAt(notAfter)
  {
    var tillExpires := TillExpires(notAfter, now);
    if tillExpires > 0 && tillExpires > RestartSpan then
      var delay := tillExpires - RestartSpan + jitter * 1000;
      if delay > TaskDelayLimit then WaitLimitThenLoop else WaitThenStop(delay)
    else
      NoWait
  }

  /** What the monitor does that the outside world sees. */
  datatype Event =
    | Delay(milliseconds: int)
    /** Logs the certificate's `NotAfter` and calls `StopApplication`. */
    | StopApplication(loggedNotAfter: int)

  /** How `ExecuteAsync` ends. */
  datatype End =
    /** The returned `Task` ran to completion (after stopping the application, or at once
        when HTTPS is off). */
    | Completed
    /** A wait was cancelled; the `TaskCanceledException` is swallowed, so the
        task also completes normally, without stopping the application. */
    | Cancelled
    /** `while (loop);` with `loop` true: the returned `Task` never completes. */
    | Spinning
    /** Loading the certificate threw; the exception escapes. */
    | Faulted(error: Exception)

  /** What one pass of the block leads to, by decision: the events and how
      the returned `Task` ends. */
  function Outcome(w: Wait, notAfter: int, cancelled: bool): (r: (seq<Event>, End))
    ensures 1 <= |r.0| <= 2
    ensures r.1 == Completed <==> w.NoWait? || (w.WaitThenStop? && !cancelled)
    ensures r.1 == Spinning <==> w.WaitLimitThenLoop? && !cancelled
    ensures r.1 == Cancelled <==> !w.NoWait? && cancelled
    ensures StopApplication(notAfter) in r.0 <==> r.1 == Completed
    ensures r.1 == Completed ==> r.0[|r.0| - 1] == StopApplication(notAfter)
    ensures w.NoWait? ==> r.0 == [StopApplication(notAfter)]
    ensures w.WaitThenStop? ==> r.0[0] == Delay(w.delay)
    ensures w.WaitLimitThenLoop? ==> r.0 == [Delay(TaskDelayLimit)]
  {
    match w
    case NoWait => ([StopApplication(notAfter)], Completed)
    case WaitThenStop(delay) =>
      if cancelled then ([Delay(delay)], Cancelled)
      else ([Delay(delay), StopApplication(notAfter)], Completed)
    case WaitLimitThenLoop => ([Delay(TaskDelayLimit)], if cancelled then Cancelled else Spinning)
  }

  /** The credential the monitor sees: the cached one, or a fresh load. */
  function MonitoredCredential(cached: Option<Credential>, files: MountedFiles): (credential: Result<Credential, Exception>)
  {
    if cached.Some? then Success(cached.value) else LoadCertificateWithKey(files)
  }

  /** `ExecuteAsync` as the source has it. The braces after `bool loop;` are a
      plain block run once (there is no `do`), and `while (loop);` is an empty
      loop, so a capped wait is followed by spinning, not by a re-check.
      `cancelled` says whether the token fires before a wait completes. */
  method ExecuteAsync(loader: OpenShiftCertificateLoader, files: MountedFiles, now: int, jitter: int, cancelled: bool)
    returns (events: seq<Event>, end: End)
    requires loader.Valid() && 0 <= jitter < JitterBound
    modifies loader
    ensures loader.Valid()
    ensures !loader.options.UseHttps() ==>
      && events == [] && end == Completed
      && loader.certificate == old(loader.certificate) && loader.loads == old(loader.loads)
    ensures loader.options.UseHttps() ==>
      var credential := MonitoredCredential(old(loader.certificate), files);
      && (old(loader.certificate).Some? ==>
            loader.certificate == old(loader.certificate) && loader.loads == old(loader.loads))
      && (old(loader.certificate).None? ==>
            && loader.loads == old(loader.loads) + 1
            && (credential.Success? ==> loader.certificate == Some(credential.value))
            && (credential.Failure? ==> loader.certificate == None))
      && (credential.Failure? ==> events == [] && end == Faulted(credential.error))
      && (credential.Success? ==>
            var notAfter := credential.value.certificate.notAfter;
            (events, end) == Outcome(Decide(notAfter, now, jitter), notAfter, cancelled))
  {
    if !loader.options.UseHttps() {
      return [], Completed;
    }
    var certificate := loader.ServiceCertificate(files);
    if certificate.Failure? {
      return [], Faulted(certificate.error);
    }
    var notAfter := certificate.value.value.certificate.notAfter;
    assert MonitoredCredential(old(loader.certificate), files) == Success(certificate.value.value);
    ghost var decision := Decide(notAfter, now, jitter);
    events := [];
    var loop: bool;
    {
      loop := false;
      var expiresAt := notAfter - NotAfterMargin;
      var tillExpires := expiresAt - now;
      if tillExpires > 0 {
        if tillExpires > RestartSpan {
          var delay := tillExpires - RestartSpan + jitter * 1000;
          if delay > TaskDelayLimit {
            assert decision == WaitLimitThenLoop;
            events := [Delay(TaskDelayLimit)];
            if cancelled {
              assert (events, Cancelled) == Outcome(decision, notAfter, cancelled);
              return events, Cancelled;
            }
            loop := true;
          } else {
            assert decision == WaitThenStop(delay);
            events := [Delay(delay)];
            if cancelled {
              assert (events, Cancelled) == Outcome(decision, notAfter, cancelled);
              return events, Cancelled;
            }
          }
        }
      }
    }
    if loop {
      // `while (loop);` never terminates: nothing in its empty body resets `loop`.
      assert (events, Spinning) == Outcome(decision, notAfter, cancelled);
      return events, Spinning;
    }
    ghost var waited := events;
    events := events + [StopApplication(notAfter)];
    if decision.NoWait? {
      assert waited == [];
      assert events == [StopApplication(notAfter)];
    } else {
      assert decision.WaitThenStop? && !cancelled;
      assert waited == [Delay(decision.delay)];
      assert events == [Delay(decision.delay), StopApplication(notAfter)];
    }
    end := Completed;
    assert (events, end) == Outcome(decision, notAfter, cancelled);
  }

  /** Any certificate valid for more than `int.MaxValue` milliseconds (about
      24.8 days) beyond both fifteen-minute margins is capped whatever the
      jitter, so the source's monitor spins and never stops the application. */
  lemma FarExpiryAlwaysCapped(notAfter: int, now: int)
    requires notAfter - now > NotAfterMargin + RestartSpan + TaskDelayLimit
    ensures forall jitter :: 0 <= jitter < JitterBound ==> Decide(notAfter, now, jitter).WaitLimitThenLoop?
  {
  }

  /** A certificate with 90 days left (2^31 ms is under 25 days). */
  lemma NinetyDayCertificateIsCapped()
    ensures Decide(90 * 24 * 3_600_000, 0, 0) == WaitLimitThenLoop
  {
  }

  /** The total time spent waiting. */
  function Slept(events: seq<Event>): (milliseconds: int)
  {
    if events == [] then 0
    else Slept(events[..|events| - 1]) + (if events[|events| - 1].Delay? then events[|events| - 1].milliseconds else 0)
  }

  predicate OnlyDelays(events: seq<Event>)
  {
    forall i :: 0 <= i < |events| ==> events[i].Delay?
  }

  /** The monitor with the `do … while (loop)` the code's layout calls for:
      after a capped wait the clock (advanced by exactly the wait) is read
      again and the decision repeated. Each pass draws a fresh jitter:
      `jitters(k)` is the value `new Random().Next(900)` yields on the pass
      that follows `k` waits. `cancelDuring` is the index of the wait during
      which the token fires, if it does. */
  method ExecuteWithRecheck(notAfter: int, now: int, jitters: nat -> int, cancelDuring: Option<nat>)
    returns (events: seq<Event>, end: End, stoppedAt: int)
    requires forall k: nat :: 0 <= jitters(k) < JitterBound
    ensures end == Completed || end == Cancelled
    ensures cancelDuring.None? ==> end == Completed
    ensures end == Completed && cancelDuring.Some? ==> cancelDuring.value >= |events| - 1
    ensures forall i :: 0 <= i < |events| && events[i].Delay? ==> 0 < events[i].milliseconds <= TaskDelayLimit
    ensures end == Cancelled ==>
      cancelDuring.Some? && |events| == cancelDuring.value + 1 && OnlyDelays(events)
    ensures end == Completed ==>
      && |events| > 0 && events[|events| - 1] == StopApplication(notAfter)
      && OnlyDelays(events[..|events| - 1])
      && stoppedAt == now + Slept(events)
    ensures end == Completed && TillExpires(notAfter, now) <= RestartSpan ==>
      events == [StopApplication(notAfter)] && stoppedAt == now
    ensures end == Completed && TillExpires(notAfter, now) > RestartSpan ==>
      ExpiresAt(notAfter) - RestartSpan <= stoppedAt < ExpiresAt(notAfter)
  {
    var expiresAt := ExpiresAt(notAfter);
    var t := now;
    events := [];
    var loop := true;
    while loop
      invariant t == now + Slept(events) && OnlyDelays(events)
      invariant forall i :: 0 <= i < |events| ==> 0 < events[i].milliseconds <= TaskDelayLimit
      invariant cancelDuring.Some? ==> cancelDuring.value >= |events|
      invariant |events| == 0 ==> t == now
      invariant loop ==> forall i :: 0 <= i < |events| ==> events[i] == Delay(TaskDelayLimit)
      invariant |events| > 0 ==> t < expiresAt
      invariant !loop && TillExpires(notAfter, now) > RestartSpan ==>
        expiresAt - RestartSpan <= t < expiresAt
      invariant TillExpires(notAfter, now) <= RestartSpan ==> events == []
      decreases loop, if expiresAt - t < 0 then 0 else expiresAt - t
    {
      loop := false;
      var tillExpires := expiresAt - t;
      if tillExpires > 0 && tillExpires > RestartSpan {
        var delay := tillExpires - RestartSpan + jitters(|events|) * 1000;
        var wait := if delay > TaskDelayLimit then TaskDelayLimit else delay;
        ghost var before := events;
        events := events + [Delay(wait)];
        assert events[..|events| - 1] == before;
        if cancelDuring == Some(|events| - 1) {
          return events, Cancelled, t;
        }
        t := t + wait;
        loop := delay > TaskDelayLimit;
      }
    }
    stoppedAt := t;
    ghost var waited := events;
    events := events + [StopApplication(notAfter)];
    assert events[..|events| - 1] == waited;
    end := Completed;
  }
}
