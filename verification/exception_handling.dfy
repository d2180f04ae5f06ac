/**
 The DisablesExceptionHandling trait: a two-state toggle that swaps the
 container's exception handler for a pass-through one and puts the saved
 handler back.
 */
module ExceptionHandling {
  import opened Wrappers
  import opened Container
  import opened TestContext

  datatype Request = Request(uri: string)

  /** What rendering an exception gives: an HTTP response, or the exception thrown on. */
  datatype Rendered = Response(cause: Exception) | Thrown(e: Exception)

  /**
   `report($e)` on a handler, as its effect on the exception log. The
   pass-through handler does nothing; any other handler records the exception.
   */
  function Report(handler: Obj, log: seq<Exception>, e: Exception): (log': seq<Exception>)
    ensures log' == log <==> handler.PassThroughHandler?
    ensures log' == log || log' == log + [e]
  {
    if handler.PassThroughHandler? then log else log + [e]
  }

  /**
   `render($request, $e)` on a handler. The pass-through handler throws the
   exception it was given; any other handler turns it into a response.
   */
  function Render(handler: Obj, request: Request, e: Exception): (r: Rendered)
    ensures r == Thrown(e) <==> handler.PassThroughHandler?
    ensures !handler.PassThroughHandler? ==> r == Response(e)
  {
    if handler.PassThroughHandler? then Thrown(e) else Response(e)
  }

  /**
   The state a disable from the enabled state `t` leads to: the saved slot
   holds what the container resolved before, the container now resolves to a
   newly allocated pass-through handler, the flag is set, and nothing else of
   the context changed.
   */
  ghost predicate DisabledFrom(t: TestCase, t': TestCase) {
    && Make(t, ExceptionHandlerKey) == Success(t'.oldExceptionHandler)
    && t'.exceptionHandlingDisabled
    && Make(t', ExceptionHandlerKey).Success?
    && Make(t', ExceptionHandlerKey).value.PassThroughHandler?
    && !AllocatedBelow(Make(t', ExceptionHandlerKey).value, t.nextId)
    && AllocatedBelow(Make(t', ExceptionHandlerKey).value, t'.nextId)
    && SameExcept(t.app, t'.app, ExceptionHandlerKey)
    && t'.guzzleStack == t.guzzleStack
  }

  /** `disableExceptionHandling()`; fails only when the container cannot resolve the current handler. */
  function DisableExceptionHandling(t: TestCase): (r: Result<TestCase, ContainerError>)
    ensures t.exceptionHandlingDisabled ==> r == Success(t)
    ensures !t.exceptionHandlingDisabled ==>
      (r.Failure? <==> Make(t, ExceptionHandlerKey).Failure?)
    ensures r.Failure? ==> r.error == BindingResolution(ExceptionHandlerKey)
    ensures !t.exceptionHandlingDisabled && r.Success? ==> DisabledFrom(t, r.value)
  {
    if t.exceptionHandlingDisabled then Success(t)
    else
      match Make(t, ExceptionHandlerKey)
      case Failure(err) => Failure(err)
      case Success(current) =>
        var handler := PassThroughHandler(t.nextId);
        Success(t.(app := Bind(t.app, ExceptionHandlerKey, Instance(handler)),
                   nextId := t.nextId + 1,
                   oldExceptionHandler := current,
                   exceptionHandlingDisabled := true))
  }

  /** `withExceptionHandling()`; the saved slot is left as it is. */
  function WithExceptionHandling(t: TestCase): (t': TestCase)
    ensures !t.exceptionHandlingDisabled ==> t' == t
    ensures t.exceptionHandlingDisabled ==>
      && !t'.exceptionHandlingDisabled
      && Lookup(t'.app, ExceptionHandlerKey) == Some(Instance(t.oldExceptionHandler))
      && t'.oldExceptionHandler == t.oldExceptionHandler
      && SameExcept(t.app, t'.app, ExceptionHandlerKey)
      && t'.nextId == t.nextId && t'.guzzleStack == t.guzzleStack
  {
    if t.exceptionHandlingDisabled then
      t.(app := Bind(t.app, ExceptionHandlerKey, Instance(t.oldExceptionHandler)),
         exceptionHandlingDisabled := false)
    else t
  }

  /** Disabling twice has the effect of disabling once. */
  lemma DisableIdempotent(t: TestCase)
    ensures DisableExceptionHandling(t).Success? ==>
      DisableExceptionHandling(DisableExceptionHandling(t).value) == DisableExceptionHandling(t)
  {
  }

  /** Enabling twice has the effect of enabling once. */
  lemma WithIdempotent(t: TestCase)
    ensures WithExceptionHandling(WithExceptionHandling(t)) == WithExceptionHandling(t)
  {
  }

  /** Enabling a freshly set-up test case, before any disable, changes nothing. */
  lemma WithBeforeDisableIsNoOp(app: Container, nextId: nat)
    ensures WithExceptionHandling(Initial(app, nextId)) == Initial(app, nextId)
  {
  }

  /**
   Disable followed by enable: the container resolves the exception handler
   to the same object as before, and when that was a bound instance the whole
   container is exactly as before.
   */
  lemma RoundTrip(t: TestCase)
    requires !t.exceptionHandlingDisabled
    requires DisableExceptionHandling(t).Success?
    ensures var t'' := WithExceptionHandling(DisableExceptionHandling(t).value);
      && Make(t'', ExceptionHandlerKey) == Make(t, ExceptionHandlerKey)
      && !t''.exceptionHandlingDisabled
      && (Lookup(t.app, ExceptionHandlerKey).value.Instance? ==> t''.app == t.app)
  {
    var t' := DisableExceptionHandling(t).value;
    var t'' := WithExceptionHandling(t');
    if Lookup(t.app, ExceptionHandlerKey).value.Instance? {
      forall k | k in t.app || k in t''.app
        ensures k in t.app && k in t''.app && t''.app[k] == t.app[k]
      {
        assert Lookup(t''.app, k) == Lookup(t.app, k);
      }
    }
  }

  /** Both operations keep the context well formed. */
  lemma TogglePreservesValid(t: TestCase)
    requires Valid(t)
    ensures DisableExceptionHandling(t).Success? ==> Valid(DisableExceptionHandling(t).value)
    ensures Valid(WithExceptionHandling(t))
  {
    if !t.exceptionHandlingDisabled && DisableExceptionHandling(t).Success? {
      var n := t.nextId + 1;
      ContainerBelowMonotonic(t.app, t.nextId, n);
      AllocatedBelowMonotonic(Make(t, ExceptionHandlerKey).value, t.nextId, n);
      AllocatedBelowMonotonic(t.guzzleStack, t.nextId, n);
      BindBelow(t.app, ExceptionHandlerKey, Instance(PassThroughHandler(t.nextId)), n);
    }
    if t.exceptionHandlingDisabled {
      BindBelow(t.app, ExceptionHandlerKey, Instance(t.oldExceptionHandler), t.nextId);
    }
  }

  /**
   While handling is disabled from an enabled state, the handler the container
   hands out reports nothing and rethrows exactly the exception it is given.
   */
  lemma PassThroughWhileDisabled(t: TestCase, request: Request, e: Exception, log: seq<Exception>)
    requires !t.exceptionHandlingDisabled
    requires DisableExceptionHandling(t).Success?
    ensures var handler := Make(DisableExceptionHandling(t).value, ExceptionHandlerKey).value;
      && Report(handler, log, e) == log
      && Render(handler, request, e) == Thrown(e)
  {
  }
}
