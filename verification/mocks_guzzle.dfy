/**
 The MocksGuzzle trait: `guzzle()` creates one mock transport handler per test
 case, binds the HTTP client recipe to it on the first call, and hands the same
 handler back on every later call.
 */
module MocksGuzzle {
  import opened Wrappers
  import opened Container
  import opened TestContext
  import ExceptionHandling

  /** The context after the call, and the handler the call returned. */
  datatype Installed = Installed(state: TestCase, handler: Obj)

  /** `guzzle()`. */
  function Guzzle(t: TestCase): (r: Installed)
    ensures r.handler != Null && r.handler == r.state.guzzleStack
    ensures t.guzzleStack != Null ==> r == Installed(t, t.guzzleStack)
    ensures t.guzzleStack == Null ==>
      && r.handler.MockHandler?
      && !AllocatedBelow(r.handler, t.nextId)
      && AllocatedBelow(r.handler, r.state.nextId)
      && Lookup(r.state.app, ClientKey) == Some(ClientRecipe)
      && SameExcept(t.app, r.state.app, ClientKey)
      && r.state.exceptionHandlingDisabled == t.exceptionHandlingDisabled
      && r.state.oldExceptionHandler == t.oldExceptionHandler
  {
    if t.guzzleStack.Null? then
      var handler := MockHandler(t.nextId);
      var t' := t.(guzzleStack := handler, nextId := t.nextId + 1);
      Installed(t'.(app := Bind(t'.app, ClientKey, ClientRecipe)), handler)
    else
      Installed(t, t.guzzleStack)
  }

  /** A second call leaves the context as the first left it and returns the same handler. */
  lemma GuzzleIdempotent(t: TestCase)
    ensures Guzzle(Guzzle(t).state) == Guzzle(t)
  {
  }

  /** Only the client key of the container is ever written, and only by the first call. */
  lemma GuzzleWritesOnlyClient(t: TestCase)
    ensures SameExcept(t.app, Guzzle(t).state.app, ClientKey)
    ensures t.guzzleStack != Null ==> Guzzle(t).state.app == t.app
  {
  }

  /** The call keeps the context well formed. */
  lemma GuzzlePreservesValid(t: TestCase)
    requires Valid(t)
    ensures Valid(Guzzle(t).state)
  {
    if t.guzzleStack.Null? {
      var n := t.nextId + 1;
      ContainerBelowMonotonic(t.app, t.nextId, n);
      AllocatedBelowMonotonic(t.oldExceptionHandler, t.nextId, n);
      BindBelow(t.app, ClientKey, ClientRecipe, n);
    }
  }

  /**
   After the first call every client the container resolves is built over the
   handler the call returned, because the recipe reads the stored field.
   */
  lemma ClientBuiltOverStoredHandler(t: TestCase)
    requires t.guzzleStack == Null
    ensures Make(Guzzle(t).state, ClientKey) == Success(GuzzleClient(Guzzle(t).handler))
  {
  }

  /** The client binding the installer made survives any use of the exception-handling toggle. */
  lemma ClientSurvivesExceptionToggle(t: TestCase, h: Obj)
    requires Lookup(t.app, ClientKey) == Some(ClientRecipe) && t.guzzleStack == h
    ensures Make(ExceptionHandling.WithExceptionHandling(t), ClientKey) == Success(GuzzleClient(h))
    ensures ExceptionHandling.DisableExceptionHandling(t).Success? ==>
      Make(ExceptionHandling.DisableExceptionHandling(t).value, ClientKey) == Success(GuzzleClient(h))
  {
    assert Lookup(ExceptionHandling.WithExceptionHandling(t).app, ClientKey) == Some(ClientRecipe);
    if ExceptionHandling.DisableExceptionHandling(t).Success? {
      assert Lookup(ExceptionHandling.DisableExceptionHandling(t).value.app, ClientKey) == Some(ClientRecipe);
    }
  }
}
