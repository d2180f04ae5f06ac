/**
 The per-test context the helper traits are mixed into: the application
 container, the allocator that hands out object identities, and the fields the
 traits DisablesExceptionHandling and MocksGuzzle add to the test case.
 */
module TestContext {
  import opened Wrappers
  import opened Container

  datatype TestCase = TestCase(
    app: Container,
    /** the identity the next `new` receives */
    nextId: nat,
    /** DisablesExceptionHandling::$exceptionHandlingDisabled */
    exceptionHandlingDisabled: bool,
    /** DisablesExceptionHandling::$oldExceptionHandler */
    oldExceptionHandler: Obj,
    /** MocksGuzzle::$guzzleStack */
    guzzleStack: Obj)

  /** The container cannot produce an instance for the key. */
  datatype ContainerError = BindingResolution(key: Key)

  /** A test case as set up, before any helper has been called. */
  function Initial(app: Container, nextId: nat): (t: TestCase)
    ensures t.app == app && t.nextId == nextId
    ensures !t.exceptionHandlingDisabled && t.oldExceptionHandler == Null && t.guzzleStack == Null
    ensures Valid(t) <==> ContainerBelow(app, nextId) && !HoldsRecipe(app)
  {
    TestCase(app, nextId, false, Null, Null)
  }

  /**
   The context is well formed: nothing refers to an identity not yet handed
   out, handling is only marked disabled while a handler is saved, and the
   client recipe is only bound once a mock handler is stored for it.
   */
  predicate Valid(t: TestCase) {
    && ContainerBelow(t.app, t.nextId)
    && AllocatedBelow(t.oldExceptionHandler, t.nextId)
    && AllocatedBelow(t.guzzleStack, t.nextId)
    && (t.exceptionHandlingDisabled ==> t.oldExceptionHandler != Null)
    && (HoldsRecipe(t.app) ==> t.guzzleStack != Null)
  }

  /**
   `$this->app->make(key)`: the bound instance, or a client over the current
   `guzzleStack` when the key holds the client recipe. A missing key
   and an instance slot holding null both fail, as for an interface the
   container cannot build.
   */
  function Make(t: TestCase, key: Key): (r: Result<Obj, ContainerError>)
    ensures r.Failure? <==> Lookup(t.app, key) in {None, Some(Instance(Null))}
    ensures r.Failure? ==> r.error == BindingResolution(key)
    ensures r.Success? ==> r.value != Null
    ensures key in t.app && t.app[key].Instance? && t.app[key].obj != Null ==> r == Success(t.app[key].obj)
    ensures Lookup(t.app, key) == Some(ClientRecipe) ==> r == Success(GuzzleClient(t.guzzleStack))
    ensures Valid(t) && r.Success? ==> AllocatedBelow(r.value, t.nextId)
    ensures Valid(t) && Lookup(t.app, key) == Some(ClientRecipe) ==> r.value.handler != Null
  {
    if key !in t.app then Failure(BindingResolution(key))
    else match t.app[key]
      case Instance(o) => if o.Null? then Failure(BindingResolution(key)) else Success(o)
      case ClientRecipe => Success(GuzzleClient(t.guzzleStack))
  }

  /**
   Binding a non-null instance and then resolving the key gives that instance
   back, and resolution of every other key is as before.
   */
  lemma MakeAfterBind(t: TestCase, key: Key, o: Obj, other: Key)
    requires o != Null && other != key
    ensures Make(t.(app := Bind(t.app, key, Instance(o))), key) == Success(o)
    ensures Make(t.(app := Bind(t.app, key, Instance(o))), other) == Make(t, other)
  {
    var t' := t.(app := Bind(t.app, key, Instance(o)));
    assert Lookup(t'.app, other) == Lookup(t.app, other);
  }
}
