/**
 The framework's dependency-injection container, as far as the helpers use it:
 a map from service key to the one binding registered for it. `instance()` and
 `bind()` both replace the binding of a single key.
 */
module Container {
  import opened Wrappers

  /** The service keys the helpers touch, plus any other service of the application. */
  datatype Key = ExceptionHandlerKey | ClientKey | ServiceKey(name: string)

  /**
   The objects the model has to tell apart. Every allocated object carries the
   identity it was given when it was created, so that "a new object" can be stated.
   */
  datatype Obj =
    | Null
      /** any object the application created itself, e.g. its App\Exceptions\Handler */
    | AppObject(id: nat)
      /** the anonymous handler whose report does nothing and whose render rethrows */
    | PassThroughHandler(id: nat)
      /** a mock transport handler of the HTTP client library */
    | MockHandler(id: nat)
      /** an HTTP client whose handler stack is built over `handler` */
    | GuzzleClient(handler: Obj)

  /** Every identity inside `o` was handed out before `bound`. */
  predicate AllocatedBelow(o: Obj, bound: nat) {
    match o
    case Null => true
    case AppObject(id) => id < bound
    case PassThroughHandler(id) => id < bound
    case MockHandler(id) => id < bound
    case GuzzleClient(h) => AllocatedBelow(h, bound)
  }

  /**
   What a key is bound to: a fixed instance, or the recipe that gives an HTTP
   client over the test case's current mock handler each time it is resolved.
   */
  datatype Binding = Instance(obj: Obj) | ClientRecipe

  type Container = map<Key, Binding>

  function Lookup(app: Container, key: Key): (r: Option<Binding>) {
    if key in app then Some(app[key]) else None
  }

  /** `app` and `app'` agree on every key other than `key`. */
  ghost predicate SameExcept(app: Container, app': Container, key: Key) {
    forall k :: k != key ==> Lookup(app, k) == Lookup(app', k)
  }

  predicate BindingBelow(b: Binding, bound: nat) {
    match b
    case Instance(o) => AllocatedBelow(o, bound)
    case ClientRecipe => true
  }

  /** Some key of the container holds the client recipe. */
  predicate HoldsRecipe(app: Container) {
    exists k :: k in app && app[k] == ClientRecipe
  }

  /** Every object the container holds was allocated before `bound`. */
  predicate ContainerBelow(app: Container, bound: nat) {
    forall k :: k in app ==> BindingBelow(app[k], bound)
  }

  /** Registers `b` for `key` (both `instance()` and `bind()`), replacing any earlier binding. */
  function Bind(app: Container, key: Key, b: Binding): (app': Container)
    ensures Lookup(app', key) == Some(b)
    ensures SameExcept(app, app', key)
    ensures app'.Keys == app.Keys + {key}
  {
    app[key := b]
  }

  /** Allocation only ever raises the bound: what was allocated stays allocated. */
  lemma {:induction false} AllocatedBelowMonotonic(o: Obj, bound: nat, bound': nat)
    requires AllocatedBelow(o, bound) && bound <= bound'
    ensures AllocatedBelow(o, bound')
  {
    if o.GuzzleClient? {
      AllocatedBelowMonotonic(o.handler, bound, bound');
    }
  }

  lemma ContainerBelowMonotonic(app: Container, bound: nat, bound': nat)
    requires ContainerBelow(app, bound) && bound <= bound'
    ensures ContainerBelow(app, bound')
  {
    forall k | k in app
      ensures BindingBelow(app[k], bound')
    {
      if app[k].Instance? {
        AllocatedBelowMonotonic(app[k].obj, bound, bound');
      }
    }
  }

  /** Binding an allocated object keeps the whole container allocated. */
  lemma BindBelow(app: Container, key: Key, b: Binding, bound: nat)
    requires ContainerBelow(app, bound) && BindingBelow(b, bound)
    ensures ContainerBelow(Bind(app, key, b), bound)
  {
  }
}
