# laravel-test-utils, modelled in Dafny

A model of the three helpers of the SavvyWombat Laravel test utilities that have behaviour of their own:

- **DisablesExceptionHandling**: a two-state toggle. `disableExceptionHandling` saves the handler the container resolves for the `ExceptionHandler` key. It then binds a new pass-through handler there. That handler's `report` does nothing and its `render` rethrows. `withExceptionHandling` binds the saved handler back.
- **MocksGuzzle**: `guzzle()` is memoised. The first call creates a mock transport handler and stores it in `$guzzleStack`. It also binds a `Client` recipe that builds every client over that stored handler. Later calls return the same handler and bind nothing.
- **DBCast**: `toJson` turns an array or a JSON string into the raw expression `CAST('…' AS JSON)`. `toTimestamp` formats a date-time as `Y-m-d H:i:s`.

The model is functional. A test case is an immutable `TestContext.TestCase` record. It holds the container (a map from service key to binding), the trait fields, and an allocation counter. Every transition is a pure function from one record to the next. The counter gives each `new` object a distinct identity, so "a newly created handler" can be stated and proved. PHP's `json_encode`/`json_decode` are the two fields of a `DBCast.Codec` parameter. `addslashes` and `stripslashes` are written out over `seq<char>`.

Files: `wrappers.dfy` (Option, Result and the plain exception), `container.dfy` (keys, objects, bindings), `test_context.dfy` (the test case and container resolution), `exception_handling.dfy`, `mocks_guzzle.dfy`, `slashes.dfy`, `decimal.dfy` (digit helpers), `db_cast.dfy`.

The model follows the code in these places:
- `withExceptionHandling` leaves the saved handler in its slot (src/DisablesExceptionHandling.php:65-69).
- `guzzle()` reuses the stored handler once it is set; only the first call creates one (src/MocksGuzzle.php:20).
- On the array path, `addslashes` escapes the double quote and NUL as well as the backslash and single quote. PHP writes NUL as a backslash followed by the digit `0`, and the model does the same.
- On the string path, nothing is escaped (src/DBCast.php:20-23).

## Model

| member | source | states |
|---|---|---|
| Container.Bind | src/DisablesExceptionHandling.php:44 | binding a key makes it look up to the new binding, leaves every other key as it was, and adds only that key |
| TestContext.Initial | src/DisablesExceptionHandling.php:26-32 | a new test case has handling enabled, no saved handler and no mock handler; it is well formed exactly when its container holds only allocated objects and no client recipe, since no mock handler is stored yet |
| TestContext.Make | src/DisablesExceptionHandling.php:42 | resolving a key fails exactly when it is unbound or bound to null; a key bound to a non-null instance yields that instance; the client recipe yields a client over the current `guzzleStack`, which in a well-formed context is never null; what it yields was already allocated |
| TestContext.MakeAfterBind | src/DisablesExceptionHandling.php:44 | after binding a non-null instance to a key, resolving that key yields the instance, and every other key resolves as before |
| ExceptionHandling.DisableExceptionHandling | src/DisablesExceptionHandling.php:39-56 | when already disabled, nothing changes; otherwise it fails exactly when the current handler cannot be resolved; on success the saved slot holds the handler resolved before, the key now resolves to a newly allocated pass-through handler, the flag is set, and every other key and the mock field are unchanged |
| ExceptionHandling.WithExceptionHandling | src/DisablesExceptionHandling.php:63-72 | when not disabled, it is a complete no-op; otherwise it binds the saved handler back and clears the flag, keeps the saved slot, and leaves every other key unchanged |
| ExceptionHandling.DisableIdempotent | src/DisablesExceptionHandling.php:41 | disabling twice gives the same result as disabling once |
| ExceptionHandling.WithIdempotent | src/DisablesExceptionHandling.php:65 | enabling twice gives the same state as enabling once |
| ExceptionHandling.WithBeforeDisableIsNoOp | src/DisablesExceptionHandling.php:21-26 | enabling a freshly set-up test case leaves it unchanged |
| ExceptionHandling.RoundTrip | src/DisablesExceptionHandling.php:41-69 | after disable then enable, the exception handler key resolves to the same handler as before; if it was bound to an instance, the whole container is as before |
| ExceptionHandling.TogglePreservesValid | src/DisablesExceptionHandling.php:39-72 | both operations keep every reference allocated, keep "disabled implies a handler is saved", and keep "a bound client recipe implies a stored mock handler" |
| ExceptionHandling.Report | src/DisablesExceptionHandling.php:46 | the log is unchanged exactly when the handler is the pass-through one; any other handler adds the exception at the end and keeps the earlier entries |
| ExceptionHandling.Render | src/DisablesExceptionHandling.php:47-49 | rendering rethrows the given exception exactly when the handler is the pass-through one; any other handler gives a response for that same exception |
| ExceptionHandling.PassThroughWhileDisabled | src/DisablesExceptionHandling.php:44-50 | after disabling, the handler the container resolves reports nothing and rethrows exactly the exception it is given |
| MocksGuzzle.Guzzle | src/MocksGuzzle.php:18-31 | the result is never null and is the stored field; when the field was already set, the state is unchanged; otherwise the handler is a newly allocated mock handler, the client key holds the recipe, and all other keys and the exception-handling fields are unchanged |
| MocksGuzzle.GuzzleIdempotent | src/MocksGuzzle.php:20-30 | a second call leaves the state as the first did and returns the same handler |
| MocksGuzzle.GuzzleWritesOnlyClient | src/MocksGuzzle.php:20-28 | only the client key of the container is written, and only when the field was null |
| MocksGuzzle.GuzzlePreservesValid | src/MocksGuzzle.php:20-27 | the call keeps the test case well formed, including "a bound client recipe implies a stored mock handler" |
| MocksGuzzle.ClientBuiltOverStoredHandler | src/MocksGuzzle.php:23-27 | after the first call, resolving the client yields a client built over the returned handler |
| MocksGuzzle.ClientSurvivesExceptionToggle | src/MocksGuzzle.php:23-26 | a bound client recipe still yields a client over the stored handler after either exception-handling operation |
| Slashes.AddSlashes | src/DBCast.php:19 | escaping never shortens the text, and leaves its length unchanged exactly when no character needs a backslash |
| Slashes.StripSlashes | src/DBCast.php:19 | removing escapes never lengthens the text (its inverse property is `Slashes.StripAddSlashes`) |
| Slashes.AddSlashesAppend | src/DBCast.php:19 | escaping distributes over concatenation, so it works character by character |
| Slashes.AddSlashesChar | src/DBCast.php:19 | a quote, double quote, backslash or NUL gains a backslash in front (NUL is written as `0`); any other character is kept |
| Slashes.AddSlashesPlain | src/DBCast.php:19 | a text with no special character is unchanged |
| Slashes.StripAddSlashes | src/DBCast.php:19 | removing the escapes gives back exactly the original text |
| Slashes.AddSlashesIsLiteralBody | src/DBCast.php:19-23 | escaped text has no unescaped quote and no dangling backslash, so the SQL literal cannot close early |
| DBCast.CastBody | src/DBCast.php:23 | the body is found exactly when the text starts with `CAST('` and ends with `' AS JSON)`, and wrapping the body again gives the expression back |
| DBCast.ToJson | src/DBCast.php:16-24 | every success has the cast wrapper; an array always succeeds, its body is `addslashes` of its encoding, stays inside the literal and unescapes to the encoding; a string succeeds exactly when it decodes to non-null and is then embedded verbatim; null fails; every failure is the invalid-JSON exception |
| DBCast.ArrayRoundTrip | src/DBCast.php:18-23 | unescaping and decoding the body of an array's cast gives the array back, whenever the decoder inverts the encoder on it |
| DBCast.JsonNullRejected | src/DBCast.php:20-21 | the string `null` parses but is refused with the invalid-JSON exception |
| DBCast.StringArgEndsLiteralEarly | src/DBCast.php:20-23 | the JSON text `"'"` is accepted and embedded unescaped, and its apostrophe ends the SQL literal early |
| DBCast.ToJsonEscaped | src/DBCast.php:16-24 | corrected cast: every success stays inside its literal and unescapes to the JSON text it came from; acceptance is as in `toJson` |
| DBCast.EscapedKeepsApostropheInside | src/DBCast.php:20-23 | the corrected cast escapes `"'"` to `\"\'\"` |
| DBCast.FormatYear | src/DBCast.php:34 | `Y` writes a minus sign first exactly for years BCE; after the sign come at least four digits that read back as the year's absolute value, with no leading zero once there are more than four; years 0..9999 take exactly four characters |
| DBCast.DateTail | src/DBCast.php:34 | the part after the year is 15 characters with `-`, `-`, space, `:`, `:` at 0, 3, 6, 9 and 12, and two digits for each of month, day, hour, minute and second that read back as those fields |
| DBCast.ToTimestamp | src/DBCast.php:32-35 | for every date-time, the timestamp is the year as `Y` writes it followed by the 15-character `-m-d H:i:s` part, so it is at least 19 characters long |
| DBCast.TwoDigits | src/DBCast.php:34 | a field below 100 is written as exactly two digits that read back as the field |
| DBCast.FourDigitYear | src/DBCast.php:34 | a year in 0..9999 is written as exactly four digits that read back as the year |
| DBCast.TimestampLayout | src/DBCast.php:34 | for a year in 0..9999 the timestamp has 19 characters: `-` at 4 and 7, a space at 10, `:` at 13 and 16, digits elsewhere |
| DBCast.TimestampRoundTrip | src/DBCast.php:34 | reading the six fields back out of the timestamp gives the original date-time |
| DBCast.TimestampExample | src/DBCast.php:34 | 2021-03-04 05:06:07 is written as `2021-03-04 05:06:07` |

## Left out

- src/DatabaseFactories.php (`create`, `make`): the only local logic is the `$number === 1` dispatch. What the result is (one model or a collection, persisted or not) is decided by the framework's factory helper, which is not part of this model.
- The mock handler's response queue and FIFO consumption: these live in the HTTP client library. A mock handler is an opaque object with an identity.
- `json_encode` and `json_decode`: abstract `Codec` functions. `json_encode` returning `false` on failure is not modelled.
- PHP `TypeError`s for arguments that are neither array, string nor null: these come from the language runtime, not from the helpers.
- `DB::raw`: a wrapper datatype around the text. Nothing is executed and no SQL dialect is modelled.
- The container is modelled as one binding per key. Laravel's separate tables of instances and recipes are not. Neither is automatic construction of concrete classes for unbound keys. Neither are recipes other than the client one. Resolving a missing key, or one whose instance is null, fails.
- The application's own exception handler: its `report` is modelled as appending to a log and its `render` as producing a response. Logging and HTTP rendering are not modelled.
- `return $this` chaining: each operation returns the new state.
- Client identity: a resolved client is the value `GuzzleClient(handler)`, so two resolutions give equal values. The model does not say that each resolution builds a distinct client object.
- Time zones. The timestamp layout and round trip are proved for years 0..9999. Other years are formatted as PHP's `Y` does (a sign before years BCE, at least four digits).
- Slashes.IsLiteralBody: it reads a backslash as escaping the next character, as MySQL does in its default mode. Under `NO_BACKSLASH_ESCAPES` or standard-conforming strings, `\'` ends the literal, and that reading is not modelled. The predicate also treats every bare single quote as closing the literal. SQL's doubled-quote escape `''` is not modelled; this only makes the literal-safety property stricter.

## Findings

| source | as written | input that shows it | evidently intended | confidence | as-written member | corrected member |
|---|---|---|---|---|---|---|
| src/DBCast.php:20-23 | a JSON string that decodes to non-null is placed between the quotes of `CAST('…' AS JSON)` without escaping | the JSON text `"'"` (a JSON string holding an apostrophe) gives `CAST('"'"' AS JSON)`, whose literal ends after one character | escape the string with `addslashes`, as the array branch does | medium, not executed | DBCast.StringArgEndsLiteralEarly | DBCast.ToJsonEscaped |
