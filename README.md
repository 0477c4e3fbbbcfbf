# Create-environment handler, modelled in Dafny

This project models the serverless handler `create` in
`api/environments/create.js`. The handler receives a request whose body is a
JSON object describing an environment, validates four fields of it in a
fixed order, builds an environment item, writes it to a key-value table and
answers through its callback.

- `js_values.dfy`, module `JsValues`: the JavaScript values the handler
  inspects (what `JSON.parse` yields, plus `undefined`). It defines
  truthiness (`if (v)`), `typeof` and `Array.isArray`.
- `create_environment.dfy`, module `CreateEnvironment`: the handler itself.
  `Validate` holds the four guards, `BuildItem` the item literal, and `Create`
  the whole invocation. The module also states the condition each guard
  accepts, per field and apart from the guard chain (`Admissible`), and the
  order of the checks.
- `create_environment_properties.dfy`, module `CreateEnvironmentProperties`:
  lemmas over all inputs, plus four concrete requests:
  - `{"name": "ab"}`;
  - `{"name": "valid-name", "tags": "not-an-array"}`;
  - `{"name": "valid-name", "isPrivate": true}` with a successful write;
  - `{"name": "valid-name"}` with a failed write.

The handler's effects are parameters of `Create`:

- the identifier from `uuid.v1()`;
- the timestamp captured at entry;
- the configured table name;
- the error value the storage callback receives.

`Create` returns an `Invocation`. It records the storage write the handler
issues (`put`, at most one) and how the invocation ends (`completion`). It
ends in one of three ways:

- a response passed to the callback;
- an error passed to the callback;
- a TypeError thrown before any callback, when the parsed body is `null`.

A response body is the value before JSON encoding: `{message: ...}` or the
item.

The intended schema of an environment has `tags` as a list of strings.
The model follows the code where the code differs from that:

- The code only checks `Array.isArray` on `tags`. The element types are never
  checked.
- An optional field counts as "present" only when it is truthy. So `""`, `0`,
  `false` and `null` pass its check unexamined.
- A falsy `description` or `tags` is copied into the item as given.
- The `isPrivate` of the request is checked, then replaced by `false`,
  whatever it was.

## Model

| member | source | states |
|---|---|---|
| `JsValues.Truthy` | api/environments/create.js:19 | a value is truthy exactly when it is not one of `undefined`, `null`, `false`, `0`, `""`; arrays and objects, even empty ones, are truthy |
| `JsValues.TypeOf` | api/environments/create.js:12 | `typeof` is "string" exactly for strings, "boolean" exactly for booleans, "undefined" exactly for `undefined`, and "object" for `null`, arrays and objects |
| `CreateEnvironment.Read` | api/environments/create.js:12-52 | reading `name`, `description`, `tags` or `isPrivate` of the parsed body gives the body's own property when the body is an object that has it, and `undefined` otherwise; bodies `null` and `undefined` cannot be read |
| `CreateEnvironment.IsLength` | api/environments/create.js:12 | `validator.isLength(s, {min, max})` holds exactly when the string's length lies between `min` and `max` inclusive |
| `CreateEnvironment.Validate` | api/environments/create.js:12-44 | the guards reject only a field whose value fails that field's acceptance condition, and they accept exactly when all four fields meet their conditions |
| `CreateEnvironment.BadRequest` | api/environments/create.js:13-16 | a rejection is a status-400 response with no headers whose body is `{message}` with the rejected field's message |
| `CreateEnvironment.BuildItem` | api/environments/create.js:46-57 | the item has the given id, copies `name`, `description` and `tags` unchanged, has `isPrivate` false, and has `createdAt` and `updatedAt` both equal to the entry timestamp |
| `CreateEnvironment.Create` | api/environments/create.js:8-75 | the handler throws exactly when the body is unreadable; it issues a write exactly when validation passes; the written item carries the given id and table, `isPrivate` false, and `createdAt` equal to `updatedAt`, both the entry timestamp; it fails only after a write whose error is truthy; it answers 200 exactly when the write's error is falsy |
| `CreateEnvironmentProperties.ValidateIsFirstRejection` | api/environments/create.js:12-44 | first failure wins: the rejected field is exactly the first field, in the order name, description, tags, isPrivate, whose acceptance condition fails, with all earlier fields passing |
| `CreateEnvironmentProperties.BadRequestNamesField` | api/environments/create.js:13-42 | every 400 message starts with "Validation Error: ", and the four 400 answers differ, so the answer identifies the rejected field |
| `CreateEnvironmentProperties.NameRule` | api/environments/create.js:12-17 | the answer is 400 with the exact "name" message if and only if `name` is not a string of 3 to 32 characters, whatever the other fields hold |
| `CreateEnvironmentProperties.DescriptionRule` | api/environments/create.js:19-26 | the answer is 400 with the exact "description" message if and only if `name` passes and `description` is truthy but not a string of 3 to 1024 characters; a falsy `description` is never rejected |
| `CreateEnvironmentProperties.TagsRule` | api/environments/create.js:28-35 | the answer is 400 with the exact "tags" message if and only if `name` and `description` pass and `tags` is truthy but not an array; a falsy `tags` is never rejected |
| `CreateEnvironmentProperties.IsPrivateRule` | api/environments/create.js:37-44 | the answer is 400 with the exact "isPrivate" message if and only if the earlier fields pass and `isPrivate` is truthy but not a boolean; falsy values and `true` are never rejected |
| `CreateEnvironmentProperties.RejectionWritesNothing` | api/environments/create.js:12-60 | an invocation answers 400 exactly when it ends without a throw and without issuing the write |
| `CreateEnvironmentProperties.StoredItem` | api/environments/create.js:9-57 | for a valid request, the written item is in the configured table with the given id; `name`, `description` and `tags` are copied unchanged; `isPrivate` is false; `createdAt` and `updatedAt` both equal the entry timestamp |
| `CreateEnvironmentProperties.SuppliedIsPrivateDiscarded` | api/environments/create.js:37-53 | a request that supplies a boolean `isPrivate` is handled exactly like the same request without it, so the supplied value never reaches the item or the answer |
| `CreateEnvironmentProperties.OnlyCheckedFieldsMatter` | api/environments/create.js:12-57 | two readable requests that agree on `name`, `description`, `tags` and `isPrivate` are handled identically; other properties are ignored |
| `CreateEnvironmentProperties.WriteOutcome` | api/environments/create.js:60-73 | after validation, a truthy write error ends in the error "Couldn't create the environment item." with no status code; a falsy one ends in status 200 with the header `Access-Control-Allow-Origin: *` and the written item as body |
| `CreateEnvironmentProperties.CompletionCases` | api/environments/create.js:8-75 | every invocation ends one way, decided by the input: a throw exactly for an unreadable body, the 400 answer of the first rejected field, the write error exactly when validation passes and the write fails, otherwise 200; the only status codes are 200 and 400 |
| `CreateEnvironmentProperties.EveryCheckCanFire` | api/environments/create.js:12-44 | each of the four checks is reachable: for every field there is a request rejected because of that field |
| `CreateEnvironmentProperties.ShortNameScenario` | api/environments/create.js:12-17 | `{"name": "ab"}` is answered 400 with the "name" message and nothing is written |
| `CreateEnvironmentProperties.TagsNotArrayScenario` | api/environments/create.js:28-35 | `{"name": "valid-name", "tags": "not-an-array"}` is answered 400 with the "tags" message and nothing is written |
| `CreateEnvironmentProperties.IsPrivateTrueScenario` | api/environments/create.js:37-73 | `{"name": "valid-name", "isPrivate": true}` with a successful write is answered 200, and the item in the body has `isPrivate` false |
| `CreateEnvironmentProperties.WriteFailureScenario` | api/environments/create.js:60-65 | a valid request whose write fails ends in the generic creation error, not in a 400 answer |

## Left out

- `JSON.parse` of the request body (line 10) is not modelled. The input is
  the parsed value. A body that is not valid JSON throws a SyntaxError there,
  and that case is outside the model.
- `JSON.stringify` of the response bodies (lines 15, 23, 32, 41, 72) is not
  modelled. A body is the value before encoding. The encoder drops members
  whose value is `undefined`, so an item without a description is sent
  without a `description` key.
- `uuid.v1()` (line 49) is not modelled; the id is a parameter. That ids are
  unique across invocations is therefore not stated.
- `new Date().toISOString()` (line 9) is not modelled; the timestamp is a
  parameter. Its ISO-8601 format is not checked.
- `dynamodb.put` (line 60) is not modelled; the write is reported in
  `Invocation.put`, and its outcome is the `putError` parameter. The table
  stores nothing in this model.
- The asynchronous callback is not modelled; it becomes the `completion`
  value.
- `console.error` logging (line 63) is not modelled.
- `config.dynamodb.environments.table` (line 47) is a parameter.
- `IsLength` takes a string's length as its number of Dafny characters,
  which are Unicode scalar values. That already equals `validator.isLength`'s
  count of `str.length` minus surrogate pairs. Two things differ: newer
  versions of the library also discount variation selectors (U+FE0E, U+FE0F),
  which is not modelled, and a lone surrogate cannot be represented here.
- Numbers are integers. Fractional numbers, like the nonzero integers, are
  truthy and have `typeof` "number", so no validation outcome depends on
  them. `NaN` cannot come from JSON, and `-0` equals `0` here; both are falsy
  in JavaScript as in the model.
- Property reads on a parsed value are modelled only for the four keys the
  handler reads. None of them is inherited from a prototype.
- An empty header map stands for a response object with no `headers`
  property (the 400 answers).
- `src/main/java/io/dashboardhub/pipelinedashboard/controller/advice/CurrentUserAdvice.java`
  is not part of this model. It is framework wiring around
  `UserService.findByCurrentUser()`, with no handler logic.
