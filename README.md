# Checks service controllers, modelled in Dafny

The checks service stores consistency-check definitions (a formula, the
dependencies it reads, a comparison operator and a threshold) behind a Tornado
REST API backed by MongoDB. This project models the logic of its request
controllers in `checks/controllers.py`:

- `setError`, which answers a request with the uniform JSON error body
  `{error, code, host}`. The defaults are `'Not found'`, `404` and the request
  host, and the keyword arguments override or extend them;
- `validateCheck`, which vets a proposed check held as a dict. It checks that
  `formula`, `deps` and `autore` are present, in that order. It writes the
  `threshold` (0.1) and `operator` (`'<='`) defaults into the caller's dict and
  rejects an operator outside `<`, `>`, `==`, `<=`, `>=`, `<>`;
- the CSV export in `CsvBulkHandler.get`, which writes one row per stored check,
  `name;group;formula;operator;threshold;dep1;dep2;...`, each followed by a newline.

Files:

- `json.dfy` (module `Json`): the decoded JSON values the controllers read.
- `strings.dfy` (module `Strings`): Python's `str.join` and `str.split` for a
  one-character separator, with the lemma that splitting undoes joining.
- `web.dfy` (module `Web`): the Tornado request handler state the controllers
  change. This is the status, the headers, the output chunks written so far and
  whether the response was finished.
- `controllers.dfy` (module `Controllers`): the three operations and their properties.
- `wrappers.dfy` (module `Wrappers`): `Option` and `Result`.

Behaviour as written, which the model keeps:

- `setError` sets the HTTP status from the default code before the arguments
  are merged (`checks/controllers.py:24`). So the status is always 404, even when
  `code=400` or `code=500` is passed. The body's `code` field does carry the
  passed value.
- The author key is spelled `autore` (`checks/controllers.py:50`), while the
  message at line 51 names `author`. A payload that names its author under
  `author` is rejected with the message `Check must have an "author"`.
- The malformed-operator branch passes `code=400` but calls `setError(self, ...)` inside a plain
  function where `self` is undefined (`checks/controllers.py:62`). Python
  evaluates `self` first, so the call raises `NameError`. The error message is
  never formatted and no error response is written. The model ends such a call
  with `Raised("NameError")`. The `threshold` default has already been written
  by then.
- The CSV row is built with `';'.join`. That raises `TypeError` when any of the
  five leading fields is not a string. A threshold that validation filled in is
  the float 0.1, so such a check cannot be exported
  (`DefaultThresholdBreaksRow`). A `deps` that is a string is joined character
  by character. A missing key raises `KeyError`, checked in the order name,
  group, formula, operator, threshold, deps.
- The CSV export escapes nothing (`checks/controllers.py:166-175`). A field or
  dependency that contains `;`, or a row that contains a newline, is written as
  it is, so such a row cannot be split back into its fields or lines. A check
  named `a;b` gives the row `a;b;g;f;<;1;`. `RowSplit` and `CsvLines` state
  their round trips only for rows free of those characters.

## Model

| member | source | states |
|---|---|---|
| `Controllers.Override` | checks/controllers.py:26-27 | the dict after `ret[key] = value` for each keyword argument in order; its properties are the three lemmas below |
| `Controllers.OverrideKeys` | checks/controllers.py:26-27 | the merged dict has exactly the original keys plus the keys the arguments name |
| `Controllers.OverrideLast` | checks/controllers.py:26-27 | the last argument that names a key decides that key's value |
| `Controllers.OverrideKeeps` | checks/controllers.py:26-27 | a key that no argument names keeps its original value |
| `Controllers.ErrorBody` | checks/controllers.py:18-27 | the error body has exactly the keys `error`, `code`, `host` plus the argument keys; each default (`'Not found'`, 404, the request host) holds unless an argument overrides it, and every argument's value wins |
| `Controllers.SetError` | checks/controllers.py:15-29 | sets Content-Type to `application/json`, sets status 404 whatever code is passed, sends `ErrorBody` as the JSON body and finishes the response, which must not be finished yet; nothing else in the handler's modelled state changes |
| `Controllers.FirstMissingIndex` | checks/controllers.py:166-172 | the position of the first key in a list of keys that the dict lacks: every key before it is present, and the key at it is missing |
| `Controllers.Validate` | checks/controllers.py:32-65 | missing `formula`, then `deps`, then `autore` each give False with that key's 400 error and leave the dict unchanged; the result is True iff all three are present and the operator is absent or one of the six symbols; a present, unknown operator raises NameError; no value in the dict is overwritten and only `threshold` (0.1) and `operator` (`'<='`) can be added, `threshold` whenever the mandatory keys pass |
| `Controllers.ValidateCheck` | checks/controllers.py:32-65 | the step-by-step validator, on a response not yet finished: its verdict and the caller's dict afterwards are those of `Validate`; when a key is missing the handler holds the error response `SetError` writes, and otherwise the handler is untouched |
| `Controllers.ValidateIdempotent` | checks/controllers.py:54-65 | validating an accepted check again returns True, does not call `setError`, and changes nothing |
| `Controllers.AuthorKeyIsAutore` | checks/controllers.py:50-52 | a payload with `formula`, `deps` and `author` but no `autore` is rejected with the author message and code 400, unchanged |
| `Controllers.FirstNonString` | checks/controllers.py:166-173 | the position of the first item that is not a string, the one `str.join` raises on |
| `Controllers.JoinParts` | checks/controllers.py:172 | what `';'.join(deps)` joins: a string's characters, or a list's items when all are strings; a list with a non-string item raises at the first such item, and any other value is not iterable |
| `Controllers.Row` | checks/controllers.py:166-173 | a row raises KeyError for the first missing key in the order name, group, formula, operator, threshold, deps; it is built iff all keys are present, the five leading fields are strings and `deps` joins; it raises at item `i` of the outer join iff the keys and deps are fine and field `i` is the first non-string; a failing deps join raises what that join raises (`JoinParts`: not iterable, or the first non-string item) |
| `Controllers.RowSplit` | checks/controllers.py:166-173 | when no field and no dependency contains `;`, splitting a row at `;` gives the five fields (`Fields`: the values of name, group, formula, operator, threshold, in that order) followed by the dependencies; an empty `deps` leaves a trailing `;`, so the last piece is empty |
| `Controllers.CsvOutcome` | checks/controllers.py:165-175 | the export writes one row per check, in listing order, and stops at the first check whose row raises; that exception is the outcome |
| `Controllers.RowChunks` | checks/controllers.py:174-175 | the rows are written as text chunks, two per row; `RowChunksSnoc` fixes their order and `CsvLines` the text they make |
| `Controllers.RowChunksSnoc` | checks/controllers.py:174-175 | one more row appends exactly that row's text and then a newline chunk |
| `Controllers.CsvGet` | checks/controllers.py:159-177 | the export loop appends exactly the chunks of `CsvOutcome`'s rows to the handler; it requires an unfinished response (Tornado refuses writes after `finish`) and finishes it iff no row raised, and reports the exception otherwise; the modelled status and headers are unchanged |
| `Controllers.CsvLines` | checks/controllers.py:174-175 | when no row contains a newline, the exported text split at newlines is the rows in order, followed by one empty piece after the final newline |
| `Controllers.DefaultThresholdBreaksRow` | checks/controllers.py:54-55 | a check whose threshold was defaulted by validation cannot be exported: its row raises at item 4 (the float threshold) of the join at line 171 |

## Left out

- The MongoDB-backed handlers (`CheckHandler.get`, `post`, `put`, `delete`, `BulkHandler.get`) and the document fetch at the start of `CsvBulkHandler.get` are not modelled. They are thin wrappers over an asynchronous database driver. `CsvGet` takes the fetched list of checks as a parameter.
- `CsvBulkHandler.post` is not modelled. It reads the body, ignores it and answers 201.
- `NotFoundHandler.prepare` is `setError` with no arguments, so it is `SetError` with an empty argument list.
- JSON encoding (`json.dumps`) and decoding are not modelled. A JSON response is kept as the object it encodes (`Web.Chunk.JsonDoc`).
- What Tornado sends after an exception escapes a handler is not modelled. This covers the `NameError` of the operator branch and the `KeyError`/`TypeError` of a CSV row, which Tornado turns into its own 500 page. The model reports the exception and the handler state at that point.
- The caller's dict, which `validateCheck` changes in place, is modelled as a value the method returns. Aliasing of that dict is not captured.
- Floats are `real` and only the default 0.1 appears. No numeric comparison is modelled.
- Nested JSON objects inside a check are not modelled (`Json.Value` has no object case). The `';'.join` of a dict, which would join its keys, is therefore not covered.
- The server plumbing is not part of this model: `checks/app.py` (routing, the SQLAlchemy session, port-retry binding, service discovery, signal handling), `checks/config.py`, the single-column table in `checks/checks.py`, `setup.py` and the test placeholders. None of it holds controller logic. The timestamp-bumping setters that `tests/unit/test_checks.py` expects have no implementation in these files.
- The check-execution pipeline is not modelled: dependency resolution with a sentinel fallback, remote formula evaluation and the operator evaluator. No file of this repository implements it.
- The posted body is taken to decode to a JSON object. The validator sees whatever `tornado.escape.json_decode` returns (`checks/controllers.py:103`), and other bodies behave differently. A JSON array makes the key tests list-membership tests: `[]` gets the "formula" 400 error, and `["formula","deps","autore"]` passes them and then raises TypeError at line 55. A JSON string makes lines 42-50 substring tests. A number, boolean or null raises TypeError at line 42. None of these cases is modelled.
- The headers and status that Tornado's `finish()` adds on its own are not modelled. It always sets `Content-Length`, and for a 200 GET such as the CSV export it also sets `Etag` and may turn the status into 304. `Web.Handler` holds only the state the controller code itself sets.
