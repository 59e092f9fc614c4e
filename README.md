# Audit records of the Filament model logger

A Dafny model of `AbstractModelLogger` from the Filament logger package: the Eloquent
observer that writes an activity-log entry whenever a model is created, updated or
deleted. The entry carries the logger's log name, the event ("Created", "Updated",
"Deleted"), the model as subject, a description such as "Blog Post Updated by Jane", and
the changed attributes as `['attributes' => new values, 'old' => original values]`, or
`[]` when nothing loggable changed.

Three modules, one per concern:

- `PhpArrays` (`php_arrays.dfy`): attribute values, PHP arrays as ordered key/value
  sequences with a map view, and the key filters `array_intersect_key` /
  `array_diff_key` over `array_flip` of a name list.
- `LoggableAttributes` (`loggable_attributes.dfy`): `getLoggableAttributes`. The method
  `GetLoggableAttributes` follows the source step by step (the filters reassign the
  candidate array; the loop, in `CollectChanges`, builds `$changed` and `$old`) and is proved equal to the
  specification function `Loggable`, about which the soundness, completeness and
  filtering lemmas are proved.
- `ModelLogger` (`model_logger.dfy`): the description and actor text of `log`,
  `getUserName`, and the `created` / `updated` / `deleted` handlers as functions
  returning `Option<AuditRecord>` (`None` when `updated` returns early).

Inputs the source fetches from globals or the ORM are parameters: the `Model` value holds
`getAttributes()`, `getOriginal()`, `getChanges()`, `getVisible()`, `getHidden()` and the
class name; `Auth` is `NoSession` or `Authenticated(user)` with the user that
`auth()->user()` returns, where a `Principal` flags Laravel's `GenericUser`. The `Logger`
value carries `getLogName()` and, as uninterpreted functions, the headline form of the
class basename and Filament's user display name. The `old` array is the `oldValues` field
of `Properties` because `old` is a Dafny keyword.

One point the code decides: a key missing from the original values reads as `null`
(`$original[$key] ?? null`). So a new `null` value with no original is not logged, and on
creation with no original values (Laravel fires `created` before it syncs the original)
every logged key has `null` under `old`.

## Model

| member | source | states |
|---|---|---|
| `PhpArrays.FilterKeys` | src/Loggers/AbstractModelLogger.php:48-58 | a key is in the result iff it is in the input and its membership in the name list is the one asked for; the kept keys keep their values; distinct keys stay distinct |
| `LoggableAttributes.Filtered` | src/Loggers/AbstractModelLogger.php:48-58 | after the visible, hidden and timestamp filters a key remains iff it was a candidate, is in the visible list when that is non-empty, is not hidden and is not `created_at`/`updated_at`/`deleted_at`, with its value unchanged |
| `PhpArrays.FilterKeysAppend` | src/Loggers/AbstractModelLogger.php:48-58 | `array_intersect_key` / `array_diff_key` keep the input order: filtering a concatenation is concatenating the filtered parts |
| `LoggableAttributes.FilteredAppend` | src/Loggers/AbstractModelLogger.php:48-58 | the three filters together keep the candidates' order: filtering a concatenation is concatenating the filtered parts |
| `LoggableAttributes.ChangedAndOld` | src/Loggers/AbstractModelLogger.php:65-73 | the `$changed` and `$old` arrays list the same keys in the same order, all of them candidate keys, without repeats |
| `LoggableAttributes.ChangedAndOldAppend` | src/Loggers/AbstractModelLogger.php:62-73 | the loop keeps the order of the filtered candidates: over a concatenation, `$changed` and `$old` are the concatenations of the parts' arrays |
| `LoggableAttributes.Loggable` | src/Loggers/AbstractModelLogger.php:42-83 | a non-array argument gives `[]`; a non-empty result has a non-empty `attributes` with exactly the keys of `old` |
| `LoggableAttributes.GetLoggableAttributes` | src/Loggers/AbstractModelLogger.php:42-83 | the early return for a non-array, the reassigning filters and the loop return exactly `Loggable(model, values)` |
| `LoggableAttributes.CollectChanges` | src/Loggers/AbstractModelLogger.php:62-73 | the `foreach` loop, run over the filtered candidates, builds exactly the `$changed` and `$old` arrays of `ChangedAndOld` |
| `LoggableAttributes.ChangedAndOldMaps` | src/Loggers/AbstractModelLogger.php:65-73 | as maps, `$changed` holds exactly the keys whose new value is not identical to the original-or-null value, with the new values, and `$old` the same keys with the original-or-null values |
| `LoggableAttributes.LoggableSpec` | src/Loggers/AbstractModelLogger.php:60-82 | soundness and completeness: a key is logged iff it is a candidate, survives the filters and differs from its original-or-null value; it is logged with its new value under `attributes` and that original-or-null value under `old`, and the two have the same keys |
| `LoggableAttributes.NoPropertiesIffUnchanged` | src/Loggers/AbstractModelLogger.php:75-77 | the result is `[]` iff every key surviving the filters keeps its original-or-null value |
| `LoggableAttributes.LoggedKeys` | src/Loggers/AbstractModelLogger.php:44-72 | a non-empty result comes from an array argument, and every logged key is a candidate key in the visible list (when non-empty), not hidden and not a timestamp |
| `LoggableAttributes.TimestampsNeverLogged` | src/Loggers/AbstractModelLogger.php:56-58 | `created_at`, `updated_at`, `deleted_at` are in neither `attributes` nor `old`, whatever the visible and hidden lists |
| `LoggableAttributes.NullWithoutOriginalNotLogged` | src/Loggers/AbstractModelLogger.php:66-69 | a key with no original value and a new `null` value is not logged |
| `PhpArrays.IntersectKey` | src/Loggers/AbstractModelLogger.php:48-50 | `array_intersect_key` over `array_flip` of the visible list: its map view is exactly the input's entries whose key is named; distinct keys stay distinct |
| `PhpArrays.DiffKey` | src/Loggers/AbstractModelLogger.php:52-58 | `array_diff_key` over `array_flip` of the hidden list or the timestamp list: its map view is exactly the input's entries whose key is not named; distinct keys stay distinct |
| `PhpArrays.ValueOrNull` | src/Loggers/AbstractModelLogger.php:66 | `$original[$key] ?? null` is the value stored under the key when there is one, and `null` when the key is missing |
| `ModelLogger.Logger.UserName` | src/Loggers/AbstractModelLogger.php:17-24 | `getUserName` is "Anonymous" for a null user or a `GenericUser`, and the framework's display name for any other user |
| `ModelLogger.Logger.BaseDescription` | src/Loggers/AbstractModelLogger.php:87-89 | the explicit description when one is given, otherwise "<Model Name> <event>" |
| `ModelLogger.Logger.Description` | src/Loggers/AbstractModelLogger.php:87-93 | the description starts with the base text; it is exactly the base text iff there is no authenticated session, and otherwise continues with " by " and the user name |
| `ModelLogger.Logger.Log` | src/Loggers/AbstractModelLogger.php:85-99 | `log` writes a record on the logger's log name with the event, the model as subject, the loggable attributes of its argument (empty for a non-array) and the description |
| `ModelLogger.Logger.Created` | src/Loggers/AbstractModelLogger.php:102-105 | `created` always yields a "Created" record on the logger's log whose properties are the diff of the full attribute array |
| `ModelLogger.Logger.Updated` | src/Loggers/AbstractModelLogger.php:107-117 | `updated` yields nothing iff the change set has exactly one entry and it is `remember_token`; otherwise an "Updated" record whose properties are the diff of the change set alone |
| `ModelLogger.Logger.Deleted` | src/Loggers/AbstractModelLogger.php:119-122 | `deleted` always yields a "Deleted" record with empty properties, since `null` is not an array |
| `ModelLogger.DescriptionCases` | src/Loggers/AbstractModelLogger.php:85-93 | the description is the explicit one or "<Model Name> <event>"; no session adds nothing, a null or `GenericUser` principal adds " by Anonymous", a full user adds " by " and the display name (`getUserName`, lines 17-24) |
| `ModelLogger.SessionShowsInDescription` | src/Loggers/AbstractModelLogger.php:91-93 | an authenticated session's description strictly extends the unauthenticated one, so the two never coincide |
| `ModelLogger.RememberTokenWithOthersLogged` | src/Loggers/AbstractModelLogger.php:111-116 | a change set with `remember_token` and any other entry is still logged |
| `ModelLogger.CreatedWithoutOriginal` | src/Loggers/AbstractModelLogger.php:102-105 | with no original values, creation logs exactly the surviving attributes that are not `null`, each with `null` under `old` |
| `ModelLogger.UnchangedUpdateHasNoProperties` | src/Loggers/AbstractModelLogger.php:107-116 | an update that is logged (anything but a lone `remember_token` change) and whose surviving changes all equal their original-or-null values has empty properties |
| `ModelLogger.StatusUpdateExample` | src/Loggers/AbstractModelLogger.php:107-116 | changing `status` from "pending" to "paid" logs `attributes = {status: paid}`, `old = {status: pending}` |
| `ModelLogger.CreatedExample` | src/Loggers/AbstractModelLogger.php:102-105 | creating a model with `amount` and `created_at` logs only `amount`, with `null` under `old` |
| `ModelLogger.FilterPrecedenceExample` | src/Loggers/AbstractModelLogger.php:48-58 | visible a, b, c and hidden b keep a and c of the candidates a, b, c, d, in that order |

## Left out

- Persistence: `activityLogger()` and the `event()->performedOn()->withProperties()->log()` chain (lines 31-40, 95-99) belong to the Spatie activity log and Laravel's container; the model returns the `AuditRecord` those calls would write, and the log-status toggle is not modelled.
- `getModelName` (lines 26-29): `Str::of(class_basename(...))->headline()` is library code; it is the uninterpreted `modelName` function of a `Logger`.
- `Filament::getUserName` (line 23): framework code; it is the uninterpreted `displayName` function.
- `auth()` and the Eloquent getters are not modelled; their results are inputs (`Auth`, `Model`). `blank($user)` is taken to hold only for a null user.
- Values: PHP's strict identity is equality on an abstract `Value` (null, bool, int, string); cross-type identity details, floats and array-valued attributes are not modelled.
- PHP arrays are modelled with string keys only; key uniqueness is the `DistinctKeys` predicate, required by the lemmas that read values through the map view.
- Errors raised by the log sink or the authentication context propagate in the source; the model has no such failures.
