# License-key lifecycle, modelled in Dafny

The system issues time-limited license keys. A key binds to one hardware
identifier (HWID) the first time it is validated. After that, only that HWID
is accepted, until the key expires. A REST server (`src/routes/key.py`, over
the `Key` record of `src/models/key.py`) does the following:

- creates keys of 8 characters from `A-Z0-9`, valid for 1 to 365 days (30 by
  default), generating at most ten candidate values in total and failing when all of
  them are already taken;
- validates a key together with an HWID;
- deletes keys one at a time or in batches;
- counts keys for the statistics panel;
- lists keys newest first.

A browser dashboard (`src/static/script.js`) calls the server. It trims and
checks its form inputs, splits the bulk-delete field on commas, and shows each
key with a status badge and a shortened HWID.

The model has six modules:

- `KeyModel` (`key_model.dfy`): the stored record, `is_valid`,
  `can_be_used_by` and the `to_dict` view with its `is_expired` flag.
- `Text` (`text.dfy`): whitespace stripping (`str.strip` / `String.trim`)
  and splitting on a separator, with the round-trip between `Split` and
  `Join`.
- `Ordering` (`ordering.dfy`): sorting by a key in descending order, used for
  the newest-first listing.
- `KeyRoutes` (`key_routes.dfy`): each request handler as a pure step
  function from the old store to a result and the new store. The store is
  `map<string, KeyRecord>`, indexed by key value. The class
  `KeyRoutes.KeyStore` holds that map in a mutable field and performs create,
  validate and the two deletes in place. Each of its methods is proved to
  agree with its step function. The retry loop of `create_key` and the loop
  of `delete_keys` are `while`/`for` loops with invariants.
- `Lifecycle` (`lifecycle.dfy`): properties of several requests in a row.
  - `Apply` handles one request and `Run` handles a sequence.
  - The store invariant `Consistent` says a record is used exactly when it
    carries a non-empty HWID, and it expires after it was created.
  - The binding rules: first use binds, the same device is accepted again,
    any other device is refused, and an expired key is never bound.
  - How each request moves the statistics.
- `Dashboard` (`dashboard.dfy`): the script's pure helpers, each related to
  the server model. The badge is tied to `can_be_used_by` and the HWID line to `used`.
  A bulk-delete batch the dashboard sends is never refused as empty, and a
  comma-separated list of keys parses back to itself. The server never
  refuses the duration of a create request the form sends.

Instants are integers (seconds). Each request is evaluated at one instant
`now`. The random choice of `generate_key` is a parameter: a "draw" is eight
positions in the 36-character alphabet, and `create_key` receives one draw
per possible attempt.

### Behaviour of the code worth knowing

- **The statistics overlap.** `active_keys` counts unexpired keys,
  `used_keys` counts used keys whether expired or not, and `expired_keys`
  counts keys with `expiry_date <= now`. Every used key is counted as used
  and also as active or expired, so the three counts exceed the total exactly
  when some key is used (`Lifecycle.StatsOverlap`). Evaluated at one instant,
  `active + expired == total` (`KeyRoutes.Stats`).
- **Bulk delete counts every string it receives.** `total_requested` is the
  length of the list, repeats included. A later request for a name that was
  already deleted is reported in `not_found`
  (`Lifecycle.BulkDeleteRepeatedKey`).
- **The server accepts an empty `created_by`.** The dashboard form refuses
  a blank creator before sending (`Dashboard.CreateRequest`).
- **Key generation can fail.** After ten candidates that are all taken, the
  server reports a failure. Key values have 36^8 possible values.
- **Expiry is judged three ways.**
  - `is_valid` accepts a key while `expiry_date > now`.
  - The `is_expired` flag of `to_dict` holds when `expiry_date < now`.
  - The statistics count a key as expired when `expiry_date <= now`.

  At `now == expiry_date`, validation refuses the key and the statistics
  count it as expired. Its card still does not show "Expirada"
  (`KeyModel.ValidityAndExpiryAtBoundary`, `Lifecycle.ExpiryInstant`,
  `Dashboard.StatusAtExpiryInstant`).

## Model

| member | source | states |
|---|---|---|
| KeyModel.NewRecord | src/models/key.py:12-15 | a new record is unbound (no HWID) and unused, with the given expiry, creation instant and creator |
| KeyModel.IsValid | src/models/key.py:32-33 | `is_valid` is `expiry_date > now`; its contract states that a key is valid exactly when it is neither flagged `is_expired` nor at its expiry instant |
| KeyModel.CanBeUsedBy | src/models/key.py:35-38 | `can_be_used_by` is false for a key that is not valid, and otherwise holds when the key is unbound or bound to `hwid`; its contract states that a usable key is valid |
| KeyModel.IsExpired | src/models/key.py:29 | the `is_expired` flag is the strict `expiry_date < now` (its relation to `is_valid` is the contract of `KeyModel.IsValid`) |
| KeyModel.ToDict | src/models/key.py:20-30 | the view copies every field, the HWID included; it is flagged `is_expired` exactly when `expiry_date < now`, so a flagged key is one `is_valid` refuses |
| KeyModel.ExpiredUsableByNone | src/models/key.py:35-37 | an expired key can be used by no HWID |
| KeyModel.UsableIffUnboundOrSame | src/models/key.py:35-38 | a valid key can be used by an HWID exactly when it is unbound or bound to that HWID |
| KeyModel.BoundUsableByOne | src/models/key.py:35-38 | a bound key is usable by at most one HWID, the bound one |
| KeyModel.ValidityAndExpiryAtBoundary | src/models/key.py:29-33 | `is_valid` and `is_expired` never both hold, and both fail exactly at the expiry instant |
| Text.Strip | src/routes/key.py:155 | the result has no whitespace at either end; it is the slice of the input left after the leading and trailing whitespace; it is empty exactly when the input is all whitespace |
| Text.StripStripped | src/routes/key.py:155 | stripping a string without surrounding whitespace returns it unchanged |
| Text.StripIdempotent | src/routes/key.py:155 | stripping twice is stripping once |
| Text.Split | src/static/script.js:275 | `split` gives at least one piece, no piece holds the separator, and joining the pieces with the separator gives back the input |
| Text.SplitWithoutSep | src/static/script.js:275 | a string without the separator splits into itself alone |
| Text.SplitAround | src/static/script.js:275 | splitting `a + sep + b` is splitting `a` followed by splitting `b` |
| Text.SplitJoin | src/static/script.js:275 | splitting the join of separator-free pieces gives back the pieces |
| Ordering.ConsDescending | src/routes/key.py:17 | prepending an element no smaller than the head keeps a list in descending order |
| Ordering.InsertDescending | src/routes/key.py:17 | insertion into a descending list keeps it descending and adds exactly that element to its multiset |
| Ordering.SortDescending | src/routes/key.py:17 | the result is in descending order of the key and is a permutation of the input |
| KeyRoutes.CharRange | src/routes/key.py:11 | the alphabet segments `A-Z` and `0-9` are the consecutive characters from their first code point |
| KeyRoutes.Spell | src/routes/key.py:11 | the key has one character per drawn position, the alphabet character at that position |
| KeyRoutes.GenerateKey | src/routes/key.py:9-11 | every generated key has 8 characters, each an upper-case letter or a digit |
| KeyRoutes.AlphabetIndex | src/routes/key.py:11 | every key character has a position in the alphabet holding it |
| KeyRoutes.Positions | src/routes/key.py:11 | a string of key characters has a draw of the same length spelling it |
| KeyRoutes.DrawFor | src/routes/key.py:9-11 | every 8-character upper-case/digit string is generated by some draw |
| KeyRoutes.Candidates | src/routes/key.py:42-43 | the candidate of attempt `j` is the key generated from draw `j` |
| KeyRoutes.FirstFresh | src/routes/key.py:41-47 | the attempt that ends the loop is the first whose candidate is not stored; when there is none, every candidate is stored |
| KeyRoutes.CreateStep | src/routes/key.py:29-69 | rejects a duration outside 1..365 (default 30); fails exactly when all ten candidates are taken; otherwise inserts the first candidate not yet stored, a fresh 8-character key, with an unbound record expiring `days` days from `now`, created by `created_by` (default "api"), and changes no other record; on failure the store is unchanged |
| KeyRoutes.CreateStepRejects | src/routes/key.py:34-38 | an out-of-range duration is refused and the store is unchanged |
| KeyRoutes.CreateStepFails | src/routes/key.py:49-53 | ten collisions give a generation failure and the store is unchanged |
| KeyRoutes.CreateStepCreates | src/routes/key.py:55-69 | the first free candidate is inserted with the new record and returned with its view |
| KeyRoutes.FindFreshKey | src/routes/key.py:41-47 | the loop stops at the first attempt whose generated key is not stored, and returns that key, or reports ten attempts when every candidate is stored |
| KeyRoutes.KeyStore.constructor | src/models/key.py:6-7 | the key table starts empty |
| KeyRoutes.KeyStore.CreateKey | src/routes/key.py:27-69 | the result and the new table are those of `CreateStep` on the old table |
| KeyRoutes.ValidateStep | src/routes/key.py:76-132 | missing key or HWID is an input error; then an unknown key is not found; then an expired key is refused; access is granted exactly when `can_be_used_by` holds; only the first use of an unbound valid key changes the store, binding it to the HWID and marking it used; a granted key's info shows that HWID; no key is added or removed and no bound record changes |
| KeyRoutes.KeyStore.ValidateKey | src/routes/key.py:76-132 | the result and the new table are those of `ValidateStep` on the old table |
| KeyRoutes.StrippedNamesLast | src/routes/key.py:154-155 | the stripped names of a batch are those of all but its last request plus the last one's |
| KeyRoutes.Misses | src/routes/key.py:154-160 | `not_found` is never longer than the batch |
| KeyRoutes.DeleteLoop | src/routes/key.py:151-160 | after the loop, every stored record whose name some request strips to is gone; `not_found` lists the requests that found nothing, unstripped and in order; deleted plus not found is the number of requests |
| KeyRoutes.DeleteTurn | src/routes/key.py:155-160 | one turn of the loop: the stripped name is deleted if it is stored, otherwise the request is appended to `not_found` as given; afterwards the stripped name is not stored |
| KeyRoutes.DeleteTurnCounts | src/routes/key.py:155-160 | a turn adds exactly one to `deleted_count` plus `len(not_found)`, and `deleted_count` grows exactly by the number of records that leave the store |
| KeyRoutes.FoundNamesGrow | src/routes/key.py:156-158 | a stored name not yet asked for adds one to the names found |
| KeyRoutes.FoundNamesSame | src/routes/key.py:159-160 | a name not stored, or already asked for, adds nothing to the names found |
| KeyRoutes.DeletedCountIsFoundNames | src/routes/key.py:151-158 | `deleted_count` is the number of distinct stored names the batch asks for |
| KeyRoutes.DeleteManyStep | src/routes/key.py:139-170 | an empty batch is refused and changes nothing; otherwise `total_requested` is the batch length, deleted plus not found equals it, the deleted count is the number of distinct stored names asked for, exactly those keys leave the store and the other records are unchanged |
| KeyRoutes.KeyStore.DeleteKeys | src/routes/key.py:139-170 | the result and the new table are those of `DeleteManyStep` on the old table |
| KeyRoutes.DeleteOneStep | src/routes/key.py:177-194 | a key is deleted exactly when it is stored (looked up unstripped); only that key leaves the store |
| KeyRoutes.KeyStore.DeleteSingleKey | src/routes/key.py:177-194 | the result and the new table are those of `DeleteOneStep` on the old table |
| KeyRoutes.DisjointCover | src/routes/key.py:204-216 | two disjoint sets covering a third add up to its size |
| KeyRoutes.Stats | src/routes/key.py:201-217 | total is the store size; active, expired and used are the sizes of their sets; active plus expired is the total; used lies between 0 and the total; unused is the number of unused keys |
| KeyRoutes.Views | src/routes/key.py:20 | one view per stored record, each the `to_dict` of its record |
| KeyRoutes.SameMembers | src/routes/key.py:17-20 | lists with the same multiset have the same length and members |
| KeyRoutes.ListAll | src/routes/key.py:14-22 | the listing has one entry per record, is ordered by `created_at` newest first, and holds exactly the `to_dict` views of the stored records |
| Lifecycle.ExpiredKeyNeverBound | src/routes/key.py:99-104 | validating an expired key is refused for any HWID and leaves the store unchanged, so an unused expired key is never bound |
| Lifecycle.FirstUseBinds | src/routes/key.py:106-117 | the first validation of an unbound valid key binds it to the caller's HWID and marks it used |
| Lifecycle.RevalidationIdempotent | src/routes/key.py:119-125 | after a granted validation the same HWID is granted again while the key is valid, and nothing changes |
| Lifecycle.OtherDeviceRefused | src/routes/key.py:127-132 | after a granted validation any other HWID is refused and the key stays bound to the first |
| Lifecycle.CreatedKeyBindsOnFirstUse | src/routes/key.py:56-117 | a key just created is bound by the first validation made before it expires |
| Lifecycle.DeletedKeyNotFound | src/routes/key.py:180-188 | after deleting a key, validating it reports not found |
| Lifecycle.BatchDeletedKeyNotFound | src/routes/key.py:154-158 | after a batch delete, validating any name a request strips to reports not found |
| Lifecycle.CreatePreservesConsistent | src/routes/key.py:56-63 | creating a key keeps every record consistent, and the record it creates is unbound and unused and expires at least a day after its creation |
| Lifecycle.ApplyPreservesConsistent | src/routes/key.py:106-110 | every request keeps the store consistent |
| Lifecycle.RunPreservesConsistent | src/routes/key.py:106-110 | every sequence of requests keeps the store consistent |
| Lifecycle.ApplyKeepsBoundRecord | src/routes/key.py:106-132 | no request changes a bound record it does not delete |
| Lifecycle.RunKeepsBoundRecord | src/routes/key.py:106-132 | a bound key that survives a sequence of requests keeps its record and HWID: it is never rebound |
| Lifecycle.StatsAfterInsert | src/routes/key.py:204-216 | inserting a new unused valid record adds one to total and active and leaves used and expired alone |
| Lifecycle.StatsAfterCreate | src/routes/key.py:204-216 | a created key adds one to total and active and leaves used and expired alone |
| Lifecycle.StatsAfterValidate | src/routes/key.py:204-216 | on a consistent store a validation adds one to `used_keys` exactly when it binds the key, and changes no other count |
| Lifecycle.StatsOverlap | src/routes/key.py:204-216 | for every store and instant, a used key is counted as used and as exactly one of active or expired, so active + used + expired exceeds the total exactly when some key is used |
| Lifecycle.ExpiryInstant | src/routes/key.py:207 | at its expiry instant a key is counted expired, refused by `is_valid`, and not flagged `is_expired` |
| Lifecycle.MissListed | src/routes/key.py:159-160 | a request that finds nothing is listed in `not_found` |
| Lifecycle.BulkDeleteRepeatedKey | src/routes/key.py:154-167 | a request repeating an earlier request's stripped name is reported in `not_found`, so fewer keys are deleted than requested |
| Dashboard.StatusOf | src/static/script.js:179-191 | the badge is "Expirada" exactly when the key is flagged expired, "Em Uso" exactly when it is unexpired and used, "Ativa" otherwise |
| Dashboard.StatusOfStoredKey | src/static/script.js:179-191 | for a consistent record, "Expirada" means past expiry, "Em Uso" means bound and "Ativa" unbound; before expiry "Ativa" means any HWID may use it and "Em Uso" means only the bound one |
| Dashboard.StatusAtExpiryInstant | src/static/script.js:183-186 | at the expiry instant the key is refused, yet its badge is not "Expirada" |
| Dashboard.HwidDisplay | src/static/script.js:228-231 | the HWID line appears exactly for a non-empty HWID and shows a prefix of at most 20 characters of it followed by "..." (the whole HWID when it is at most 20 long) |
| Dashboard.HwidShownIffUsed | src/static/script.js:228 | on a consistent record the HWID line appears exactly when the key is used |
| Dashboard.StripAll | src/static/script.js:275 | every piece is trimmed, one result per piece |
| Dashboard.NonEmpty | src/static/script.js:275 | the filter keeps exactly the non-empty pieces |
| Dashboard.StripAllAppend | src/static/script.js:275 | trimming distributes over concatenation |
| Dashboard.NonEmptyAppend | src/static/script.js:275 | filtering distributes over concatenation |
| Dashboard.NonEmptyKeepsAll | src/static/script.js:275 | filtering a list without empty pieces keeps it |
| Dashboard.ParseKeyList | src/static/script.js:275 | every parsed key is non-empty, trimmed and comma-free |
| Dashboard.ParseAround | src/static/script.js:275 | parsing `a + "," + b` is parsing `a` then `b` |
| Dashboard.ParseJoin | src/static/script.js:275 | a list of clean keys written with commas between them parses back to itself |
| Dashboard.JoinStripped | src/static/script.js:268 | such a comma-joined list has nothing for the field's trim to remove |
| Dashboard.BulkDeleteRequest | src/static/script.js:268-284 | a batch is sent exactly when the user confirms and the trimmed field parses to a non-empty list, and it is that list |
| Dashboard.BulkDeleteAccepted | src/static/script.js:268-291 | a sent batch is never refused as empty by the server, counts as typed, and needs no further stripping |
| Dashboard.BulkDeleteSendsTypedKeys | src/static/script.js:268-291 | typing clean keys separated by commas and confirming sends exactly those keys |
| Dashboard.CreateRequest | src/static/script.js:64-82 | a request is sent exactly when the duration is in 1..365 and the trimmed creator is non-empty, and it carries both |
| Dashboard.CreateRequestAccepted | src/static/script.js:64-82 | the server never refuses the duration of a sent request, and a created key records a non-empty, trimmed creator |

## Left out

- Flask routing, JSON encoding and HTTP status codes are not modelled. Each handler's outcome is a result datatype whose constructors stand for the response bodies.
- The `try`/`except` paths are not modelled: a storage failure, a rollback, or a request without a JSON body. These are failures of the database and framework, not of the handlers' logic.
- SQLAlchemy, transactions and concurrency are not modelled. Each request is one atomic step on the store, so the race between two concurrent first validations of the same key is not modelled. Sequential requests are: the first binds and the second is refused (`Lifecycle.OtherDeviceRefused`).
- The random number generator is replaced by the draws passed to `create_key`.
- The clock is replaced by one instant `now` per request. `create_key` reads the clock twice, once for `expiry_date` and once for the `created_at` default; the model uses the same instant for both.
- KeyRoutes.Stats: `get_stats` reads the clock twice, once for `active_keys` and once for `expired_keys`. A key whose expiry falls between the two reads is counted in both, so `active + expired == total` is promised only for one instant, which is what the model evaluates.
- The `id` column and the column length limits (20, 100 and 50 characters) are not modelled. The `created_by` column default `'system'` is not modelled. It applies when a request sends `"created_by": null`: the handler then passes `None`, and the stored creator becomes `'system'`. The model covers only an absent field (creator `'api'`) and a string.
- JSON values of the wrong type are not modelled. This covers a `days` that is not an integer: a JSON fraction passes the range check and becomes a fractional `timedelta`. It also covers `key`, `hwid` or `keys` being `null` or not a string or list. In the model, absent fields are `None`, and for validation an absent key or HWID is the empty string, which the server treats the same way.
- `Text.Strip` removes only the six ASCII whitespace characters, and the server and the dashboard share it. Python's `strip()` also removes the ASCII separators 0x1C-0x1F, which JavaScript's `trim()` keeps, so the two sides trim different sets; both also remove Unicode spaces and line separators. None of these extra characters is modelled. JavaScript strings are UTF-16, while the model uses code points.
- Dashboard.CreateRequest: a non-numeric days field, which `parseInt` turns into `NaN` and lets past the range check, is not modelled.
- KeyRoutes.ListAll: the order of keys with equal `created_at` is left open; the database's tie-break is not modelled. The listing is a ghost function because choosing an order of a map's keys needs a non-deterministic choice.
- Timestamps are integers, not ISO-8601 strings with microseconds.
- Not modelled: `health_check`, the application setup in `wsgi.py`, and the dashboard's rendering, alerts and HTTP helper.
- The dashboard's validate form is not modelled. It trims the key and the HWID and refuses to send either one empty (src/static/script.js:96-102); the server's own empty-input check is modelled in `KeyRoutes.ValidateStep`.
