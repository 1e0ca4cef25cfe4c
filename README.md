# QR Vault Pro in Dafny

QR Vault Pro lets a browser keep a personal history of the texts it turned
into QR codes. The browser has no login. It identifies itself with a random
id that it keeps in `localStorage`. This project models the two halves that
hold any logic, and proves what they promise.

- **The vault store** is the Flask handlers in `routes.py` over the two tables
  in `models.py`. It is modelled as the class `Routes.Vault`, holding the
  `users` and `qr_records` tables as maps from primary key to row. Each
  handler is a method that returns the status code and the JSON body it
  sends. Request fields, the current time and the database's outcome (a
  commit that raises) are parameters.
- **The page controller** is `static/js/script.js`. It is modelled as the
  class `Client.Page`, a state machine with no I/O. Its state is:
  - the storage map;
  - the identity;
  - the text box;
  - the text the QR image shows;
  - the last notice (toast);
  - how many history loads were issued;
  - the items of the last history list, and the panel rendered from them.

  Network outcomes and the random part of a new identity are inputs. A
  request that a handler issues is one of its results.
- **The view button's quote escape** is at `static/js/script.js:124`. It is
  modelled in `QuoteEscape`, together with:
  - its inverse;
  - the part of the JavaScript lexer that reads a single-quoted string
    literal (section 12.9.4 of ECMA-262);
  - a corrected escape (see Findings).
- **Whitespace stripping** is in `Text`. It covers Python's `str.strip()`,
  used by the save handler, and JavaScript's `String.prototype.trim()`, used
  by the generate button. Each has its own whitespace table.
- **Worked runs** are in `Scenarios`. They are proved from the contracts
  alone.
  - Save, list, delete, list, on a new store.
  - A blank generate.
  - A rejected save.
  - View clicks on contents the escape as written breaks.

Layout:

| file | contents |
|---|---|
| `wrappers.dfy` | `Option` |
| `text.dfy` | strip and trim |
| `quote_escape.dfy` | the escape, the lexer and the corrected escape |
| `models.dfy` | the rows, `to_dict`, the schema constraints and each user's owned records |
| `routes.dfy` | the vault and its handlers |
| `client.dfy` | the page |
| `scenarios.dfy` | the worked runs |

The store's invariant `Routes.Vault.Valid` says four things:
- the schema's constraints hold: keys are ids, `unique_id` is unique, and every owner exists;
- every id lies below the next one to be handed out;
- every `unique_id` is non-empty;
- every stored content is non-empty and already stripped.

The handlers guarantee the last two themselves, because a save rejects
anything else. Every state-changing method keeps the invariant. Ownership is
stated through `Models.Owned(users, records, u)`: the set of `to_dict`
renderings of the records whose owner has `unique_id` `u`.

## Model

| member | source | states |
|---|---|---|
| Text.Strip | routes.py:18 | The stripped text neither starts nor ends with whitespace, is no longer than the input, and is empty exactly when the input is all whitespace. With the JavaScript table it is `trim()` at static/js/script.js:143. |
| Text.StripDecomposes | routes.py:18 | The input is its leading whitespace, then the stripped text, then its trailing whitespace, in that order. |
| Text.StripUnique | routes.py:18 | Any split of the input into whitespace, a middle that neither starts nor ends with whitespace, and whitespace has the stripped text as its middle. |
| Text.StripIdempotent | routes.py:18 | Stripping twice gives the same as stripping once. |
| Text.StripTrimmed | routes.py:18 | Text with no surrounding whitespace is left unchanged. This is why stored contents survive another strip. |
| QuoteEscape.EscapeQuotes | static/js/script.js:124 | The escape as written: the output's length is the input's plus its number of `'`, and every `'` in the output has a backslash right before it. |
| QuoteEscape.UnescapeEscapeQuotes | static/js/script.js:124 | Deleting the inserted backslashes gives back the input, for every input. |
| QuoteEscape.EscapeQuotesInjective | static/js/script.js:124 | Two different contents never escape to the same text. |
| QuoteEscape.EscapeQuotesCorruptsBackslash | static/js/script.js:124 | The escape as written leaves the content `\n` (backslash, n) unchanged, and the button's literal then reads back as a line break. |
| QuoteEscape.EscapeQuotesBreaksTrailingBackslash | static/js/script.js:124 | With the escape as written, the content `\` (a single backslash) leaves the button's literal unterminated, which is a syntax error: the backslash escapes the closing quote. |
| QuoteEscape.EscapeQuotesClosesEarly | static/js/script.js:124 | With the escape as written, the content `\'` (backslash, quote) closes the literal after one backslash and leaves `')` after it, so the handler text is not a single call. |
| QuoteEscape.EscapeForLiteral | static/js/script.js:124 | The corrected escape. It escapes backslash, `'`, CR and LF, so its output is longer by the number of those characters. |
| QuoteEscape.LexEscapeChar | static/js/script.js:124 | The lexer reads each escaped character back as that same character. |
| QuoteEscape.LexEscapeForLiteral | static/js/script.js:124 | Any content, escaped by the corrected escape and followed by a closing quote, lexes back to exactly that content, whatever text follows. |
| QuoteEscape.ViewArgumentRoundTrip | static/js/script.js:124 | With the corrected escape, `viewItem('…')` receives exactly the row's content. |
| QuoteEscape.PlainViewArgumentRoundTrip | static/js/script.js:124 | With the escape as written, content with no backslash, CR or LF reaches `viewItem('…')` exactly. |
| QuoteEscape.EscapeQuotesAgreesWithoutBackslash | static/js/script.js:124 | On content without backslashes or line breaks, the escape as written equals the corrected one. |
| Models.ToDictHidesOnlyOwner | models.py:22-27 | Two records render alike exactly when they agree on id, content and created_at. The owner is never exposed. |
| Models.OwnedByUnknownIsEmpty | routes.py:40-42 | A `unique_id` that no user has owns no records. |
| Models.OwnedDisjoint | models.py:20 | Because every record has one owner and `unique_id` is unique (models.py:9), two different users never share a record. |
| Models.OwnedAfterInsert | routes.py:26-28 | Inserting a record with a fresh id adds it to its owner's records and to nobody else's. It was not among them before. |
| Models.OwnedAfterRemove | routes.py:57-58 | Removing a record takes its rendering out of every user's set and removes nothing else. |
| Models.OwnedAfterNewUser | routes.py:10-12 | Adding a user changes nobody's records. |
| Models.OwnedBelowStep | routes.py:44 | Scanning one more id adds at most that id's record, which was not collected before. |
| Models.OwnedBelowAll | routes.py:44 | A scan past every id collects exactly the user's records. |
| Models.OwnedAreStored | routes.py:44-45 | Every record a user owns is the rendering of a stored record with that id, and that user owns it. |
| Routes.NewestFirstPosition | routes.py:44 | The insertion point lies after every strictly newer item and before the first item that is no newer. |
| Routes.InsertAtPositionSorted | routes.py:44 | Inserting at that point keeps the list ordered by descending `created_at`. |
| Routes.InsertNewestFirst | routes.py:44 | The sorted insert keeps the list newest-first and adds exactly one copy of the new item. |
| Routes.ScanStep | routes.py:44 | Each step of the history scan keeps the list equal, as a bag, to the user's records seen so far. |
| Routes.Vault.constructor | models.py:6-20 | A new store has empty tables and hands out id 1 first. |
| Routes.Vault.FindUser | routes.py:8 | Returns a user with that `unique_id`, or none exactly when no user has it. |
| Routes.Vault.GetOrCreateUser | routes.py:6-13 | An existing user is returned and nothing is inserted. Otherwise exactly one user, with the next id, is inserted and returned. If its commit raises, nothing is inserted. |
| Routes.GetOrCreateTwice | routes.py:6-13 | Two calls with the same id return the same user, and at most one user is added in all. |
| Routes.Vault.Save | routes.py:15-32 | 400 with "Missing content or user identification" exactly when the stripped content or the user id is missing, and then neither table changes. 201 when no commit raises: exactly one record is added, with a fresh id, the stripped content and the time, owned by that user, and its `to_dict` is returned. The user's records gain it, and no one else's change. 500 with the exception's text when a commit raises: the records are unchanged, but a user committed before the failure stays. The record counter advances exactly on a 201, and the user counter exactly when a user was added. |
| Routes.Vault.AddRecord | routes.py:26-28 | The new record gets the next id, joins its owner's records and nobody else's, and leaves every other record as it was. |
| Routes.Vault.History | routes.py:34-45 | Always 200. The list holds exactly the caller's records, each once and rendered by `to_dict`, in non-increasing `created_at` order, newest first as the query sorts (routes.py:44). It is empty for a missing or unknown user id. The method changes nothing, so it never creates a user. |
| Routes.Vault.CollectOwned | routes.py:44 | The scan over record ids returns the user's records newest-first, as a bag equal to those records. |
| Routes.Vault.Delete | routes.py:47-62 | 401 "Unauthorized" exactly when the user id is missing or unknown. 404 exactly when the record is missing or another user's. Then 500 "Failed to delete" when the commit raises. Otherwise 200 "Deleted", with exactly that record removed and every other record and every user untouched. Nothing changes on any non-200. Neither id counter moves. |
| Routes.Vault.DeleteUser | models.py:13 | Deleting a user deletes exactly that user's records by the delete-orphan cascade. Every other record stays, no record is left without an owner, and neither id counter moves. |
| Routes.SaveThenHistory | routes.py:15-45 | After a 201 save, the next history lists the new record exactly once. After any other save, it lists exactly the caller's previous records. |
| Routes.DeleteThenHistory | routes.py:34-62 | After a 200 delete, the next history no longer lists the deleted record. |
| Client.RenderHistory | static/js/script.js:99-134 | The count is the number of items, and the empty-vault notice shows exactly when there are none. Otherwise there is one row per item, in order, showing the item's content. Its delete button names the item's id, and its view button carries the content escaped as line 124 does. That button hands the content back intact whenever it has no backslash, CR or LF. |
| Client.Page.Load | static/js/script.js:21-28 | A stored non-empty identity is used unchanged and storage is not written. Otherwise `"usr_"` plus the random token is stored and used. Afterwards storage holds the identity. |
| Client.ReloadKeepsIdentity | static/js/script.js:21-28 | Loading the page again with the storage a page left behind gives the same identity and writes nothing. |
| Client.Page.OnLoad | static/js/script.js:164-168 | On page load, one history load for the identity is issued. |
| Client.Page.Generate | static/js/script.js:142-147 | Blank input (after `trim`) only shows "Enter content first": nothing is rendered or sent. Otherwise the trimmed text is displayed and sent with the identity, and the notice is untouched. |
| Client.Page.OnSaveResponse | static/js/script.js:52-70 | ok: "Successfully added to vault" and one history reload. Not ok: the body's `error` if it is non-empty, else "Save failed", and no reload. Exception: "Server connection error" and no reload. |
| Client.Page.ClickDelete | static/js/script.js:127 | The delete button of row k sends the id of the k-th item of the last history list the server returned, with the identity. |
| Client.Page.OnDeleteResponse | static/js/script.js:72-82 | ok: "Removed from history" and one reload. Not ok: nothing changes, neither the notice nor the loads. Exception: "Delete failed" and no reload. |
| Client.Page.OnHistoryResponse | static/js/script.js:42-50 | A loaded list becomes the shown items and is rendered. A failed load leaves the items and the panel as they were. |
| Client.Page.ViewItem | static/js/script.js:136-139 | The text box and the QR image both take the given content. |
| Client.Page.ClickView | static/js/script.js:124 | Clicking row k's view button runs `viewItem` only when the handler text is that one call, that is when the escaped literal ends right before the final `)`. It then passes the literal's value. In every other case nothing changes. So content with no backslash, CR or LF reaches the text box and the image unchanged. |
| Scenarios.SaveListDeleteList | routes.py:15-62 | On a new store, saving stripped content for a user lists exactly that record with id 1. Deleting it empties the list, and the page then shows the empty vault with count 0. |
| Scenarios.SaveToEmptyVault | routes.py:15-45 | On an empty store, save then list gives the one new record, which is that user's only record. |
| Scenarios.SaveFirst | routes.py:15-29 | The first save into an empty store creates record 1 and makes it the user's only record. |
| Scenarios.DeleteOnlyRecord | routes.py:47-59 | Deleting a user's only record, then listing, gives the empty list. |
| Scenarios.BlankInputSendsNothing | static/js/script.js:142-144 | Typing only spaces and pressing generate sends nothing and shows "Enter content first". |
| Scenarios.RejectedSaveShowsReason | static/js/script.js:63-65 | A save rejected with an `error` shows that text and does not reload the history. |
| Scenarios.EarlyCloseViewDoesNothing | static/js/script.js:124 | For a listed item whose content is `\'`, clicking view leaves the text box and the image as they were. |
| Scenarios.BackslashViewDoesNothing | static/js/script.js:124 | For a listed item whose content is a single backslash, clicking view leaves the text box and the image as they were. |

## Left out

- Routes.Vault.Save: new ids come from counters that start at 1 and only grow. SQLite may reuse the largest rowid after a delete; that reuse is not modelled.
- Routes.Vault.History: records with equal `created_at` may come in any order. The model only promises non-increasing timestamps, as the SQL does.
- Client.Page.Load: the random and time parts of a new identity (`Math.random`, `Date.now`, base 36, `substr`) are one parameter `token`. Only the `"usr_"` prefix is stated.
- Timestamps are abstract integers supplied by the caller. `datetime.utcnow`, `isoformat` and `toLocaleDateString` are not modelled.
- QR image generation (the external `QRCode` library), the DOM and HTML templates, CSS classes and toast timing are not modelled. So are the download link and the clipboard copy button, which are browser I/O.
- `fetch`, JSON encoding and parsing, Flask routing and request objects are not modelled. Request fields are `Option<string>`, so a JSON field of another type is not modelled.
- A non-integer or negative `record_id` in the delete path is rejected by Flask's routing before the handler runs. That is not modelled: `Routes.Vault.Delete` takes any integer.
- SQLAlchemy session mechanics are not modelled beyond their effect on the two tables. A failing commit is an input.
- The order in which overlapping `loadHistory` calls complete is not modelled. It is concurrency, and the code has no guard against a stale response.
- The `String(64)` limit on `unique_id` is not modelled, because the code never enforces it.
- The view button's text also passes through HTML attribute parsing, with no HTML escaping. A `"` or `&` in the content is not modelled. URL encoding of the identity in query strings is not modelled either.
- QuoteEscape.LexQuoted: the lexer does not decode the escapes `\0`, `\8`, `\9`, `\x`, `\u`, legacy octal or line continuations, and returns `Unsupported` for them. The corrected escape never produces them.
- Client.Page.ClickView: when the content puts one of those escapes into the literal (content `\x41` or `\8`, say), the model leaves the page unchanged. The browser would decode the escape and call `viewItem` with the decoded text.
- Client.Page.ClickView: when the content closes the literal early (an odd number of backslashes before a `'`) and the rest of the handler text parses as more JavaScript, the browser calls `viewItem` and runs that code. Content `\');alert(1);//` is an example. The model changes nothing in that case.

## Findings

| source | as written | input that shows it | evidently intended | confidence | as-written member | corrected member |
|---|---|---|---|---|---|---|
| static/js/script.js:124 | `replace(/'/g, "\\'")` escapes only `'` before the content goes into `onclick="viewItem('…')"`; backslashes and line breaks pass through | content `\n` (backslash, n) reaches `viewItem` as a line break; content `\` makes the literal unterminated (a syntax error, so the button does nothing); content `\'` closes the literal early | the JavaScript string literal hands every content to `viewItem` unchanged: escape backslash, `'`, CR and LF (the `onclick` attribute also needs HTML escaping, for `"` and `&`) | not executed | QuoteEscape.EscapeQuotesCorruptsBackslash | QuoteEscape.ViewArgumentRoundTrip |

The as-written escape is `QuoteEscape.EscapeQuotes`. `QuoteEscape.EscapeQuotesBreaksTrailingBackslash` shows the second input and `QuoteEscape.EscapeQuotesClosesEarly` the third. The page model keeps the escape as written: `Client.RenderRow` uses `EscapeQuotes`, and `Scenarios.BackslashViewDoesNothing` and `Scenarios.EarlyCloseViewDoesNothing` show the second and third inputs on the page itself. The corrected escape repairs only the JavaScript string. HTML escaping of the attribute is a separate fix that this model does not cover. The corrected escape is `QuoteEscape.EscapeForLiteral`. `QuoteEscape.EscapeQuotesAgreesWithoutBackslash` shows that the two escapes agree on every content without backslashes or line breaks.
