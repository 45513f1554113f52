# url-shortener: a Dafny model of the short-link registry

This project models the logic of the browser URL shortener in `App.js`.
The `App` component holds two lists:

- the form rows (`urls`): what the user typed, plus per-field error messages;
- the registry of shortened URLs (`shortenedUrls`): one record per short link, with its click history.

The handlers that change these lists are modelled as the methods of a Dafny class `AppState.App`:

- `validateUrl`;
- `updateUrl`;
- `shortenUrls`;
- `handleRedirect`;
- the once-a-minute clean-up.

Each method is proved against pure functions on the lists (modules `Entries`, `Batch` and `Records`).
Lemmas about those functions state what the handlers promise: which rows are accepted, what each new record holds, which clicks are recorded, and which records the clean-up keeps.
The two regular expressions are modelled as values of a small regular-expression datatype with whole-string match semantics, and their meaning is proved character by character:

- `isValidShortCode`, `^[a-zA-Z0-9]{3,10}$`;
- `validateURL` of `utils/validator.js`, `^(https?:\/\/)[^\s/$.?#].[^\s]*$` with the `i` flag.

`getTimeRemaining` is modelled too.

The modules:

- `JsText`: JavaScript white space, `String.prototype.trim`, and decimal number formatting.
- `Regex`: character classes, the regular-expression datatype, its match semantics, and the lemmas that characterise concatenation, option, star and bounded repetition of a single class.
- `Validator`: the `validateURL` pattern.
- `ShortCode`: the `isValidShortCode` pattern.
- `Indices`: the increasing positions where a list of flags is true. It is the index view shared by every `filter`/`push` loop.
- `Records`: the records, lookup by code, click recording and expiry pruning.
- `Entries`: the form rows, `validateUrl` as a function, and the one-field edit.
- `Batch`: `shortenUrls` as functions of the rows and records it starts from.
- `AppState`: the `App` class and its methods.
- `TimeRemaining`: `getTimeRemaining`.

Conventions:

- Times are integer milliseconds.
- Randomness and clock reads are parameters.
- `HandleRedirect` and `PruneExpired` take `now`, and `HandleRedirect` also takes the click event.
- `ShortenUrls` takes a sequence of `Draw`s. Each draw holds the `id`, the code `generateShortCode` would return, and the creation instant. The k-th accepted row uses the k-th draw.
- `isValidUrl` wraps the platform URL parser. It is the parameter `urlOk`; no property is assumed of it.
- The five error messages are the constructors of `Entries.Message`; `Entries.Text` gives each one's text as the source writes it.

Where the code departs from the intended behaviour, the model follows the code:

- Two rows of one batch asking for the same custom code are **both** rejected, not just the second (`SameCustomCodeNeitherAccepted`, `CollidingRowsBothRejected`).
- The duplicate test runs even when the format test failed, and its message replaces the format message (`InUseOverridesFormat`).
- A generated code is never checked against the registry or the batch, and there is no retry (`GeneratedCodeCanCollide`).
- A click is accepted at the very instant of expiry (`now > expiry` rejects). The clean-up at that same instant removes the record (`expiry > now` keeps). See `ExpiryInstant`.

## Model

| member | source | states |
|---|---|---|
| ShortCode.IsValidShortCode | url-shortener-app/src/App.js:26-28 | the test of `^[a-zA-Z0-9]{3,10}$` as a whole-string match; `IsValidShortCodeMeaning` and `ShortCodeExamples` state what it accepts |
| ShortCode.IsValidShortCodeMeaning | url-shortener-app/src/App.js:26-28 | a short code is valid iff it has 3 to 10 characters, each an ASCII letter or digit |
| ShortCode.ShortCodeExamples | url-shortener-app/src/App.js:26-28 | "promo1" and "abc" are valid; "ab", "abc!23" and an 11-letter code are not |
| Validator.ValidateURL | url-shortener-app/src/utils/validator.js:1-3 | `validateURL` as a whole-string match of its pattern; `ValidateURLMeaning`, `ValidateURLNeedsScheme` and the examples state what it accepts |
| Validator.ValidateURLMeaning | url-shortener-app/src/utils/validator.js:2 | a URL is accepted iff it starts with "http" in any letter case, then an optional "s"/"S" and "://"; the next character is not white space, '/', '$', '.', '?' or '#'; the one after is not a line terminator; and the rest holds no white space |
| Validator.AfterSchemeMatches | url-shortener-app/src/utils/validator.js:2 | the part after the scheme letters matches iff it is "://", a permitted first host character, any non-line-terminator, then non-white-space only |
| Validator.HostStartHas | url-shortener-app/src/utils/validator.js:2 | the class `[^\s/$.?#]` holds exactly the characters that are neither white space nor one of / $ . ? # |
| Validator.ValidateURLNeedsScheme | url-shortener-app/src/utils/validator.js:2 | every accepted URL has at least 9 characters, starts with h-t-t-p in any case, and continues with "://" or "s://" (either case of s) |
| Validator.ExampleAccepted | url-shortener-app/src/utils/validator.js:1-3 | "https://example.com" is accepted |
| Validator.ExampleUpperCaseScheme | url-shortener-app/src/utils/validator.js:2 | "HTTP://x.y" is accepted: the scheme ignores case |
| Validator.ExampleNoScheme | url-shortener-app/src/utils/validator.js:1-3 | "not a url" and "ftp://example.com" are rejected |
| Validator.ExampleTooShort | url-shortener-app/src/utils/validator.js:2 | "http://a" is rejected: two characters must follow "//" |
| Validator.ExampleAstralHost | url-shortener-app/src/utils/validator.js:2 | "http://" followed by one character outside the Basic Multilingual Plane is rejected here: one character follows "//" |
| Validator.ExampleDotFirst | url-shortener-app/src/utils/validator.js:2 | "http://.com" is rejected: the first host character may not be '.' |
| Validator.ExampleInnerSpace | url-shortener-app/src/utils/validator.js:2 | "https://exa mple.com" is rejected: no white space after the second host character |
| JsText.Trim | url-shortener-app/src/App.js:203 | `trim()` is the white space stripped from the start, then from the end; `TrimStart`, `TrimEnd` and `TrimEmptyIffBlank` state what it removes |
| JsText.TrimStart | url-shortener-app/src/App.js:203 | the result is a suffix of the input, all of the removed prefix is white space, and the result does not start with white space |
| JsText.TrimEnd | url-shortener-app/src/App.js:203 | the result is a prefix of the input, all of the removed suffix is white space, and the result does not end with white space |
| JsText.TrimEmptyIffBlank | url-shortener-app/src/App.js:203 | `trim()` gives the empty string iff every character is JavaScript white space or a line terminator |
| JsText.NumberToString | url-shortener-app/src/App.js:365-367 | a number's text is a non-empty run of decimal digits with no leading zero |
| JsText.NumberToStringRoundTrip | url-shortener-app/src/App.js:365-367 | reading a number's decimal text back gives the number |
| JsText.NumberToStringInjective | url-shortener-app/src/App.js:365-367 | different numbers have different texts |
| Records.FindByCode | url-shortener-app/src/App.js:320 | `find` gives no record iff none has the code; otherwise it gives the first position holding the code |
| Records.RedirectResult | url-shortener-app/src/App.js:319-332 | the decision of `handleRedirect`: not found, expired or the target URL; `RedirectResultMeaning` states each case both ways |
| Records.RedirectResultMeaning | url-shortener-app/src/App.js:319-332 | the redirect is not found iff no record has the code; it succeeds iff the first record with the code has `now <= expiry`, and then the target is that record's URL |
| Records.RecordClick | url-shortener-app/src/App.js:336-344 | the `map` that records one click; `RecordClickEffect` and `RecordClickTotal` state its effect |
| Records.RecordClickEffect | url-shortener-app/src/App.js:336-344 | a click changes only `clicks` and `clickData`; every record with the code gets clicks + 1 and the click appended last; every other record is unchanged; `clicks == clickData.length` is preserved |
| Records.RecordClickTotal | url-shortener-app/src/App.js:336-344 | a click raises the registry's total click count by the number of records carrying the code |
| Records.Prune | url-shortener-app/src/App.js:181 | the filter keeps no more records than it is given, and every kept record expires after `now` |
| Records.PruneKeepsLive | url-shortener-app/src/App.js:181 | the filter's k-th record is the input record at the k-th position whose expiry is after `now`: exactly the live records, in order, unchanged |
| Records.PruneRemovesExpired | url-shortener-app/src/App.js:181 | a record is among the kept positions iff its expiry is after `now` |
| Records.PruneIdempotent | url-shortener-app/src/App.js:179-186 | a second clean-up at the same instant removes nothing |
| Records.PruneKeepsClicksConsistent | url-shortener-app/src/App.js:181 | the clean-up keeps every click counter equal to its list's length |
| Records.ExpiryInstant | url-shortener-app/src/App.js:328 | at `now == expiry` a redirect to the record succeeds, yet the clean-up at that instant drops the record |
| Entries.Text | url-shortener-app/src/App.js:203-226 | every message `validateUrl` can set has a non-empty text, so a set message is always truthy |
| Entries.ExpectedErrors | url-shortener-app/src/App.js:200-230 | the error map `validateUrl` returns, one message per failing field; `NoErrorsIffPasses`, `ErrorsFieldByField`, `InUseOverridesFormat`, `CollidingRowsBothRejected` and `ValidityBoundaries` state which messages appear |
| Entries.FieldByFieldErrors | url-shortener-app/src/App.js:200-230 | an error map that holds, on each of the three fields, exactly the message that field's checks call for is the error map of `validateUrl` for those check outcomes |
| Entries.NoErrorsIffPasses | url-shortener-app/src/App.js:200-230 | no error at all iff the URL is non-blank and accepted by `isValidUrl`, the validity is 1 to 10080, and any custom code is well-formed and not in use |
| Entries.ErrorsFieldByField | url-shortener-app/src/App.js:203-227 | each field's message depends on its own check only: blank gives "URL is required", else a rejected URL gives "Please enter a valid URL"; the range error iff validity < 1 or > 10080; a code error iff a non-empty code is in use or malformed, and a malformed code nobody holds gets "Short code must be 3-10 alphanumeric characters" |
| Entries.InUseOverridesFormat | url-shortener-app/src/App.js:213-227 | a taken code is reported as "already in use", even when it is also malformed |
| Entries.CollidingRowsBothRejected | url-shortener-app/src/App.js:218-226 | two rows asking for the same code both get the duplicate message |
| Entries.ValidityBoundaries | url-shortener-app/src/App.js:209-211 | validities 0 and 10081 are refused; 1 and 10080 are accepted |
| Entries.ApplyEdit | url-shortener-app/src/App.js:233-245 | `updateUrl`'s change to one row; `ApplyEditEffect` states it |
| Entries.ApplyEditEffect | url-shortener-app/src/App.js:232-246 | an edit sets the one field it names and removes that field's message; other fields and messages are unchanged |
| Batch.Accepted | url-shortener-app/src/App.js:250-263 | the positions `shortenUrls` pushes onto `validUrls`, in order; `AcceptedMeaning` states which they are |
| Batch.ClearRows | url-shortener-app/src/App.js:297-305 | the rows with the collected ones reset to blank rows; `RowsAfterShorten` states the form after a batch |
| Batch.AcceptedMeaning | url-shortener-app/src/App.js:254-263 | a row is collected iff it is non-blank and passes every check |
| Batch.RowsAfterShorten | url-shortener-app/src/App.js:254-306 | after a batch: accepted rows are reset to blank rows with their position as id; blank rows are left exactly as they were; every other row keeps its input and shows at least one error |
| Batch.MakeRecord | url-shortener-app/src/App.js:273-291 | the record built for one collected row from one draw; `NewRecordsValid` states its fields |
| Batch.NewRecords | url-shortener-app/src/App.js:273-292 | one record per collected row, in order; `NewRecordsValid`, `CustomCodesDistinct` and `NewRecordsClicksConsistent` state its properties |
| Batch.NewRecordsValid | url-shortener-app/src/App.js:273-288 | each new record has the row's URL (accepted by `isValidUrl`), validity and draw; expiry is creation + validity * 60000, so one minute to one week ahead; shortUrl is "http://localhost:3000/" + code; no clicks; the code is the row's own code (well-formed, held by no saved record) or else the generated one |
| Batch.CustomCodesDistinct | url-shortener-app/src/App.js:218-226 | two records of one batch that both use their rows' own codes have different codes |
| Batch.SameCustomCodeNeitherAccepted | url-shortener-app/src/App.js:254-263 | two rows asking for the same code are both left out of the batch |
| Batch.NewRecordsClicksConsistent | url-shortener-app/src/App.js:286-294 | appending the batch keeps every click counter equal to its list's length |
| Batch.GeneratedCodeCanCollide | url-shortener-app/src/App.js:274 | a passing row without its own code is accepted alone, and when the generator draws a saved record's code, the new record carries that same code |
| AppState.App.constructor | url-shortener-app/src/App.js:150-166 | the registry is the saved list and the form is one blank row |
| AppState.App.ValidateUrl | url-shortener-app/src/App.js:200-230 | the successive assignments give exactly the error map of `Entries.ExpectedErrors` |
| AppState.App.UpdateUrl | url-shortener-app/src/App.js:232-246 | only the edited row changes, as `ApplyEdit` says; the registry is unchanged |
| AppState.App.ValidateAll | url-shortener-app/src/App.js:254-263 | the loop leaves every non-blank row with its new errors and blank rows as they were, and collects exactly the accepted positions in order |
| AppState.App.RevalidateRow | url-shortener-app/src/App.js:254-262 | a blank row is left as it was and not collected; a non-blank row gets the errors of `validateUrl` and is collected iff they are empty |
| AppState.App.BuildRecords | url-shortener-app/src/App.js:273-292 | the loop builds one record per collected row, in order, as `NewRecords` says |
| AppState.ClearAccepted | url-shortener-app/src/App.js:297-305 | the loop resets exactly the collected rows to blank rows |
| AppState.App.ShortenUrls | url-shortener-app/src/App.js:248-309 | nothing accepted: only the rows' errors change and the registry stays as it was; otherwise the registry is the old one followed by one record per accepted row, the count is reported, and the accepted rows are cleared; click counters stay consistent |
| AppState.App.HandleRedirect | url-shortener-app/src/App.js:319-344 | the outcome is the function `RedirectResult`; only a successful redirect records the click on the registry; the form is unchanged; click counters stay consistent |
| AppState.App.PruneExpired | url-shortener-app/src/App.js:179-186 | the registry becomes the filtered list, every remaining record expires after `now`, the number removed is reported, and the form is unchanged |
| TimeRemaining.TimeRemaining | url-shortener-app/src/App.js:354-368 | the label `getTimeRemaining` shows; `ExpiredIffDue`, `DaysLabel`, `HoursLabel` and `MinutesLabel` state which label each time left gets |
| TimeRemaining.ExpiredIffDue | url-shortener-app/src/App.js:357-359 | the label is "Expired" iff expiry <= now; every other label starts with a digit |
| TimeRemaining.DaysLabel | url-shortener-app/src/App.js:361-365 | with a day or more left, the label is "<d>d <h>h" with d >= 1, h < 24, and d days plus h hours at most the time left, less than an hour short of it |
| TimeRemaining.HoursLabel | url-shortener-app/src/App.js:361-366 | with one hour to a day left, the label is "<h>h <m>m" with 1 <= h < 24, m < 60, and h hours plus m minutes rounding the time left down to the minute |
| TimeRemaining.MinutesLabel | url-shortener-app/src/App.js:361-367 | with under an hour left, the label is "<m>m", the whole minutes left ("0m" in the last minute) |
| TimeRemaining.HoursBounds | url-shortener-app/src/App.js:361-363 | the floored minutes and hours of a positive difference bound it from below and above; a day or more are left iff hours >= 24 |
| TimeRemaining.Examples | url-shortener-app/src/App.js:354-368 | a zero difference gives "Expired"; thirty minutes give "30m" |

## Left out

- React rendering is not modelled. This covers the components, alerts, the modal, the tabs and the `slice(-5).reverse()` display order. It is presentation.
- Persistence is not modelled: `localStorage` load and save, and JSON (de)serialisation. The constructor takes the loaded list as it is. The source's load has no error handling and no shape check; the model assumes the stored value is a list of records.
- `Logger`, `showAlert`, `window.open`, `navigator.clipboard` and the `setTimeout`/`setInterval` scheduling are side effects and timers, and are not modelled. Their place is taken by the outcome values `ShortenOutcome` and `RedirectOutcome` and the `removed` count.
- `isValidUrl` wraps the platform URL parser (`new URL`). That foreign call is the parameter `urlOk`.
- `generateShortCode` (`Math.random().toString(36)`), `getMockClickData`, `Date.now() + Math.random()` ids and `new Date()` readings come from randomness and the clock. They are parameters: each record of a batch gets its own clock reading (`Draw.creationDate`). The model does not capture that the successive readings of one batch are in time order, nor how the `Date.now()` in `id` relates to `creationDate`.
- Dates are integer milliseconds, not `Date` objects or ISO strings, and `formatDate`/`toLocaleString` are not modelled. An unparsable stored date (NaN) is outside the model.
- The `parseInt(value) || 30` coercion of the validity input happens in the form component before `updateUrl`. `validityMinutes` is a plain integer here.
- JavaScript numbers are doubles. `id` is a real number in the source and an integer here, and precision loss on huge millisecond values is not modelled.
- Strings are sequences of Unicode scalar values. Without the `u` flag, JavaScript regular expressions read UTF-16 code units, so a character outside the Basic Multilingual Plane is two characters to `validateURL` and `isValidShortCode` and one here. For example `"http://😀"` passes `validateURL` in the source (the two surrogates fill `[^\s/$.?#]` and `.`) but not in the model (`Validator.ExampleAstralHost`). `trim` reads code points and all its white space is in that plane, so `JsText.Trim` agrees with it.
- The `validUrls` entries of `shortenUrls` are copies of the rows with an `index` property. The model keeps only the index and reads the row.
- `shortenUrls` copies `urls` shallowly, so assigning `updatedUrls[index].errors` also changes the objects held in the `urls` state. The model builds a new sequence. The validation reads only the rows' codes, so no result depends on the difference.
- `setUrls`/`setShortenedUrls` with an updater function apply to the latest state. The model runs every handler to completion on the current state, which matches the single-threaded event loop.
- UpdateUrl: requires a row index in range. The source calls it only from an existing row, and with any other index it would throw when it reads the missing row's `errors`.
