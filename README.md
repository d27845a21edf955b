# Short-link store of a URL shortener, modelled in Dafny

The server of this URL shortener keeps one collection of link records
(`originalUrl`, `shortUrl`, optional `customWord`) and answers two requests:

- `POST /api/shorten` with `{ url, customWord }` returns a short code for
  `url`. An optional custom word (alias) must consist of ASCII letters, digits,
  `-` and `_`, and it must not already be any record's code. If `url` is already
  stored, the alias overwrites that record's code in place. Without an alias,
  a stored `url` gets its existing code back. A new `url` gets a new record.
- `GET /:shortUrl` redirects to the URL of the record with that code, or
  answers 404.

The model treats the database as an in-memory table, a `seq<Record>`.
`findOne` means "the first record that matches" (`Links.FindOne`).

- `links.dfy` (module `Links`) holds the pure parts: the record and the
  `findOne` query, the custom-word character check, the redirect lookup
  `Resolve`, and the two uniqueness invariants.
- `shortener.dfy` (module `Shortener`) holds the POST handler.
  `ShortenStep` is its specification: the response and the new table for each
  branch. `Store` is a class whose `records` field the method `Shorten`
  changes the way the handler does. It overwrites a found record in place or
  appends a new one. Its contract is `ShortenStep`.
- `properties.dfy` (module `ShortenerProperties`) holds properties of request
  sequences. A returned code resolves to its URL. An alias retires the code
  it replaces. Resubmitting without an alias is answered from the table. A
  concrete create / repeat / alias / resolve session is proved as well.

Details of the handler the model keeps:

- The alias-in-use check (`backend/server.js:38-41`) looks at every record,
  including the one stored for the same URL. So resubmitting a URL with the
  alias it already has is answered "Custom word is already in use"
  (`ShortenerProperties.ResubmitOwnAliasRejected`).
- Any falsy `customWord` takes the no-alias path: absent, or the empty string.
  This is modelled by `Links.IsTruthy`
  (`ShortenerProperties.EmptyCustomWordIsAbsent`).
- The value `shortid.generate()` returns is a parameter (`generated`). The
  code never checks it against existing codes. So uniqueness of short codes
  is proved only under the hypothesis `Shortener.GeneratedCodeFresh`: on the
  one branch that calls `shortid.generate()` (no alias, URL not stored), the
  value is not yet in use. Every other request keeps codes unique
  unconditionally.

## Model

| member | source | states |
|---|---|---|
| `Links.FindOne` | backend/server.js:38-44 | `findOne` answers the position of a matching record with no match before it, and None exactly when no record matches |
| `Links.AllWordChars` | backend/server.js:33 | true exactly when every character is an ASCII letter, digit, `-` or `_` |
| `Links.MatchesCustomWordPattern` | backend/server.js:33 | the anchored `+` pattern holds exactly for non-empty words made only of ASCII letters, digits, `-` and `_` |
| `Links.Resolve` | backend/server.js:87-91 | NotFound exactly when no record has the code; otherwise the URL of the first record with that code |
| `Links.ResolveOwnCode` | backend/server.js:89-90 | with unique codes, every record's code redirects to that record's own URL |
| `Shortener.ShortenStep` | backend/server.js:27-81 | bad characters: InvalidCustomWord, table unchanged. Alias used by any record: CustomWordInUse, table unchanged. Accepted alias with a stored URL: that record alone gets code and customWord = alias, length kept, `isExisting` and `updated` true. Accepted alias for a new URL: one record `{url, alias, alias}` appended, `isExisting` false. No alias with a stored URL: its code, `isExisting` true, table unchanged. No alias for a new URL: one record with the generated code appended, `isExisting` false |
| `Shortener.Store.constructor` | backend/server.js:18-25 | a fresh database's collection starts empty, and both uniqueness invariants hold of it |
| `Shortener.Store.Shorten` | backend/server.js:27-81 | the response and the new `records` are exactly what `ShortenStep` gives for the old records. The uniqueness invariants are preserved whenever a generated code, if one is used, is fresh |
| `Shortener.ShortenPreservesUniqueness` | backend/server.js:38-81 | every request keeps original URLs unique. It keeps short codes unique unless it appends a record with a generated code already in use |
| `ShortenerProperties.OkRecordPosition` | backend/server.js:44-81 | after a 200 answer, the record found for `url` in the new table carries the answered code |
| `ShortenerProperties.ShortenThenResolve` | backend/server.js:27-91 | with unique codes, and a fresh code where one is generated, the code of any 200 answer resolves to the submitted URL |
| `ShortenerProperties.UpdateRetiresOldCode` | backend/server.js:44-53 | after an alias replaces a stored URL's code, the old code resolves to nothing and the alias resolves to the URL |
| `ShortenerProperties.ResubmitWithoutAliasIsExisting` | backend/server.js:66-72 | after any 200 answer for `url`, a request for `url` with no or an empty alias returns the same code with `isExisting` true and leaves the table unchanged |
| `ShortenerProperties.ResubmitOwnAliasRejected` | backend/server.js:38-41 | resubmitting a stored URL with its own current alias is refused as in use, table unchanged |
| `ShortenerProperties.EmptyCustomWordIsAbsent` | backend/server.js:31 | an empty custom word is answered, and changes the table, exactly as a request without one |
| `ShortenerProperties.RefusalText` | backend/server.js:31-41 | a 400 answer carries "can only contain letters, numbers, hyphens and underscores" exactly when a non-empty custom word has a character outside the class, and "already in use" exactly when the word passes the check and some record already has it as its code |
| `ShortenerProperties.ExampleSession` | backend/server.js:27-91 | create `abc123`, repeat (existing, same code), alias `mysite` (updated); then `mysite` resolves to the URL and `abc123` no longer resolves |

## Left out

- Express, mongoose, dotenv and cors wiring, the connection and `app.listen`
  (backend/server.js:1-16, 94-95): framework plumbing and I/O.
- The 30-day expiry of `createdAt` (backend/server.js:22): the database
  deletes records on wall-clock time, not the handlers. `createdAt` is not a
  field of the model.
- The randomness of `shortid.generate()` (backend/server.js:75): it is a
  foreign library. Its value is the caller-supplied `generated`.
- The full `protocol://host/code` string (backend/server.js:50, 60, 69, 79):
  request plumbing. Responses carry only the code. An `updated` field that the
  JSON leaves out is modelled as `false`.
- The HTTP status and redirect mechanics are left out. An error kind stands
  for each 400 answer, and `Shortener.ErrorMessage` gives its message text.
  Resolve's None stands for the 404.
- The 500 "Server error" path (backend/server.js:82-84): it only reports
  storage failures, and storage never fails in the model.
- Races between concurrent check-then-write requests: the model is
  sequential, one request at a time.
- Non-string JSON values for `url` or `customWord` (numbers, objects, a
  missing `url`): both are modelled as strings, with `customWord` optional.
- Strings are sequences of Dafny characters (Unicode scalar values), while
  JavaScript strings are UTF-16 code units. This does not change the
  character check: every character it admits is ASCII.
- Document order: `findOne` without a sort is modelled as the first matching
  record in insertion order, which MongoDB does not guarantee. It only
  matters once two records share a code or a URL, which the uniqueness
  invariants exclude; a colliding generated code can break them.
- The React frontend (frontend/src/pages/Home.jsx,
  frontend/src/components/AdBanner.jsx): presentation, HTTP calls and toasts.
