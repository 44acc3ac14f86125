# better-than-basic: login gateway decision core in Dafny

This project models the pure decision parts of a small login gateway. The gateway
checks a username and password against a credential store. On success it issues an
opaque session token, and a reverse proxy can later ask whether a token is still
valid. Six Dafny modules model its components, and three helper modules support them:

- `Errors` (`errors.dfy`): the four login errors, their stable string identifiers
  (`username_missing`, `username_not_found`, `password_missing`,
  `password_incorrect`), the decoder that silently drops unknown identifiers, the
  `error=<id>&…` redirect query builder, and the error → form field mapping.
- `Users` (`users.rs`, `users.dfy`): the table → users mapping of `from_file`, and
  the three-way `login` classification. It is decided by the first user with exactly
  that name, and bcrypt's `verify` is an uninterpreted function parameter.
- `Lru` and `Sessions` (`sessions.rs`): the session registry, a capacity-100
  least-recently-used cache of 50-character tokens drawn from a random
  alphanumeric character stream. `Lru` gives the observable behaviour of the
  `LruCache` crate. `Sessions` holds the registry operations.
- `LoginHandler` (`main.rs`): the older, self-contained `process_login` handler. It
  compares plaintext passwords and redirects to one of five fixed locations.
- `I18n`: the English string table and `get_catalog`, the map of
  field → error message.
- `Wrappers` holds `Option`/`Result`. `Lists` holds the first-match search behind
  Rust's `iter().find`. `Strings` holds `join`/`split` on a one-character separator
  and their inverse lemmas.

Everything is an immutable value. The registry is a `Sessions` record, and its
operations are methods that return the new record next to their result.

**Recency policy.** Checking a session counts as an access. `check_session` takes
`&mut self` and calls the cache's `contains_key`, and in the `lru_cache` crate that
lookup refreshes the entry. So a token that is found becomes the most recently used
one. Inserting a token that is already held refreshes it and evicts nothing.
Inserting a new token into a full cache evicts the least recently used token.

**Oracles.** The operating-system random generator is modelled as
`Rng(chars, drawn)`. `chars` is an infinite stream of ASCII alphanumeric characters
and `drawn` counts how many characters have been used. Whether the generator can
be opened is an input of `Sessions.New`. bcrypt's `verify(password, hash)` is a
parameter of type `(string, string) -> Result<bool, BcryptError>`.

**The model follows the code where it departs from the gateway's intended design:**
- A malformed stored hash is not a load-time error. `verify` returning `Err` at login
  time gives `WrongPassword` (src/users.rs:55-58).
- `process_login` compares plaintext passwords. With no string username it reports
  only `no_username`, never a pair of "missing" errors. Its redirect strings are its
  own: `/?correct` and `/?wrong_password` carry no `error=` key (src/main.rs:61-89).
- The capacity is the constant 100 (src/sessions.rs:24), not a construction
  parameter of the registry. The `Lru` model takes any positive capacity.

## Model

| member | source | states |
|---|---|---|
| `Errors.Display` | src/errors.rs:11-22 | every error's identifier is non-empty and contains neither `&` nor `=` |
| `Errors.DisplayInjective` | src/errors.rs:15-20 | the four identifiers are pairwise distinct: equal identifiers mean equal errors |
| `Errors.FromString` | src/errors.rs:33-41 | a decoded error's identifier is the input string; `None` exactly when the string is no error's identifier |
| `Errors.FromStringDisplay` | src/errors.rs:35-38 | decoding the identifier of any error gives back that error |
| `Errors.FromStrings` | src/errors.rs:25-27 | the output is never longer than the input, and every decoded error's identifier occurs in the input |
| `Errors.FromStringsAppend` | src/errors.rs:25-27 | decoding distributes over concatenation, so kept errors stay in input order |
| `Errors.FromStringsUnknown` | src/errors.rs:26 | a list made only of unknown identifiers decodes to the empty list |
| `Errors.FromStringsIdentifiers` | src/errors.rs:25-27 | round trip: decoding the identifiers of any error list gives that list back |
| `Errors.FromStringsIgnoresUnknown` | src/errors.rs:25-27 | unknown identifiers placed before, between or after the identifiers of two error lists are ignored: decoding gives the two lists back, joined in order |
| `Errors.QuerySegments` | src/errors.rs:30 | one `error=<id>` segment per error, in order |
| `Errors.ToQuery` | src/errors.rs:29-31 | the query string is empty exactly when there are no errors |
| `Errors.ToQuerySeparators` | src/errors.rs:29-31 | for n ≥ 1 errors the query has exactly n − 1 `&`, and splitting it on `&` gives back the n `error=<id>` segments |
| `Errors.ParseQueryToQuery` | src/errors.rs:29-31 | splitting the query on `&`, keeping the `error=` values and decoding them recovers the errors in order |
| `Errors.GetField` | src/errors.rs:43-50 | `UsernameMissing`/`UsernameNotFound` report on `"username"`, `PasswordMissing`/`PasswordIncorrect` on `"password"`, both directions |
| `Lists.FindFirst` | src/users.rs:53 | `None` exactly when no element satisfies the predicate, otherwise the position of the first one that does |
| `Users.FromTable` | src/users.rs:39-49 | succeeds exactly when every table value is a string; then one user per entry in order with username = key and password = value; otherwise the error names the first non-string entry |
| `Users.FromTableUniqueNames` | src/users.rs:39-48 | a table with distinct keys yields users with distinct usernames |
| `Users.Login` | src/users.rs:52-60 | `UserNotFound` iff no user has exactly that name; otherwise the first such user decides: `Correct` iff `verify` yields `Ok(true)` for its hash, `WrongPassword` for `Ok(false)` or any `Err` |
| `Users.LoginFirstEntryDecides` | src/users.rs:53 | with duplicate usernames only the first entry's hash decides the result, whatever follows it |
| `Users.LoginUniqueNames` | src/users.rs:53-58 | with unique usernames a stored user is accepted iff its own hash verifies the password |
| `Lru.New` | src/sessions.rs:24 | a new cache is empty, valid and has the given capacity |
| `Lru.Without` | src/sessions.rs:30-35 | the key is removed and nothing else; for distinct keys the result is the input with that one position cut out, so the other keys keep their relative order |
| `Lru.Insert` | src/sessions.rs:30 | the key becomes the most recent one; the held keys gain exactly it and lose only the least recently used key, only when the key was new and the cache full; the resulting order is exact: a held key moves from its place to the end, a new key is appended, and into a full cache the front key is dropped first; the bound and distinctness are kept |
| `Lru.ContainsKey` | src/sessions.rs:35 | reports whether the key is held; the set of keys is unchanged; a held key moves from its place to the most recent end with the other keys in their old order; a missing key changes nothing |
| `Lru.InsertAll` | src/sessions.rs:30 | any sequence of insertions keeps the cache valid with the same capacity |
| `Lru.InsertThenContains` | src/sessions.rs:30-35 | a lookup right after inserting a key finds it |
| `Lru.ContainsAbsent` | src/sessions.rs:35 | looking up a key that is not held reports false and leaves the cache as it was |
| `Lru.FillKeepsOrder` | src/sessions.rs:24-30 | inserting at most capacity distinct keys into an empty cache evicts nothing and keeps insertion order |
| `Lru.OverflowEvictsFirst` | src/sessions.rs:24-30 | inserting capacity + 1 distinct keys into an empty cache, with no lookups in between, evicts exactly the first key and keeps all the others |
| `Lru.InsertAllBounded` | src/sessions.rs:24-30 | the number of held keys never exceeds the capacity |
| `Sessions.New` | src/sessions.rs:21-26 | fails exactly when the random generator cannot be opened, with its error; otherwise an empty valid registry of capacity 100 |
| `Sessions.CreateSession` | src/sessions.rs:28-32 | the token is the next 50 alphanumeric characters of the stream, and the stream advances by 50; the token is then held; only it is added; at most the least recently used token is evicted, and only when the registry was full |
| `Sessions.CheckSession` | src/sessions.rs:34-36 | true exactly when the token is held; the held set is unchanged; a found token becomes the most recent; a miss changes nothing |
| `LoginHandler.StringParam` | src/main.rs:51-59 | a parameter is used only when present and a string, and then its text is used |
| `LoginHandler.ProcessLogin` | src/main.rs:44-90 | always `Ok` with status 302; `/?error=no_username` iff no string username; `/?error=no_password` iff a username but no string password; `/?error=wrong_username` iff both and no stored name equals it; `/?correct` iff the first such entry's plaintext password equals the input; `/?wrong_password` iff it differs |
| `LoginHandler.ProcessLoginRange` | src/main.rs:61-89 | every input redirects to one of the five fixed locations |
| `LoginHandler.NoUsernameIgnoresPassword` | src/main.rs:62-65 | without a string username the password parameter does not affect the response |
| `I18n.New` | src/i18n.rs:11-41 | the `"en"` locale is required; every error kind has a message; the string table has exactly the eight fixed keys, with `locale` = `"en"` |
| `I18n.EnErrorsComplete` | src/i18n.rs:26-30 | the English error table has a message for each of the four errors |
| `I18n.ErrorMessagesKeys` | src/i18n.rs:47-49 | a field has a message exactly when some given error reports on that field |
| `I18n.ErrorMessagesLastWins` | src/i18n.rs:47-51 | each field's message is the message of the last given error on that field |
| `I18n.GetCatalog` | src/i18n.rs:43-53 | the catalogue has exactly the keys `"i18n"` and `"errors"`; `"i18n"` is the string table unchanged; `"errors"` has a field exactly when some given error reports on it, with the last such error's message |
| `I18n.ErrorMessagesFields` | src/i18n.rs:47-51 | the error keys are a subset of `"username"` and `"password"`, and the error map is empty exactly when no errors are given |
| `I18n.EnglishCatalog` | src/i18n.rs:17-30 | for the English tables the message lookup succeeds for every error list, and `"i18n"` is the fixed eight-entry table |
| `I18n.LaterErrorWins` | src/i18n.rs:47-51 | for two errors on the same field, only the later one's message remains |

## Left out

- `src/listener.rs` is not part of this model. Socket binding, unlinking and permissions are operating-system I/O.
- `src/config.rs` is not part of this model. It reads a file and parses TOML, and the octal `socket_mode` parse is a single standard-library call.
- `src/page_data.rs` is not part of this model. It is a plain serialisable record with no behaviour.
- File reading and TOML parsing in `Users::from_file` (src/users.rs:35-38) are left out. Their `unwrap` panics are left out too. `Users.FromTable` starts from the table's entries in iteration order.
- `Users.FromTable`: its `Failure(NotAString(key))` stands for the panic of the `as_str().unwrap()` at src/users.rs:45. The source has no error value there, so the failure is not recoverable.
- `Users.FromTableUniqueNames` assumes distinct keys. The TOML table is a `BTreeMap`, so its keys are always distinct and sorted, and the precondition always holds for a parsed file. The model does not impose the sorted order on the entries.
- bcrypt internals (src/users.rs:12) are left out. `verify` is an uninterpreted parameter.
- `OsRng` entropy is left out (src/sessions.rs:23, src/sessions.rs:29). So is the probabilistic uniqueness of tokens, which cannot be proved. The generator is an input stream. If a drawn token is already held, inserting it only refreshes it.
- The linked structure inside the `lru_cache` crate is left out. Only its observable bounded-LRU behaviour is modelled. A cache of capacity 0 is not modelled, since the registry always uses 100.
- The "101 sessions evict only the first" scenario is stated for the LRU insert that `CreateSession` performs (`Lru.OverflowEvictsFirst`, for any capacity), not as a chain of `CreateSession` calls. The lemma cannot call methods.
- `Users::login` and `process_login` only read their stored lists. Every model value is immutable, so this holds by construction and has no separate lemma.
- Iron, router, Handlebars, `login_page`, the typemap `Key` impls and `main` (src/main.rs:92-115) are left out. So are the request-extension `unwrap`s of `process_login` (src/main.rs:45-46). The extracted parameters are inputs of type `Option<ParamValue>`.
- `I18n.New`: a locale other than `"en"` panics in the source. The model makes `"en"` a precondition.
- The Ruby integration specs under `testing/` are left out. They drive a browser against a deployment not shown here.
- Locking and concurrency are left out. The model is single-threaded.
