# A verified model of the request-dispatch and session helpers

This project models the logic of the PHP function library `src/functions.php` in Dafny:

- **Request routing.**
  - `url_matches_route` compares a request URI with a route pattern. It ignores the query string and slashes at either end.
  - `match_request_to_route` picks the first declared pattern that matches, among those registered for the request method.
  - `route` calls the matched handler with the request context.
  - `response` turns "no route" into a 404 page and a status-header request.
- **String helpers.** `strip_protocol`, `explode_string_by` and `join_file_folder_and_name`.
- **Ciphertext framing.**
  - `encrypt` produces base64 of the 24-byte nonce followed by the secretbox output.
  - `decrypt` splits the decoded bytes at byte 24 and opens the rest.
  - `generate_random` hex-encodes random bytes.
  - `csrf_create` encrypts 16 random bytes, hex-encoded.
- **The CSRF cookie lookups** `csrf_exists` and `csrf_get`, over an explicit cookie map.
- **The encryption-key slot.**
  - `bind_encryption_key` writes `ENCRYPTION_KEY` into the environment.
  - `has_encryption_key` reads it back with PHP's `empty()` semantics.
  - `session_begin` refuses to start without a key.
- **Configuration loading.** `fetch_config_files` stores each file under its basename with `.php` removed; a later file overwrites an earlier one.

The PHP builtins these functions rest on are defined from their documented behaviour in module `PhpString`:

- `trim`/`rtrim`/`ltrim` with a one-character mask.
- `explode`/`implode`.
- `strtr` with an array: a left-to-right scan that replaces the longest key and never rescans replaced text.
- `basename`.

Modules:

| file | module | contents |
|---|---|---|
| `wrappers.dfy` | `Wrappers` | `Option` (PHP `null`/`false`) and `Result` (a thrown exception) |
| `php_string.dfy` | `PhpString` | the string builtins and their lemmas |
| `helpers.dfy` | `Helpers` | `strip_protocol`, `explode_string_by`, `join_file_folder_and_name` |
| `router.dfy` | `Router` | matching, dispatch, `route`, `response` |
| `cipher.dfy` | `CipherCodec` | `encrypt`/`decrypt` framing, `bin2hex`, `generate_random` |
| `csrf.dfy` | `CsrfToken` | `csrf_exists`, `csrf_get`, `csrf_create` |
| `key_slot.dfy` | `KeyManager` | class `Environment`: `bind_encryption_key`, `has_encryption_key`, `session_begin` |
| `config.dfy` | `ConfigAggregator` | key derivation and the loop of `fetch_config_files` |

## Model

How the model follows the code's own form:

- **Loops become methods.** The `foreach` of `match_request_to_route` and the loop filling `$return` in `fetch_config_files` are methods with `while` loops. Each is proved equal to a specification function (`Resolve`, `ConfigOf`), and the lemmas are about those functions.
- **The environment is mutable state.** `putenv`/`getenv` act on a class whose field `vars` is the environment map.
- **Everything else is a function.**
- **Foreign primitives.** libsodium's secretbox and base64 come in as a `Primitives` record of functions. The predicate `Sound` says what the framing needs of them:
  - sealing adds a 16-byte tag;
  - opening inverts sealing for a 24-byte nonce and a 32-byte key;
  - decoding inverts encoding.
- **Randomness.** The nonce and the random bytes are parameters.

| member | source | states |
|---|---|---|
| Router.BeforeQueryShape | src/functions.php:116 | `explode('?', $uri)[0]` is a `?`-free prefix of the URI, followed in the URI by `?` when it is shorter |
| Router.BeforeQueryOf | src/functions.php:116 | a `?`-free path followed by a query string, or by nothing, cuts back to exactly that path |
| Router.UrlMatchesRoute | src/functions.php:114-120 | comparing `"/" . $uri` with `"/" . $route_pattern` is the same as comparing the two slash-trimmed strings |
| Router.QueryIgnored | src/functions.php:116-119 | a URI with a query string matches a pattern exactly when the bare path does |
| Router.SlashPaddingIgnored | src/functions.php:116-119 | any number of leading or trailing slashes, on the URI or on the pattern, does not affect matching |
| Router.DifferentPathsDoNotMatch | src/functions.php:116-119 | paths that differ once trimmed never match, whatever the query string |
| Router.RootWithQueryMatches | tests/FunctionsTest.php:59-62 | `'/?foo=bar'` matches `'/'` |
| Router.TrailingSlashMatches | tests/FunctionsTest.php:64-67 | `'/post/url/'` matches `'/post/url'` |
| Router.PathWithQueryMatches | tests/FunctionsTest.php:69-72 | `'/foo/bar?foo=bar'` matches `'/foo/bar'` |
| Router.OtherPathDoesNotMatch | tests/FunctionsTest.php:74-77 | `'/foo/bar?foo=bar'` does not match `'/no/way'` |
| Router.FirstMatchFrom | src/functions.php:135-139 | the index found is a matching pattern, no earlier pattern from the start point matches, and none is found exactly when no pattern from the start point matches |
| Router.Resolve | src/functions.php:129-141 | three outcomes: no handler when the method has no routes; no handler exactly when no pattern of the method matches; otherwise the handler of a matching pattern with no matching pattern declared before it |
| Router.MatchRequestToRoute | src/functions.php:126-143 | the early-return scan over the method's patterns returns exactly the handler `Resolve` specifies |
| Router.Dispatch | src/functions.php:155-159 | nothing exactly when no handler resolves, otherwise the resolved handler applied to the context |
| Router.Route | src/functions.php:150-160 | a missing `REQUEST_METHOD` or `REQUEST_URI` is an error (PHP's TypeError); otherwise the result is the dispatch of that method and URI with the whole context |
| Router.Response | src/functions.php:166-175 | a body passes through unchanged with no header; no body gives `'404 Not Found'` and a replacing `"<SERVER_PROTOCOL> 404 Not Found"` header with code 404 |
| Router.RespondToRequest | src/functions.php:150-175 | a 404 header is requested exactly when no route resolves, and the body is the handler's output whenever one does |
| Router.ResolveSingleRoute | src/functions.php:129-141 | with one pattern for the method, the request resolves to its handler exactly when the pattern matches |
| Router.RoutingExamples | tests/FunctionsTest.php:92-129 | GET `/foo?bar` against a table with only `/foo` returns the handler's `'bar'`; GET `/bar?foo` resolves to nothing and the response is the not-found page with a `HTTP/1.3 404 Not Found` status |
| Router.MatchesFooWithQuery | tests/FunctionsTest.php:79-90 | `'/foo?bar'` matches `'/foo'` |
| Router.BarDoesNotMatchFoo | tests/FunctionsTest.php:110-129 | `'/bar?foo'` does not match `'/foo'` |
| Helpers.StripProtocol | src/functions.php:23-29 | the result is never longer than the input |
| Helpers.StripLeadingProtocol | src/functions.php:25-28 | `http://` or `https://` in front of a host with no other marker is removed and the host comes back unchanged |
| Helpers.MarkerChosen | src/functions.php:25-28 | at an `http://` or `https://` marker, `strtr` picks that marker and no other key |
| Helpers.StripProtocolStep | src/functions.php:25-28 | text where no marker starts is kept, the marker after it is deleted, and the scan continues after the marker; so markers are removed wherever they stand, one step per marker |
| Helpers.StripProtocolFree | src/functions.php:25-28 | text where no marker starts comes back unchanged |
| Helpers.NoProtocolBeforeH | src/functions.php:25-28 | no marker starts at a character that is not `h` |
| Helpers.NoProtocolAt | src/functions.php:25-28 | no marker starts at a position whose text does not begin `h?t` |
| Helpers.StripProtocolExamples | tests/FunctionsTest.php:34-42 | `strip_protocol` of `http://example.com` and of `https://example.com` is `example.com` |
| Helpers.StripProtocolTwoMarkers | src/functions.php:25-28 | `https://example.com/?u=http://x` becomes `example.com/?u=x`: a marker inside the string is removed as well as the leading one |
| Helpers.StripProtocolNotRescanned | src/functions.php:25-28 | `hthttp://tp://` becomes `http://`: text brought together by a deletion is not scanned again |
| Helpers.ExplodeStringBy | src/functions.php:35-41 | the closure fails for every input exactly when the delimiter is empty, and otherwise imploding its pieces with the delimiter gives back the input |
| Helpers.ExplodeExamples | tests/FunctionsTest.php:44-52 | `'foo/bar'` by `/` and `'foo,bar'` by `,` both give `['foo', 'bar']` |
| Helpers.JoinFileFolderAndName | src/functions.php:231-234 | a folder without a trailing slash and a name without slashes at its ends are joined by exactly one `/` |
| Helpers.JoinShape | src/functions.php:233 | the result is the folder without its trailing slashes, one `/`, and the name without leading or trailing slashes; only slashes were dropped |
| Helpers.JoinIgnoresExtraSlashes | src/functions.php:233 | extra slashes at the end of the folder or around the name do not change the joined path |
| Helpers.JoinExamples | tests/FunctionsTest.php:136-144 | `('/tmp/', '/foo.php')` and `('/tmp', 'foo.php')` both give `'/tmp/foo.php'` |
| PhpString.TrimLeftResult | src/functions.php:116-117 | `ltrim` keeps a suffix that does not start with the mask character and removes only that character |
| PhpString.TrimRightResult | src/functions.php:233 | `rtrim` keeps a prefix that does not end with the mask character and removes only that character |
| PhpString.TrimResult | src/functions.php:116-117 | `trim` leaves no mask character at either end, and the input is the result padded with mask characters on both sides |
| PhpString.TrimOfPadded | src/functions.php:116-117 | the converse: padding a string that has no mask character at its ends, then trimming, gives the string back |
| PhpString.TrimIdempotent | src/functions.php:116-117 | trimming twice is trimming once |
| PhpString.FindFromEarliest | src/functions.php:39 | the search returns the earliest occurrence of the delimiter, and returns none only when there is no occurrence |
| PhpString.SplitHead | src/functions.php:116 | the first piece of `explode` is the text before the first delimiter (all of the string if there is none) and contains no delimiter |
| PhpString.SplitPiecesAvoidDelimiter | src/functions.php:39 | no piece of `explode` contains the delimiter |
| PhpString.Explode | src/functions.php:39 | `explode` fails (ValueError) exactly for an empty delimiter and otherwise gives at least one piece |
| PhpString.ImplodeSplit | src/functions.php:39 | `implode($d, explode($d, $s))` is `$s` |
| PhpString.SplitImplode | src/functions.php:39 | for a one-character delimiter, `explode` gives back pieces that were imploded, if none contains the delimiter |
| PhpString.LongestRuleAtIsLongest | src/functions.php:25-28 | the `strtr` rule chosen at a position is a longest key that starts there, and none is chosen only when no key starts there |
| PhpString.StrtrNeverGrows | src/functions.php:25-28 | when no replacement is longer than its key, `strtr` never lengthens the string |
| PhpString.StrtrCopies | src/functions.php:25-28 | text where no key starts is copied through unchanged |
| PhpString.StrtrReplaces | src/functions.php:25-28 | the longest key at the front is replaced, and the rest is processed after it without rescanning the replacement |
| PhpString.AfterLastSlashResult | src/functions.php:186 | the last path component is a slash-free suffix that starts right after a slash or at the start |
| PhpString.BasenameOf | src/functions.php:186 | the basename of `dir/name` is `name` for any directory |
| ConfigAggregator.ConfigKey | src/functions.php:186 | a configuration key never contains a slash and is no longer than the file's base name |
| ConfigAggregator.ConfigKeyOfPhpFile | src/functions.php:186 | for a name without dots or slashes, `dir/name.php` is stored under `name` |
| ConfigAggregator.ConfigOfKeys | src/functions.php:183-189 | the keys of the result are exactly the keys of the files listed |
| ConfigAggregator.ConfigOfLastWins | src/functions.php:188 | a key holds the value of the last file listed under it |
| ConfigAggregator.FetchConfigFiles | src/functions.php:181-192 | the loop builds exactly the map `ConfigOf` describes |
| ConfigAggregator.FetchConfigExample | tests/FunctionsTest.php:220-225 | `database.php` and `sqlite.php` in one folder give a configuration with exactly the keys `database` and `sqlite`, each holding its file's value |
| CipherCodec.Encrypt | src/functions.php:331-337 | fails (sodium's key-size exception) exactly when the key is not 32 bytes |
| CipherCodec.SplitFraming | src/functions.php:356-357 | the nonce part and the ciphertext part together are the decoded bytes, and the nonce part is a full 24 bytes exactly when the decoded input is |
| CipherCodec.Decrypt | src/functions.php:353-360 | a nonce-size error exactly when fewer than 24 bytes decode; otherwise a key-size error exactly when the key is not 32 bytes; otherwise the opened plaintext, or the empty string when opening fails |
| CipherCodec.EncryptFraming | src/functions.php:333-336 | the decoded ciphertext is 24 + 16 + message-length bytes: the nonce, then the sealed message |
| CipherCodec.DecryptEncrypt | src/functions.php:331-360 | `decrypt(encrypt($m, $k), $k)` is `$m` for a 32-byte key, whatever the nonce |
| CipherCodec.DecryptFailureLooksEmpty | src/functions.php:359 | a ciphertext that fails to authenticate decrypts to `""`, the same value as an encryption of the empty message |
| CipherCodec.Bin2Hex | src/functions.php:255 | `bin2hex` gives two lower-case hex digits per byte |
| CipherCodec.Hex2BinBin2Hex | src/functions.php:255 | decoding the hex digits gives back the bytes: the encoding loses nothing |
| CipherCodec.GenerateRandom | src/functions.php:253-256 | fails for a length below 1; otherwise `2 * $length` lower-case hex digits that decode to the random bytes |
| CsrfToken.CsrfGet | src/functions.php:294-297 | the `xsrf-token` cookie when present, `null` exactly when absent |
| CsrfToken.CsrfExists | src/functions.php:286-289 | `csrf_exists` holds exactly when `csrf_get` is not `null` |
| CsrfToken.CsrfGetAfterSet | src/functions.php:286-297 | once the cookie is set, it exists and reads back; other cookies do not affect it |
| CsrfToken.NoCookiesNoToken | tests/FunctionsTest.php:199-207 | with no cookies, no token exists and `csrf_get` is `null` |
| CsrfToken.CsrfCreate | src/functions.php:303-306 | fails exactly when the key is not 32 bytes |
| CsrfToken.CsrfCreateDecrypts | src/functions.php:303-306 | a created token decrypts under its key to 32 lower-case hex digits that decode to the 16 random bytes |
| KeyManager.Environment.constructor | src/functions.php:283 | the environment starts as given |
| KeyManager.Environment.Getenv | src/functions.php:323 | the value when the variable is set, `false` exactly when it is not |
| KeyManager.Environment.HasEncryptionKey | src/functions.php:321-324 | holds exactly when `ENCRYPTION_KEY` is set to something other than `""` and `"0"` |
| KeyManager.Environment.BindEncryptionKey | src/functions.php:281-284 | sets `ENCRYPTION_KEY` and nothing else; afterwards a key is present exactly when the bound key is not empty in PHP's sense |
| KeyManager.Environment.SessionBegin | src/functions.php:264-275 | throws exactly when there is no encryption key, otherwise returns what `session_start` returned |
| KeyManager.KeySlotExample | tests/FunctionsTest.php:158-172 | a session cannot begin before a key is bound, begins once `key` is bound, and binding `"0"` leaves no key |

## Left out

- The superglobal accessors `expose_*` and `expose_all`. They read ambient request state. The request context and the cookie map are inputs instead, and the context's `view` closure is not part of `RequestContext`.
- `view` and `get_encryption_key`: both read files.
- `pdo`, `sqlite`, `mysql`: database drivers.
- `csrf_send`: it sets a cookie and reads the clock.
- `session_start` itself: its outcome is the parameter `started`, and `$lifetime` is not used.
- The `header()` call in `response`. It is returned as a `StatusHeader` value, not performed.
- `glob` and `require` in `fetch_config_files`. The loop runs over the (path, value) pairs they would produce, in listing order.
- Randomness. The nonce from `random_bytes` and the bytes from `openssl_random_pseudo_bytes` are parameters. Nonce uniqueness is not claimed.
- Cryptographic security: tamper detection, confidentiality, and rejection under a wrong key. These rest on libsodium and are not stated. `Sound` covers only inversion and the tag length.
- `Router.Route`: a handler that is not callable makes the closure of `match_request_to_route` throw a TypeError, because of its `?callable` return type (src/functions.php:128). Here every handler is callable through `call`, so that error is not modelled.
- `Router.Route`: the second argument passed to `match_request_to_route` at src/functions.php:152 is ignored by PHP, so it has no counterpart.
- `Router.Route`: a handler's output is modelled as a string; other return types are not.
- `Router.MatchRequestToRoute`: PHP array keys are unique, and numeric-string keys become integers. The model takes any sequence of (pattern, handler) pairs and does not model the integer-key conversion.
- `Helpers.StripProtocol`: its own contract states only that the result is no longer than the input. What is removed is stated step by step by `StripProtocolStep` (one marker after marker-free text) and `StripProtocolFree` (marker-free text is kept); a string with several markers is handled by applying the step once per marker, as `StripProtocolTwoMarkers` does.
- `PhpString.SplitImplode`: stated for one-character delimiters only, which covers the delimiters the code and its tests use (`?`, `/`, `,`).
- `KeyManager.Environment.BindEncryptionKey`: `putenv` cannot store a value past a NUL byte; that truncation is not modelled.
- `CipherCodec.Decrypt`: an authenticated decrypt would report a tag that does not verify as a failure. This code returns `sodium_crypto_secretbox_open`'s `false` through a `string` return type without `strict_types`, so the caller receives `""`. The model follows the code. `DecryptFailureLooksEmpty` shows the consequence: a failure cannot be told apart from decrypting an encryption of `""`.
- `CipherCodec.Decrypt`: base64 decoding is the non-strict form the code calls; it never fails, and what it does with invalid characters is part of the abstract `decode64`.
- The functions that the test file imports but that are not defined in `src/functions.php` (`not_found_route`, `uri`, `mod_rewrite`, `env`, `save_env`, and others) are not part of this model.
- The key-file CLI `key.php`, the bootstrap and route-table files, and the configuration data files are not part of this model.
