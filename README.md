# goblog token authentication, modelled in Dafny

This project models the token-authentication path of the goblog API server
(a Go program built on gin): the gate that the three mutating handlers
`postBlog`, `updateBlog` and `deleteBlog` run before they touch the
database, and the file-based credential validator in package `pbkdf2auth`
that the gate calls.

- `gotypes.dfy` (module `GoTypes`): Go's `byte` and `string`, and `Exec<T>`.
  `Exec<T>` is either a value or the run-time panic "index out of range".
  The source panics in two places: `authType[1]` on a descriptor without `|`,
  and `s[2]`/`s[3]` on a record with too few fields. The model returns
  `IndexOutOfRange` there instead of excluding those inputs by a precondition.
- `gostrings.dfy` (module `GoStrings`): `strings.Split` and
  `strings.Replace(s, old, new, -1)` for a non-empty separator. They use the
  leftmost non-overlapping occurrences, as Go's implementation does. `Join`
  is the inverse of `Split` that the lemmas use to state what a split returns
  and how a record is written; the program itself never calls `strings.Join`.
- `gobytes.dfy` (module `GoBytes`): `bytes.Compare`.
- `base64.dfy` (module `Base64`): `base64.RawStdEncoding.DecodeString`.
  This is the standard alphabet of section 4 of RFC 4648, without the padding
  of section 3.2. It skips CR and LF, decodes quanta of four symbols, keeps
  the bytes decoded before an error, and rejects a final single symbol and
  `=`. Its partner is `EncodeToString`, with a proved round trip.
- `pbkdf2_auth.dfy` (module `Pbkdf2Auth`): `readTokensFile` and
  `ValidateViaFile` as methods with loops. `ReadTokensFile` is proved to
  return the file's lines in order together with its scan-error flag.
  `ValidateViaFile` is proved equal to the specification function `Verdict`,
  and the lemmas state what `Verdict` means.
- `blog_app.dfy` (module `App`): `parseAuthMechStr`, the `%CONFIG_DIR%`
  substitution, and the gate as a pure function `Gate`. It reads the
  `BlogApp` fields and never writes them.

The model follows the code as written. These behaviours of the code are
proved, and each one matters for who can call the API:

- Only the first record of the token store is examined, because the loop
  body either returns false or breaks. Records after the first never change the
  verdict: a secret is accepted exactly when the first record accepts it.
- A readable, empty store authorises every secret. When the descriptor is
  `file|...`, emptying the token file therefore opens the API to every
  request without a token.
- A request that carries a non-empty `X-Auth-Token` is refused. One whose
  header is absent or empty goes on to validation, which therefore always checks the empty secret. With kind
  `"file"`, only an empty store, or one whose first record holds the key
  derived from the empty secret, lets a request through.
- A mechanism kind other than `"file"` skips validation, so the gate fails
  open: every request without a token proceeds.
- A descriptor without `|` makes the handler panic on every request without
  a token, instead of reporting a configuration error.
- A salt decoding error is discarded. For a salt whose length is not a
  multiple of 3, written with `StdEncoding`, the key is derived from the salt
  without its last one or two bytes (lemma `PaddedSaltIsTruncated`).
- The comparison is `bytes.Compare`, which is not constant-time. The model
  states its result, not its timing.
- `Config`'s fields are unexported, so the `json.Unmarshal` in `main`
  (main.go:196) never sets `apiAuthMech`. Lemma `GateWithEmptyDescriptor`
  states what the gate does with that empty descriptor: requests without a
  token panic, and requests with one are refused.

PBKDF2 with HMAC-SHA3-512 (`pbkdf2.Key(secret, salt, 10000, 20, sha3.New512)`)
is not modelled. It is the parameter `key` of type `Pbkdf2`, which promises
only that the result has the requested length. The iteration count 10000 and
key length 20 are the constants `ITERATIONS` and `KEY_LENGTH`.

The file system is a map from path to `TokenFile`. A `TokenFile` holds the
lines the scanner delivered and whether the scan ended in an error. A path
missing from the map is a file that cannot be opened. The request is its
header map.

## Model

| member | source | states |
|---|---|---|
| `GoStrings.Split` | main.go:37 | a split always has at least one piece |
| `GoStrings.JoinSplit` | main.go:37 | joining the pieces of a split with the separator gives the input back |
| `GoStrings.SplitJoin` | pbkdf2_auth/validate.go:40 | splitting a colon-join of colon-free fields gives exactly those fields back |
| `GoStrings.SplitFieldsFree` | pbkdf2_auth/validate.go:40 | no piece of a split contains the separator |
| `GoStrings.SplitFree` | main.go:37 | a string without the separator splits into itself alone |
| `GoStrings.SplitAtLeftmost` | main.go:37 | the first piece ends at the leftmost occurrence of the separator, and the rest is the split of what follows it |
| `GoStrings.SplitSingle` | main.go:37-38 | a one-byte separator gives two or more pieces exactly when it occurs, and no piece contains it |
| `GoStrings.FreeSingle` | main.go:37 | a one-byte separator occurs nowhere exactly when the byte is absent |
| `GoStrings.ReplaceAll` | main.go:51 | a string without the pattern is returned unchanged; the full meaning is `ReplaceAllIsJoinSplit` |
| `GoStrings.ReplaceAllIsJoinSplit` | main.go:51 | replacing with count -1 equals cutting at every leftmost non-overlapping occurrence and joining with the replacement |
| `GoBytes.Compare` | pbkdf2_auth/validate.go:50 | the comparison yields -1, 0 or +1 |
| `GoBytes.CompareZeroIffEqual` | pbkdf2_auth/validate.go:50-51 | the comparison is 0 exactly when the derived key and the hash field hold the same bytes |
| `GoBytes.CompareAntisymmetric` | pbkdf2_auth/validate.go:50 | swapping the operands flips the sign of the comparison |
| `Base64.DecodeSymbols` | pbkdf2_auth/validate.go:43 | a successful decode yields 3/4 as many bytes as symbols, and a failed one never more |
| `Base64.EncodeToString` | pbkdf2_auth/validate.go:43 | the encoding the salt decoder reads: (8n+5)/6 symbols, all from the alphabet |
| `Base64.DecodeEncode` | pbkdf2_auth/validate.go:43 | decoding an encoded salt gives back its bytes with a nil error |
| `Base64.DecodeSymbolsOkIff` | pbkdf2_auth/validate.go:43 | decoding the symbols succeeds exactly when every one is in the alphabet and no single symbol is left at the end |
| `Base64.DecodeString` | pbkdf2_auth/validate.go:43 | after line breaks are skipped, a successful decode yields 3/4 as many bytes as symbols; its partner is `EncodeToString` (`DecodeEncode`), and when it succeeds is `DecodeStringOkIff` |
| `Base64.DecodeStringOkIff` | pbkdf2_auth/validate.go:43 | decoding a salt field succeeds exactly when every byte other than CR and LF is in the alphabet and the symbols do not leave a single one at the end |
| `Base64.DecodePadded` | pbkdf2_auth/validate.go:43 | a padded encoding fails to decode, and only the bytes before its last quantum come back |
| `Pbkdf2Auth.ReadTokensFile` | pbkdf2_auth/validate.go:14-30 | the records are the file's lines in file order, one per line; failure to open gives no records and an error; a scan error is reported with the lines read before it |
| `Pbkdf2Auth.RecordVerdict` | pbkdf2_auth/validate.go:40-51 | a record without ':' panics, and an accepted record has at least four fields with a 20-byte hash field; what decides it is `FirstRecordDecides` and `OnlySaltAndHashCount` |
| `Pbkdf2Auth.Verdict` | pbkdf2_auth/validate.go:32-57 | only a readable store can accept; its cases are `UnreadableStoreDenies`, `EmptyStoreAuthorises` and `OnlyFirstRecordCounts` |
| `Pbkdf2Auth.ValidateViaFile` | pbkdf2_auth/validate.go:32-57 | the loop's result equals `Verdict`: false for an unreadable store, true for an empty one, else the first record's verdict or a panic |
| `Pbkdf2Auth.UnreadableStoreDenies` | pbkdf2_auth/validate.go:34-37 | a store that cannot be opened, or whose scan fails, denies, even when lines were read |
| `Pbkdf2Auth.EmptyStoreAuthorises` | pbkdf2_auth/validate.go:39-56 | a readable store without records authorises any secret |
| `Pbkdf2Auth.OnlyFirstRecordCounts` | pbkdf2_auth/validate.go:39-56 | records after the first never change the verdict |
| `Pbkdf2Auth.FirstRecordDecides` | pbkdf2_auth/validate.go:40-53 | for a non-empty store: a panic iff the first record has fewer than 4 fields; true iff the key derived from field 2 equals the bytes of field 3 |
| `Pbkdf2Auth.OnlySaltAndHashCount` | pbkdf2_auth/validate.go:40-47 | fields 0, 1 and after 3 are ignored, and the key is derived from the decoded salt bytes whether or not decoding failed |
| `Pbkdf2Auth.KeyWithColonNeverMatches` | pbkdf2_auth/validate.go:40-53 | a derived key containing ':' can never equal a hash field |
| `Pbkdf2Auth.IssuedRecordAccepts` | pbkdf2_auth/validate.go:39-56 | a store whose first record carries an encoded salt and the key derived from a secret and that salt accepts that secret, for a record that the line scanner can deliver as one line (no LF, and shorter than 65535 bytes so that it fits the scanner's 64 KiB buffer) |
| `Pbkdf2Auth.IssuedRecordRejects` | pbkdf2_auth/validate.go:39-56 | the same store, under the same one-line condition, rejects every secret whose derived key differs |
| `Pbkdf2Auth.PaddedSaltIsTruncated` | pbkdf2_auth/validate.go:43-47 | with a padded salt the key is derived from the salt without its last partial group |
| `App.GetHeader` | main.go:43 | an absent header reads as the empty string |
| `App.ParseAuthMechStr` | main.go:36-39 | parsing succeeds exactly when the descriptor contains a pipe; kind and target then contain no pipe |
| `App.ParseRoundTrip` | main.go:37-38 | parsing kind + pipe + target gives back that kind and target |
| `App.ParseDiscardsRest` | main.go:37-38 | anything after a second pipe is discarded |
| `App.ParseReadsFirstTwoPieces` | main.go:37-38 | the descriptor starts with kind + pipe + target, followed by nothing or by a second pipe |
| `App.ResolvePath` | main.go:51 | the resolved path is the target cut at every `%CONFIG_DIR%` and joined with the config directory; no piece still holds the placeholder |
| `App.ResolvePathWithoutPlaceholder` | main.go:109 | a target without the placeholder is used unchanged |
| `App.ResolvePathExample` | main.go:146 | `%CONFIG_DIR%/tokens.db` resolves to the config directory followed by `/tokens.db` |
| `App.Gate` | main.go:43-57 | a request proceeds only if it carries no token; the same gate is repeated at main.go:101-115 and 138-152 |
| `App.GateRefusesPresentedToken` | main.go:43-47 | in all three handlers (also main.go:101-105 and 138-142), a request whose auth header is non-empty is refused before any parsing or validation |
| `App.GateFileKind` | main.go:107-115 | in all three handlers (also main.go:49-57 and 144-152), with kind "file", the request proceeds iff the validator accepts the empty secret at the resolved path, and is refused iff it returns false |
| `App.GateFailsOpen` | main.go:144-152 | in all three handlers (also main.go:49-57 and 107-115), with any other kind, a request without a token proceeds and nothing is validated |
| `App.GateMalformedDescriptorPanics` | main.go:49 | a descriptor without a pipe makes every token-less request panic |
| `App.GateIgnoresTokenValue` | main.go:101-115 | the decision depends on the token only through whether it is empty |
| `App.GateWithEmptyDescriptor` | main.go:193-204 | with the empty descriptor the JSON decoding leaves, token-less requests panic and the others are refused |

## Left out

- HTTP plumbing is not modelled: gin routing, JSON binding, response writing,
  the `options` response, and the recovery middleware that turns a handler
  panic into a 500 response. The model reports the panic as `IndexOutOfRange`.
- The database layer (model/blog.go) and the handlers' work after the gate
  are not modelled. That work is SQL I/O with no logic of its own.
- Configuration loading, working-directory discovery, `strconv.Atoi` and
  `log.Fatal` are not modelled. They are OS and library I/O, and the
  configuration is a parameter.
- The error result of `parseAuthMechStr` is always nil and the handlers
  ignore it, so the model leaves it out.
- PBKDF2 and SHA3-512 internals are foreign crypto. `key` is a parameter
  known only to return the requested length, so a wrong secret is rejected
  only when its derived key differs (`IssuedRecordRejects`).
- The file system calls and the mechanics of `bufio.Scanner` are not modelled.
  Each file is the sequence of lines the scanner would produce, plus a
  scan-error flag.
- Header name canonicalisation and multi-valued headers in `GetHeader` are
  not modelled. The header map is keyed by the exact name.
- `bytes.Compare` takes time that depends on the data. Timing is outside
  the model.
