# zorka shortcut store and authorization, in Dafny

zorka is a redirect-shortcut service. This project models its core:

- **The shortcut store** (`src/database.rs`). A map from slug to `ShortcutEntry` sits behind a reader/writer lock. It has four operations: `read`, `read_all`, `upsert` and `delete`. The model is the class `ShortcutDatabase.Database`. Its `data` field is the map. Its `poisoned` flag stands for a lock that refuses its guards, so every lock-failure branch of the source is kept.
- **Seeding** (`src/database.rs`). `seeded()` keeps the lines of `seed.csv` that match one anchored pattern and inserts each under its slug; `setup()` wraps the result in a store. No character class in the pattern admits a comma. So the pattern is stated as a split on commas (`SeedRows.Split`) followed by one predicate per field: slug, URL, status, since and until. The URL check (`SeedRows.IsUrl`) looks for a way to read the text as scheme, optional `www.`, host, dot, top-level domain and tail. It also checks the `\b` word boundary after the domain. When the tail is empty, the character after the domain is the comma that follows the URL in the line.
- **Authorization, file-configured revision** (`src/configuration.rs`). `get_config` turns `none` into no authentication. It turns `basic {username, password}` into the header `Basic ` + base64url(`username:password`), using padded base64 with the URL-safe alphabet of section 5 of RFC 4648. `is_authorized` compares a request's header with that text exactly.
- **Authorization, environment-configured revision** (`src/authentication.rs`). The `AUTH` variable, when set, is the exact header to expect.
- **The two revisions side by side** (`AuthRevisions`). They decide alike except on a header that is not visible ASCII. The file revision reads such a header as `""`. The environment revision refuses it.

Supporting modules:

- `Wrappers`: the `Option` type.
- `Bytes`: bytes and the UTF-8 encoding of a Rust `String`.
- `HeaderValues`: a `HeaderValue` holds only tabs and bytes of 0x20 or more other than 0x7F, as the `http` crate's checked constructors enforce. `HeaderValue::to_str` gives text only when every byte is a tab or lies in 0x20..0x7E.
- `Base64Url`: the encoder, with a decoder as its inverse.

Inputs the program reads from the outside become parameters:

- the lines of the seed file, or nothing when it cannot be opened;
- the parsed configuration file;
- the value of `AUTH`.

The store itself is looser than the seed pattern, and the model follows the code (src/database.rs:47-94):

- Entries keep `status` as free text. Only seeding checks that it is `trusted` or `untrusted`.
- Keys have no length limit.
- `upsert` stores the value under the key it is given and does not check that the key equals the entry's slug.

## Model

| member | source | states |
|---|---|---|
| `ShortcutDatabase.Database.constructor` | src/database.rs:53-57 | a new store holds exactly the given map, and its lock is healthy |
| `ShortcutDatabase.Database.Read` | src/database.rs:58-70 | on a healthy lock, returns an entry exactly when the slug is stored, and that entry is the stored one field by field; an absent slug or a poisoned lock gives nothing; the map is not changed |
| `ShortcutDatabase.Database.ReadAll` | src/database.rs:71-79 | on a healthy lock, returns the stored entries read in an order of the keys that lists every key exactly once, so each entry appears once per key; its length is the map's size and its members are exactly the stored values; a poisoned lock gives the empty sequence; the map is not changed |
| `ShortcutDatabase.Database.Upsert` | src/database.rs:80-87 | on a healthy lock, returns true and the slug then maps to the given value while every other key keeps its value; on a poisoned lock, returns false and nothing changes |
| `ShortcutDatabase.Database.Delete` | src/database.rs:88-94 | returns true exactly when the lock is healthy and the slug was present; afterwards the slug is absent and every other key is unchanged; on a poisoned lock nothing changes |
| `ShortcutDatabase.ValuesInKeyOrder` | src/database.rs:71-78 | values read along an order that lists every key once are exactly the values the map holds |
| `ShortcutDatabase.RunWrites` | src/database.rs:80-93 | a run of `upsert` and `delete` calls on a healthy store leaves the map as `Replay` of those writes, each put reports true and each delete reports whether its slug was present at that point; on a poisoned lock nothing changes and every call reports false |
| `ShortcutDatabase.ReplayLastWriteWins` | src/database.rs:80-93 | after any sequence of successful upserts and deletes, each key holds the value of its last upsert, is absent if its last write was a delete, and is as before if no write named it |
| `SeedRows.ParseLine` | src/database.rs:17-36 | an accepted line yields an entry that passes all five field checks and whose row is the line itself, so the captured fields are exactly the comma-separated pieces |
| `SeedRows.ParseLineExactly` | src/database.rs:17-36 | a line is accepted as entry e if and only if e passes every field check and the line is e's row `slug,url,status,since,until` |
| `SeedRows.ParseSerialize` | src/database.rs:17-36 | the row of any entry that passes every field check is accepted and gives back the same entry |
| `SeedRows.SerializeInvalidRejected` | src/database.rs:19-20 | a row of comma-free fields that fails one field check is not accepted |
| `SeedRows.UrlHasNoComma` | src/database.rs:17 | no text matching the URL part of the pattern contains a comma |
| `SeedRows.ValidFieldsHaveNoComma` | src/database.rs:17 | none of the five fields of a valid entry contains a comma |
| `SeedRows.SerializeFormat` | src/tests.rs:154 | an entry's row is slug, url, status, since and until in that order, joined by commas, unquoted |
| `SeedRows.SeedMapEntries` | src/database.rs:28-37 | every seeded entry is stored under its own slug, passes every field check, and is the row of some line of the file |
| `SeedRows.SeedMapKeys` | src/database.rs:19-37 | a slug is seeded if and only if some accepted line carries it; rejected lines contribute nothing |
| `SeedRows.SeedMapLastWins` | src/database.rs:28-37 | when several accepted lines carry one slug, the last of them decides the stored entry |
| `SeedRows.Seeded` | src/database.rs:10-45 | a missing seed file gives the empty map; otherwise the loop's map is the line-by-line fold `SeedMap` of the file's lines |
| `SeedRows.Setup` | src/database.rs:97-100 | the new store holds the seeded map and its lock is healthy |
| `SeedRows.GarmataRow` | src/tests.rs:140-154 | the backup test's entry passes every field check, and its row is accepted and gives back that entry |
| `SeedRows.MalformedRowsDropped` | src/database.rs:17-20 | a row with an upper-case slug, or with a timestamp that is not all digits, is not accepted |
| `HeaderValues.ToStr` | src/configuration.rs:54 | a header value converts to text exactly when every byte is a tab or visible ASCII, and the text has the same characters as the bytes |
| `Base64Url.Encode` | src/configuration.rs:79-81 | output length is 4 * ceil(n / 3), and every character is from the URL-safe alphabet or is the pad `=` |
| `Base64Url.DecodeEncode` | src/configuration.rs:79-81 | decoding the encoding of any byte string gives that byte string back |
| `Base64Url.EncodeInjective` | src/configuration.rs:81 | two byte strings with the same encoding are equal |
| `Base64Url.EncodeIsUrlSafe` | src/configuration.rs:79-80 | the encoding never contains `+` or `/`, the two symbols in which the standard alphabet of section 4 of RFC 4648 differs |
| `Configuration.GetConfig` | src/configuration.rs:72-90 | the page texts are copied unchanged; `none` gives no authentication and `basic` gives a `Basic` configuration whose header is the one rendered from its username and password |
| `Configuration.RenderedHeaderDecodes` | src/configuration.rs:79-85 | the rendered header starts with `Basic `, and what follows decodes to the UTF-8 bytes of `username:password` |
| `Configuration.RenderedHeaderDeterminesCredentials` | src/configuration.rs:81-85 | two username/password pairs with the same rendered header have the same `username:password` bytes |
| `Configuration.RenderedHeaderIsUrlSafe` | src/configuration.rs:79-85 | after the `Basic ` prefix, the rendered header contains neither `+` nor `/` |
| `Configuration.IsAuthorized` | src/configuration.rs:49-59 | without authentication, every request passes. With `Basic`, a request without the header fails. A request whose header is text passes exactly when that text equals the stored header, with no trimming or case folding. A header that is not text passes only when the stored header is empty |
| `Configuration.AuthorizedIffRenderedHeader` | src/configuration.rs:54 | against a configuration built from `basic` options, a request passes exactly when its header text is the rendered header |
| `Configuration.NonTextNeverAuthorized` | src/configuration.rs:54 | a header that is not text never passes against a configuration built from `basic` options |
| `Configuration.ExampleRenderedHeader` | src/tests.rs:37 | username `username` with password `password` renders `Basic dXNlcm5hbWU6cGFzc3dvcmQ=`, the header the dashboard test uses |
| `Authentication.GetConfig` | src/authentication.rs:40-52 | authentication is on exactly when `AUTH` has a value; the expected header is that value verbatim, of kind `Basic` |
| `Authentication.IsAuthorized` | src/authentication.rs:17-38 | without authentication, every request passes. With it, a request passes exactly when it carries a header that converts to text equal to the expected header. A missing header fails, and so does a header that is not text |
| `Authentication.ExactlyTheEnvironmentValue` | src/authentication.rs:26 | with `AUTH` set to visible-ASCII text, a request sending exactly that text passes, and any request whose header text differs fails |
| `Authentication.NoSchemeWordAdded` | src/authentication.rs:46 | when `AUTH` holds only the credentials, a request sending `Basic ` followed by them fails, because no scheme word is added |
| `AuthRevisions.AgreeOnText` | src/authentication.rs:24-26 | for a missing header or a text header, both revisions give the same answer on configurations that expect the same header |
| `AuthRevisions.DifferOnNonText` | src/configuration.rs:54 | for a header that is not text, the environment revision refuses, while the file revision lets it pass exactly when the expected header is empty |
| `AuthRevisions.ObsTextAgainstEmptyHeader` | src/configuration.rs:54 | a request whose header is the single obs-text byte 0x80, which a header value can hold but which is not text, passes an empty expected header in the file revision and fails in the environment revision |

## Left out

- Concurrency of the `Arc<RwLock<…>>` (src/database.rs:49). The model is one sequential map. Readers running in parallel and writers taking turns are not modelled.
- How a lock becomes poisoned. A thread must panic while holding the write guard, and no modelled operation does that. `poisoned` is state the operations read and never change. `Database::new` starts it healthy.
- Sharing through `Clone`. A clone shares the `Arc`. In the model, sharing a reference to one `Database` object plays that role.
- Reading `seed.csv`: opening the file, `BufReader::lines()`, `flatten()` silently dropping lines that fail to read, and stripping line endings (src/database.rs:12-19). The model takes the resulting lines, or nothing when the file cannot be opened.
- SeedRows.IsDigits: accepts only ASCII `0`-`9`. The `\d` of Rust's `regex` crate also matches every other Unicode decimal digit, so such `since`/`until` values are accepted by the source and rejected here. The `\w` behind `\b` is exact: on both sides of that boundary the characters are always ASCII.
- SeedRows.ParseLine: inherits the ASCII-only digit check above.
- Reading and deserialising `configuration.yaml`, the panics on a missing or unparsable file, and deleting the file under `DELETE_CONFIG` (src/configuration.rs:62-70). The model starts from the parsed `ConfigurationFile`.
- Reading the environment (src/authentication.rs:41-46). `AUTH` is passed in as one value, with nothing standing for unset or non-Unicode. Reading the variable twice, which could see two different values, is not modelled.
- The base64 library. It is replaced by an encoder written to section 5 of RFC 4648. `Base64Url.Decode` does not exist in the source. It is the encoder's inverse, used to prove the encoder injective. It accepts non-canonical trailing bits.
- Logging calls.
- `src/routes.rs` and `src/main.rs`: SQLite queries, random slugs, HTTP server setup and responses. Also the browser script and the styling configuration.
- Backups. The test at src/tests.rs:135-156 calls `Database::new(true)` and expects a backup file under `./backups`. src/database.rs has no such code: its `Database::new` takes a map and writes nothing. So backups, and any restore at start-up, are not modelled. Only the row format the test expects is modelled (`SeedRows.Serialize`).
