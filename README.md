# JabiBot web installer: `.env` serialiser and LAN address selection

The installer (`web-installer/server.js`) is a small Express server. Two
pieces of it carry logic that can be stated exactly, and this project models
both as Dafny code and proves their properties:

- **The `POST /save` serialiser.** The handler builds
  `{ ...req.body, DATA_DIR: './data' }`. It turns every entry into the line
  `KEY="VALUE"`, with each `"` of the value written as `\"`. It joins the lines
  with `\n` and writes them followed by one `\n`. A JSON object is modelled by
  its entries (`EnvWriter.Entry`) in the order `Object.entries` lists them.
  A value is a string or some other JSON value (`EnvWriter.Value`). A
  non-string value makes `value.replace` throw outside the `try`, so nothing
  is written; `Serialize` then returns `None`. A non-string `DATA_DIR` is
  overwritten by the merge before formatting, so it causes no error.
  `EnvWriter.IsObjectEntries` says what such a list looks like: keys are
  distinct, and array-index keys (canonical decimals below 2^32 - 1) come
  first in ascending order. Other keys, `__proto__` included, keep
  insertion order, since JSON parsing and object spread both create own data
  properties.
- **`getLocalIP`.** It scans interface names in order, and each interface's
  entries in order. It returns the `address` of the first entry whose
  `family` is `"IPv4"` and which is not `internal`. If there is none, it
  returns `"localhost"`. The result of `os.networkInterfaces()` is an input:
  a sequence of `LocalAddress.Interface` values. The nested loop with its
  early `return` is the method `LocalAddress.GetLocalIP`. It is proved equal
  to `LocalAddress.LocalIP`, a first-match function over the flattened list.

`EnvReader` is not in the source. It is the reader that the written format
admits: split at `\n`, split each line at its first `=`, strip the quotes,
delete the backslash before each `"`. Its round-trip lemmas are the partner
of the serialiser. When keys hold no `=` or newline and string values hold
no newline, they show that the file holds one line per merged entry, in
merged order, and reads back as the merged record. The format itself has
one reading for every single line, whatever the key holds
(`EnvReader.FormatLineInjective`); the `=` restriction is this reader's,
which splits at the first `=`.

Files: `wrappers.dfy` (`Option`), `env_writer.dfy`, `env_reader.dfy`,
`local_address.dfy`.

## Model

| member | source | states |
|---|---|---|
| `EnvWriter.MergeObjectEntries` | web-installer/server.js:34-37 | the merge keeps keys distinct and keeps property order (array-index keys first, ascending), so the merged list is again what `Object.entries` returns |
| `EnvWriter.SetDataDirKeepsKeys` | web-installer/server.js:34-37 | redefining `DATA_DIR` keeps every key at its index and replaces only the `DATA_DIR` entry's value |
| `EnvWriter.MergeOverride` | web-installer/server.js:34-37 | after the merge, `DATA_DIR` occurs exactly once, with value `./data`, whatever the body held |
| `EnvWriter.MergeKeepsOthers` | web-installer/server.js:34-37 | the entries other than `DATA_DIR` keep their values and relative order |
| `EnvWriter.MergePosition` | web-installer/server.js:34-37 | a `DATA_DIR` in the body keeps its index and all other entries stay put; otherwise the body is kept and `DATA_DIR="./data"` is appended last |
| `EnvWriter.EscapeAppend` | web-installer/server.js:40 | escaping works character by character: it distributes over concatenation |
| `EnvWriter.EscapeNoQuote` | web-installer/server.js:40 | a value without `"` is written unchanged, backslashes included |
| `EnvWriter.EscapeLength` | web-installer/server.js:40 | the escaped value is longer by exactly the number of `"` in the value |
| `EnvWriter.EscapeQuotesPreceded` | web-installer/server.js:40 | every `"` in an escaped value directly follows a `\` |
| `EnvWriter.EscapeNewlines` | web-installer/server.js:40 | the escaped value contains a newline exactly when the value does |
| `EnvWriter.JoinEndsWithLast` | web-installer/server.js:41 | a non-empty `join('\n')` ends with its last line |
| `EnvWriter.MergeStringValues` | web-installer/server.js:34-40 | every merged value is a string exactly when every body entry other than `DATA_DIR` holds a string |
| `EnvWriter.Serialize` | web-installer/server.js:34-41 | content is produced exactly when every body entry other than `DATA_DIR` holds a string (otherwise `value.replace` throws); the content is never empty and ends with `"` followed by a single `\n` |
| `EnvReader.EscapeRoundTrip` | web-installer/server.js:40 | deleting the `\` before each `"` of an escaped value gives the value back |
| `EnvReader.EscapeInjective` | web-installer/server.js:40 | two values with the same escaped form are equal |
| `EnvReader.FormatLineRoundTrip` | web-installer/server.js:40 | the line `KEY="ESCAPED"` reads back as its entry when the key has no `=` |
| `EnvReader.SeparatorAt` | web-installer/server.js:40 | in a formatted line, no `="` after the key's own separator except at the closing quote |
| `EnvReader.FormatLineInjective` | web-installer/server.js:40 | two entries with the same formatted line are equal, for every key and string value |
| `EnvReader.SplitJoin` | web-installer/server.js:41 | (reader only, partner of the `join('\n')`) splitting at `\n` a join of lines without newlines gives the lines back |
| `EnvReader.ParseLinesRoundTrip` | web-installer/server.js:39-40 | (reader only, partner of the `map`) the formatted lines, one per entry in order, read back as the entries |
| `EnvReader.MergePlain` | web-installer/server.js:34-37 | the merge keeps keys free of `=` and newlines and values free of newlines |
| `EnvReader.SerializeRoundTrip` | web-installer/server.js:34-46 | when content is produced, and keys hold no `=` or newline and string values no newline, the content string reads back exactly as the merged record |
| `LocalAddress.FlattenMembers` | web-installer/server.js:17-18 | the scanned entries are exactly the entries of all interfaces |
| `LocalAddress.FirstLanAddressIsFirst` | web-installer/server.js:17-21 | the selection yields address `a` exactly when some entry is external IPv4 with address `a` and no earlier entry is |
| `LocalAddress.FirstLanAddressNone` | web-installer/server.js:17-24 | the selection finds nothing exactly when no entry is external IPv4 |
| `LocalAddress.LocalIPFallback` | web-installer/server.js:17-24 | with no external IPv4 entry the result is `localhost`; otherwise it is the address of an external IPv4 entry |
| `LocalAddress.LocalIPIsFallbackIff` | web-installer/server.js:19-24 | when no external IPv4 entry has the text `localhost` as its address, the result is `localhost` if and only if no entry is external IPv4 |
| `LocalAddress.FoundAt` | web-installer/server.js:17-21 | if entry `e` of interface `n` is external IPv4 and nothing before it in name-then-entry order is, that entry's address is returned |
| `LocalAddress.ScannedInterface` | web-installer/server.js:17-23 | after an interface with no external IPv4 entry, the scanned prefix still has none |
| `LocalAddress.GetLocalIP` | web-installer/server.js:15-25 | the nested scan with early return computes the first-match address, or `localhost` |

## Left out

- Express setup: the app, static file serving, JSON body parsing, routing, `res.json` for `GET /get-ip`, and `app.listen` with its console output (web-installer/server.js:7-12, 28-30, 56-60). These are framework plumbing.
- `os.networkInterfaces()` (line 16) is an operating-system call. Its result is the input of `GetLocalIP`.
- `fs.writeFileSync`, the `../.env` path, the log lines and the 200/500 replies (lines 43-52) are file and network I/O. The model stops at the content handed to the write. Nothing is claimed about the file after a failed write.
- Non-string values are one `NonString` case: the model does not tell numbers, booleans, `null`, arrays and objects apart, since `value.replace` throws on each of them alike (line 40). The resulting 500 reply from Express's default error handler is not modelled; `Serialize` returns `None`.
- Keys containing `=` and keys or values containing a newline pass through unvalidated. `Serialize`, the merge lemmas and `FormatLineInjective` cover them. The reader round trips (`FormatLineRoundTrip`, `ParseLinesRoundTrip`, `SerializeRoundTrip`) require keys without `=` because this reader splits a line at its first `=`. They require keys and values without newlines because a newline splits one entry over several physical lines of the file.
- Keys and values are modelled as sequences of Unicode scalar values, while JavaScript strings are sequences of UTF-16 code units. A lone surrogate (as in the JSON string `"\ud800"`) cannot be represented. The UTF-8 encoding that `fs.writeFileSync` applies (line 46), which writes U+FFFD in place of a lone surrogate, is outside the model. `SerializeRoundTrip` is about the content string handed to the write, not the bytes on disk.
