# Configuration file codec of the marksman reservation client

The client keeps two credentials, an API key and an auth token, in a small text
file in the user's home directory. This project models how that file is read and
written, as `src/config.rs` does it:

- **Reading** (`read_config`) takes the file's content line by line. Each line is
  split at its first colon, and lines without a colon are skipped. Key and value
  are trimmed of whitespace and inserted into a map, so a later line overwrites an
  earlier one with the same key. Then `api_key` and `auth_token` are looked up,
  and a missing key gives the empty string. Parsing never fails once the content
  has been read as text.
- **Writing** (`write_config`) produces exactly
  `"api_key: " + api_key + "\nauth_token: " + auth_token`.

The project has two modules.

- `text.dfy`, module `Text`, holds the Rust string operations the parser relies
  on, written as functions on `string`:
  - `char::is_whitespace`, as the full Unicode White_Space list;
  - `trim`, `trim_start` and `trim_end`;
  - `splitn(2, ':')`, as consumed by the `if let (Some(key), Some(value))` pattern;
  - `str::lines`.

  Each function is followed by a lemma that characterises it independently.
- `config.dfy`, module `ConfigFile`, holds the codec:
  - `Config`, the record of the two credentials;
  - `ReadConfig`, the parser as a loop that updates a map, proved equal to the
    fold `ParseConfig`;
  - `ConfigContent`, the serialiser;
  - the lemmas about the format: the first colon splits a line, lines without a
    colon and lines for other keys are ignored, whitespace is trimmed, the last
    occurrence of a key wins, missing keys read as empty, and the round trip holds.

`str::lines` is modelled exactly: the text is split after each `'\n'`; a `"\n"`
or `"\r\n"` line ending is dropped; a final line ending gives no extra empty line;
a lone `'\r'` stays in the line. The round trip holds exactly when neither field
contains `'\n'` or starts or ends with whitespace (`RoundTrip` proves both
directions). That condition holds of every configuration the parser returns, so
writing back what was read and reading it again gives the same configuration.

## Model

| member | source | states |
|---|---|---|
| `Text.TrimStartSpec` | src/config.rs:43 | `trim_start` removes exactly the longest all-whitespace prefix: the rest is a suffix of the input that is empty or starts with a non-whitespace character |
| `Text.TrimEndSpec` | src/config.rs:43 | `trim_end` removes exactly the longest all-whitespace suffix: the rest is a prefix of the input that is empty or ends with a non-whitespace character |
| `Text.TrimSpec` | src/config.rs:43 | `trim` returns an infix of its input with no whitespace at either end, and everything cut off on both sides is whitespace |
| `Text.TrimOf` | src/config.rs:43 | a trimmed string surrounded by any whitespace comes out of `trim` unchanged, so `trim` is fully determined |
| `Text.TrimIdentity` | src/config.rs:43 | `trim` leaves a string unchanged if and only if the string neither starts nor ends with whitespace |
| `Text.TrimKeeps` | src/config.rs:43 | trimming adds no character: a character missing from the input is missing from the result |
| `Text.SplitOnceSpec` | src/config.rs:41-42 | `splitn(2, ':')` yields two parts if and only if the line holds a colon; then the line is key + `:` + value, and the key holds no colon |
| `Text.SplitOnceAt` | src/config.rs:41 | the split is at the first colon: for a colon-free key, `key:value` splits into exactly that key and that value, whatever colons the value holds |
| `Text.LinesHaveNoBreak` | src/config.rs:40 | no line yielded by `lines` contains `'\n'` |
| `Text.SingleLine` | src/config.rs:40 | text without a line break is a single line, and the empty text has no lines |
| `Text.FirstLine` | src/config.rs:40 | a line break ends the first line (a `'\r'` before it is dropped with it), and the rest of the text is split independently |
| `Text.LinesConcat` | src/config.rs:40 | the lines of `a + "\n" + b` are the lines of `a + "\n"` followed by the lines of `b` |
| `Text.LinesAppendBreak` | src/config.rs:40 | appending `'\n'` to a text not ending in `'\r'` ends its last line without adding one, except that it adds one empty line after an empty text or a final line break |
| `ConfigFile.ParseLineShape` | src/config.rs:41-43 | a line stores an entry if and only if it holds a colon; the stored key and value are trimmed and the key holds no colon |
| `ConfigFile.ParseLineKeeps` | src/config.rs:41-43 | the stored value holds no character the line does not hold |
| `ConfigFile.ReadConfig` | src/config.rs:36-51 | the loop over the lines that inserts each split, trimmed entry into the map, followed by the two lookups with the empty default, computes `ParseConfig` of the content; the result is always well formed and there is no error path |
| `ConfigFile.BuildMapKeys` | src/config.rs:38-45 | the map holds a key if and only if some line stores an entry under it |
| `ConfigFile.BuildMapIsLastValue` | src/config.rs:38-48 | the value read for a key equals the independent reference `LastValue`: the value on the last line for that key, or `""` when there is none |
| `ConfigFile.LastValueAt` | src/config.rs:43 | the reference scan returns the value of the last line that stores the key |
| `ConfigFile.LastOccurrenceWins` | src/config.rs:43 | if line `i` stores key `k` and no later line does, the map holds `k` with line `i`'s value (insert overwrites) |
| `ConfigFile.MissingKeyIsEmpty` | src/config.rs:47-48 | a key stored by no line is absent from the map and reads as the empty string |
| `ConfigFile.LineWithoutColonIgnored` | src/config.rs:41-42 | inserting a line without a colon anywhere among the lines leaves the whole map unchanged |
| `ConfigFile.OtherKeyIgnored` | src/config.rs:43-48 | inserting a line that does not store key `k` anywhere among the lines leaves the value read for `k` unchanged |
| `ConfigFile.IrrelevantLineIgnored` | src/config.rs:47-50 | inserting a line that stores neither `api_key` nor `auth_token`, anywhere among the lines, leaves the parsed `Config` unchanged |
| `ConfigFile.InsertedLineIgnored` | src/config.rs:40-50 | in the file content itself, inserting such a line (ended by `'\n'`) at the start of any line leaves the parsed `Config` unchanged |
| `ConfigFile.AppendedLineIgnored` | src/config.rs:40-54 | appending `"\n"` and such a line after the last line of the content, as an edit of a file written by `write_config` with no final line break does, leaves the parsed `Config` unchanged (for content not ending in `'\r'`) |
| `ConfigFile.LastValueShape` | src/config.rs:43 | the value found for a key is trimmed, and it holds no line break when the lines hold none |
| `ConfigFile.ParsedIsWellFormed` | src/config.rs:40-50 | for any content, both parsed fields are trimmed and free of line breaks |
| `ConfigFile.SpacedEntry` | src/config.rs:41-43 | whitespace around the key and around the value is not stored: `w1 key w2 : w3 value w4` stores exactly `(key, value)` |
| `ConfigFile.SpacedLineExample` | src/config.rs:43 | the line `"  api_key :  abc  "` stores the key `api_key` with the value `abc` |
| `ConfigFile.ValueKeepsColons` | src/config.rs:41-43 | `key: value` stores exactly `(key, value)` for a colon-free trimmed key and a trimmed value, including a value with further colons |
| `ConfigFile.ContentLines` | src/config.rs:54 | when the fields hold no line break, the written content is exactly two lines, `api_key: …` and `auth_token: …`, and does not end in a line break |
| `ConfigFile.TwoEntries` | src/config.rs:47-50 | a line for `api_key` followed by a line for `auth_token` parses to exactly those two values |
| `ConfigFile.RoundTrip` | src/config.rs:40-54 | parsing the written content gives back the same `Config` if and only if neither field contains `'\n'` or starts or ends with whitespace |
| `ConfigFile.DefaultRoundTrip` | src/config.rs:26-30 | the default configuration with empty fields, written when the file is created, reads back as itself |
| `ConfigFile.RewriteIsStable` | src/config.rs:36-55 | writing out a parsed configuration and parsing it again gives the same configuration |

## Left out

- `get_config_path` (src/config.rs:13-34): finding the home directory and creating the file are I/O. Only the default configuration it writes is modelled (`DefaultConfig`, `DefaultRoundTrip`).
- `fs::read_to_string` and `fs::write` (src/config.rs:37, 55), and the `anyhow` errors they raise when the file cannot be opened, read or written: I/O. `ReadConfig` takes the file's content and `ConfigContent` returns the content to be written.
- `ReadConfig`: does not model the error `read_config` returns when the file's bytes are not valid UTF-8 (`fs::read_to_string` at src/config.rs:37 rejects them). That failure depends on the content, but `ReadConfig` takes text that is already decoded. Once the content is text, parsing has no error path, so `ReadConfig` returns a `Config` directly.
- Rust's `String` is UTF-8. It is modelled as a sequence of Unicode scalar values, which is the level at which `trim`, `lines` and `splitn` work.
- `HashMap` is modelled as a Dafny `map`. Hashing, capacity and iteration order play no part in the result.
- src/main.rs: argument parsing, terminal prompts and command dispatch. It also calls functions that none of the source files define, and calls `write_config` with arguments that do not match src/config.rs:53.
- src/resy_api_gateway.rs: an HTTP client whose behaviour is the remote service's.
- src/resy_client.rs: placeholder methods that only print or assign constant strings.
- src/view_utils.rs: table output to the terminal.
- The reservation race the repository is built around (waiting for a deadline, ranking slots, quoting and committing a booking, allowing at most one commit) is not part of this model. None of that logic is present in these source files: they contain placeholders and calls to undefined functions in its place.
