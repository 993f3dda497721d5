# pgr: routine-name parser and catalog-row decoder

pgr exposes stored database routines as HTTP endpoints. Each routine's name
follows a convention, a verb and then a url with an optional query, for
example `get /user/:id?name&age`. This project models the two pure pieces of
that program:

- **The routine-name parser** (`handle_pg_func`). It splits the name into
  whitespace-separated words. It checks the first word against the verbs
  `get`, `put`, `post`, `patch` and `delete`, and splits the second word on
  `?` into a path and a query. Module `Routes`, file `handle_pg_func.dfy`.
- **The catalog-row decoder** (the loop inside `PgFunc::from_db`). It turns
  each row of the routine catalog into a `PgFunc` record. A row has a name, a
  returns-a-set flag, a return type, and three parallel arrays of argument
  types, modes and names. Module `Catalog`, file `pg_func.dfy`.

Two supporting modules hold what the parser relies on:

- `Text` (`text.dfy`) models Rust's `split_whitespace` and `split` on one
  character, with their inverses.
- `Usize` (`usize.dfy`) models the 64-bit `usize` and the bitwise `!`
  operator.

The parser is modelled as the code is written. Its two length guards,
`!name.len() == 2` and `!url.len() <= 2`, apply Rust's bitwise complement to
a length. On a 64-bit target they fire only for 2^64 − 3 or more words or
pieces, and no Rust string can produce that many. As a result:

- Words after the second are ignored.
- A url with two or more `?` is accepted with an *empty* query. Line 73 takes
  the second piece only when there are exactly two pieces.
- A name with no words panics when it indexes the word list.
- A name that is a single verb also panics when it indexes the word list.
- A single word that is not a verb is rejected before the second index is
  reached.

The guards themselves show a stricter intent. `name.len() == 2` at
src/main.rs:58 and `url.len() <= 2` at src/main.rs:68, each followed by the
message "Invalid function name" at lines 59 and 69, read as "exactly one verb
and one url" and "at most one `?`". The model follows the code. The parser
with those guards, `Routes.HandlePgFuncIntended`, sits beside it. The code
also differs from the `<verb> <path>?<query>` convention of the sample name in
these ways, and the model follows the code:

- Verbs are compared case-sensitively, so `GET` is rejected.
- The query stays raw text and is not split on `&`.
- The path stays raw text and is not split into segments.
- Argument modes are copied verbatim. They are neither decoded into a closed
  set nor validated.
- The names and modes arrays may be longer than the types array. The extra
  entries are ignored.

`handle_pg_func` returns `Ok(())` on every path that does not panic. A
rejection is only printed. `Routes.Outcome` records which branch was taken:
`Parsed`, `Rejected` with the guard that fired, or `IndexPanic`.

## Model

| member | source | states |
|---|---|---|
| Text.Words | src/main.rs:57 | `split_whitespace` yields at most one word per character. Every word is non-empty, has no whitespace and is no longer than the name. The words concatenated are exactly the name's non-whitespace characters, in order. |
| Text.WordsSplitAtWhitespace | src/main.rs:57 | Every whitespace character is a word boundary: the words of `a`, a whitespace character and `b` are the words of `a` followed by the words of `b`. With `Text.WordsOfWord` this fixes `split_whitespace` on every input, so each word is a maximal run. |
| Text.WordsOfWord | src/main.rs:57 | A non-empty string without whitespace is a single word. |
| Text.WordsOfUnwords | src/main.rs:57 | Splitting words joined by single spaces returns those words. This is the inverse of `Words` on well-formed input. |
| Text.Split | src/main.rs:67 | `split('?')` yields one more piece than the url has `?`. No piece contains `?`. Joining the pieces with `?` gives the url back. |
| Text.SplitOfJoinWith | src/main.rs:67 | Splitting `?`-free pieces joined by `?` returns those pieces. This is the inverse of `Split`. |
| Usize.ComplementIsSubtraction | src/main.rs:58 | Flipping every bit of a `w`-bit number, bit by bit, gives 2^w − 1 minus that number. |
| Usize.NotIsComplement | src/main.rs:58 | Rust's `!` on a `usize`, modelled as `USIZE_MAX - n`, is the bitwise complement of all 64 bits. |
| Routes.HandlePgFunc | src/main.rs:56-79 | A parsed name's verb is one of the five allowed verbs and is a whitespace-free word. Neither the path nor the query contains `?`. |
| Routes.GuardsNeverFire | src/main.rs:58-71 | For every Rust string, `!name.len() == 2` is false and `!url.len() <= 2` is false for every word. |
| Routes.OutcomeByWords | src/main.rs:57-67 | The name parses if and only if it has at least two words and the first is an allowed verb. It is rejected if and only if the first word is not a verb, and then only for that reason. It panics if and only if it has no words or is a lone verb. |
| Routes.UnknownVerbRejected | src/main.rs:62-66 | A first word outside the verb list is rejected as an unknown verb, whatever follows. |
| Routes.ParsedFields | src/main.rs:62-73 | The verb is the first word. The path is the prefix of the second word before its first `?`, followed by that `?` when there is one. With no `?`, the path is the whole url and the query is empty. With one `?`, path, `?` and query rebuild the url. With two or more, the query is empty. |
| Routes.ExtraWordsIgnored | src/main.rs:57-67 | Two names whose first two words agree have the same outcome, whatever words follow. |
| Routes.ConventionRoundTrip | src/main.rs:62-73 | A name written as verb, space, path, `?` and query, with no `?` in path or query, parses back into exactly that verb, path and query. |
| Routes.SampleParses | src/main.rs:62-73 | The sample name `get /user/:id?name&age` from line 13 parses into verb `get`, path `/user/:id` and query `name&age`. |
| Routes.UpperCaseVerbRejected | src/main.rs:63-66 | `GET /users` is rejected because the verb comparison is case-sensitive. |
| Catalog.SampleRowDecodes | src/main.rs:12-33 | A catalog row with the sample's name, types and names, and no modes, decodes into the sample record. All three arguments have mode `in`. |
| Routes.HandlePgFuncIntended | src/main.rs:58-71 | The parser with the intended guards never panics. |
| Routes.IntendedParsedIff | src/main.rs:58-73 | With the intended guards, a name parses if and only if it has exactly two words, the first is an allowed verb and the url has at most one `?`. A parsed url is always rebuilt from its path and query. |
| Routes.IntendedAgreesWhenParsed | src/main.rs:58-73 | Whenever the intended parser accepts a name, the parser as written accepts it with the same verb, path and query. |
| Routes.ExtraWordAccepted | src/main.rs:58-62 | As written, `get /a b` parses as verb `get`, path `/a` and an empty query. The intended guard rejects it for its word count. |
| Routes.LoneVerbPanics | src/main.rs:58-67 | As written, `get` passes the word-count guard and panics on the missing second word. The intended guard rejects it. |
| Routes.SecondQueryMarkAccepted | src/main.rs:68-73 | As written, `get /a?b?c` parses with path `/a` and an empty query. The intended guard rejects it for its piece count. |
| Catalog.DecodableIsIndexSafety | src/pg_func.rs:39-47 | A row meets the decoding precondition if and only if every index read while decoding it is in bounds. That means the argument name at every index and, unless the modes array is empty, the mode at every index. |
| Catalog.DecodeArgs | src/pg_func.rs:39-50 | Appending arguments `0 .. n-1` one at a time yields `n` arguments. Argument `i` takes its name from `argnames[i]`, its type from `argtypes[i]`, and its mode from `argmodes[i]`, or `in` when the modes array is empty. |
| Catalog.DecodeRow | src/pg_func.rs:28-50 | Name, set flag and return type are copied unchanged. There is one argument per entry of `argtypes`, in declaration order, with name, type and mode taken index by index. |
| Catalog.NoModesMeansAllIn | src/pg_func.rs:42-44 | When the modes array is empty, every decoded argument has mode `in`. |
| Catalog.FromDb | src/pg_func.rs:26-54 | Decoding the catalog yields exactly one record per row, in row order, each the decoding of its row. |
| Catalog.DecodeEncode | src/pg_func.rs:27-52 | Every record, written out as a catalog row with one entry per argument in each array, decodes back to itself. |
| Catalog.EncodeDecode | src/pg_func.rs:27-52 | A row whose three arrays have equal length is rebuilt exactly by decoding it and writing the record back out. |

## Left out

- The HTTP server, the header-echo route and the async runtime setup (src/main.rs:35-52) are transport, not parsing.
- The database connection and the provisioning SQL (src/db_client.rs) are I/O.
- The test helpers and their connection string (src/test_helpers.rs), and the database-backed test (src/pg_func.rs:58-67), are I/O and test plumbing.
- The catalog query and the `row.get` calls (src/pg_func.rs:22-24, 29-37) are I/O. The model takes each row as an input record, and it drops the query's error propagation with them.
- The `println!` and `dbg!` output is not modelled. Only the outcome is kept.
- The `Ok(())` return value of `handle_pg_func` is implicit. It is the same on every path that does not panic.
- Route compilation, path-segment splitting, `&`-splitting of the query, argument binding, request dispatch and response shaping are not modelled. None of them exists in this code.
- Rust strings are UTF-8 bytes, but the model works on characters. Whitespace is the Unicode `White_Space` set that `char::is_whitespace` tests. The `isize::MAX` bound on a string's byte length is applied to its character count, which can only be smaller.
- Lengths are 64-bit `usize` values. A 32-bit target would move the guards' thresholds, but they would still never fire.
- Catalog.FromDb: a row that fails `Decodable` makes the source panic on an out-of-bounds index. Such rows are excluded by the precondition rather than modelled as a panic outcome.

## Findings

| source | as written | input that shows it | evidently intended | confidence | as-written member | corrected member |
|---|---|---|---|---|---|---|
| src/main.rs:58 | `!name.len() == 2` compares the bitwise complement of the word count with 2. It fires only for 2^64 − 3 words, so extra words pass. | `get /a b` parses as `get`, `/a` with an empty query | reject unless there are exactly two words | high; not executed | Routes.ExtraWordAccepted | Routes.IntendedParsedIff |
| src/main.rs:58 | The same guard lets a name with too few words reach `name[1]`. | `get` panics with an index out of bounds | reject unless there are exactly two words | high; not executed | Routes.LoneVerbPanics | Routes.HandlePgFuncIntended |
| src/main.rs:68 | `!url.len() <= 2` compares the bitwise complement of the piece count with 2. It fires only for 2^64 − 3 or more pieces, so a second `?` passes, and line 73 then drops the query. | `get /a?b?c` parses as `get`, `/a` with an empty query | reject when the url splits into more than two pieces | high; not executed | Routes.SecondQueryMarkAccepted | Routes.IntendedParsedIff |

The corrected parser `Routes.HandlePgFuncIntended` sits beside the as-written
`Routes.HandlePgFunc`. The rest of the model describes the program as it
behaves, so everything else is stated about the as-written parser.
`Routes.IntendedAgreesWhenParsed` shows that the two parsers agree on every
name the corrected one accepts.
