# linked — a Dafny model of the link-map dispatcher

`linked` is a command-line link manager. It binds short abbreviations to
links and keeps them in a JSON file, `~/.config/linked/links.json`. Each
process run loads the whole map from that file and applies one subcommand:

- `add <abbrev> <link>` stores the link with `(`, `)` and `'` removed, then rewrites the whole file;
- `get <abbrev>` looks the abbreviation up;
- `list` prints every binding in ascending abbreviation order.

The model covers that logic, which lives in `sanitize_string` and `run`
(`src/main.rs`). It is written as five modules:

- `Lex`: the order `list` sorts by. This is Rust's `String` order, i.e.
  code-point lexicographic order with a proper prefix first. Lemmas show it
  is irreflexive, transitive, asymmetric and total.
- `Sanitize`: `sanitize_string` as a recursive function. Its contract
  says that the result contains none of the three characters, is a
  subsequence of the input, and keeps every other character as often as
  the input has it. A lemma shows that these three facts determine the
  result uniquely.
- `Listing`: what a correct `list` output is (`IsListing`). It defines the
  canonical sorted listing and proves that a map has exactly one listing.
  It also contains the imperative `keys().sorted()`: `SortedKeys`
  repeatedly selects the least remaining key with `LeastKey`.
- `Store`: the backing file, described by what it decodes to, with the
  zero-length "first run" case from `read_links`.
- `Dispatch`: the subcommands as a datatype and `Step`, the specification
  of one command's effect on the map. The class `Invocation` holds
  `run`'s mutable `key_values` map; its methods change it in place and are
  proved against `Step`. `Invoke`, `Session` and `Replay` chain process
  runs over the backing file, so properties across several invocations
  can be stated.

Two details of the code that the model keeps:

- `add` always sanitizes the link and never the abbreviation.
- No abbreviation is checked for being non-empty, so the model accepts any
  abbreviation, including the empty one.

## Model

| member | source | states |
|---|---|---|
| Sanitize.SanitizeString | src/main.rs:69-71 | the result has no `(`, `)` or `'`, is a subsequence of the input, and keeps every other character as often as the input has it |
| Sanitize.SanitizeCharacterized | src/main.rs:70 | any clean subsequence of the input that keeps the count of every other character equals the sanitized string, so the result is exactly the input filtered by "not one of the three" |
| Sanitize.SanitizeAppend | src/main.rs:70 | sanitizing distributes over concatenation: characters are removed one at a time, independently of their neighbours |
| Sanitize.SanitizeFixedPoint | src/main.rs:70 | the input comes back unchanged if and only if it contains none of the three characters |
| Sanitize.SanitizeIdempotent | src/main.rs:70 | sanitizing twice gives the same as sanitizing once |
| Lex.LessIrreflexive | src/main.rs:124 | no abbreviation sorts before itself |
| Lex.LessTransitive | src/main.rs:124 | the sort order is transitive |
| Lex.LessAsymmetric | src/main.rs:124 | two abbreviations never sort before each other both ways |
| Lex.LessTotal | src/main.rs:124 | of two different abbreviations, one sorts before the other |
| Listing.LeastExists | src/main.rs:124 | every non-empty set of abbreviations has a least element |
| Listing.SortedListingIsListing | src/main.rs:124-126 | the canonical listing lists every binding once, only bindings, in strictly ascending abbreviation order |
| Listing.ListingUnique | src/main.rs:124-126 | a map has exactly one such listing, so the output of `list` is determined by the map alone |
| Listing.ListingLength | src/main.rs:124-126 | the listing has one entry per binding |
| Listing.LeastKey | src/main.rs:124 | returns an element of the set that sorts before every other element |
| Listing.SortedKeys | src/main.rs:124 | returns each key of the set exactly once, in strictly ascending order, and nothing else |
| Store.Load | src/data.rs:8-20 | a zero-length file loads as the empty map; loading fails exactly when the content does not decode |
| Store.Save | src/data.rs:22-28 | a written file loads back as exactly the map that was written |
| Dispatch.Step | src/main.rs:88-134 | only `add` with exactly two tokens rewrites the file, and every other command leaves the map unchanged; `add a t` binds `a` to the sanitized `t`, adds only `a` to the key set and keeps every other binding; any other token count is a usage error; `get` finds exactly the bound abbreviations and reports a miss as "not found"; `list` emits a correct listing; no or an unknown subcommand reports success |
| Dispatch.Invocation.constructor | src/main.rs:86 | on a backing file that decodes, the dispatcher starts from the map that file loads to |
| Dispatch.Invocation.Add | src/main.rs:89-104 | updates `key_values` in place exactly as `Step` specifies for `add`, including the usage-error path |
| Dispatch.Invocation.Get | src/main.rs:105-121 | returns the stored link when the abbreviation is bound and "not found" otherwise, without changing anything |
| Dispatch.Invocation.List | src/main.rs:122-127 | walks the sorted keys and produces a correct listing of the current map |
| Dispatch.Invocation.Run | src/main.rs:88-134 | the new map, the outcome and the rewrite flag are those `Step` specifies for the command |
| Dispatch.Invoke | src/main.rs:86-134 | a backing file that does not decode aborts every command, including `add`, with that error and leaves the file unchanged; otherwise the outcome is the one `Step` specifies for the loaded map, the file afterwards loads to the new map, and it is untouched when nothing was written |
| Dispatch.SessionSnapshot | src/main.rs:86-102 | after any series of invocations on a readable file, the file loads to the map obtained by applying the same commands in memory, so the file is always a complete snapshot |
| Dispatch.ReadOnlySession | src/main.rs:105-133 | invocations that are not a well-formed `add` never change the backing file |
| Dispatch.UsageErrorKeepsFile | src/main.rs:94-95 | `add` with a token count other than two reports a usage error and leaves the file as it was |
| Dispatch.GetMissKeepsFile | src/main.rs:112-119 | `get` of an unbound abbreviation reports "not found" and leaves the file as it was |
| Dispatch.UpsertOverwrites | src/main.rs:99 | adding the same abbreviation twice leaves one binding for it, holding the second link, and keeps every other binding |
| Dispatch.AddThenGet | src/main.rs:97-119 | starting from an empty file, `add foo <link>` then `get foo` finds the sanitized link, which is the link itself when it has no parentheses or quotes |
| Dispatch.ListExample | src/main.rs:124-126 | for the bindings b -> 2 and a -> 1, `list` emits `a` before `b` |

## Left out

- Argument parsing (`parse_args`, clap): the model starts from an already-parsed `Command`. `get` carries the single abbreviation that clap's `value_of` returns.
- Config directory creation (`create_cli_config`), file opening and truncation: these are OS I/O. A missing file is created empty, which the model treats as `Store.Empty`.
- The JSON encoding: the serializer and parser belong to a library, so the backing file is described by what it decodes to. `Store.Save` therefore states the round trip as a property of that abstraction; it is not proved about an encoder.
- I/O errors that `run` passes on: a failed config-directory creation, a failed metadata or read call in `read_links`, and a failed write after `add`. The model assumes these calls succeed; of `run`'s errors it keeps only the usage error and the file that does not decode.
- Clipboard access in `get`: an OS side effect. `Found(link)` stands for the link that is copied.
- `println!` text and process exit codes: outcomes are datatype values, not strings.
- Panics from `.unwrap()`/`.expect()` on invalid UTF-8 arguments or I/O failure: these are library failure paths. Strings are sequences of Unicode scalar values.
- Concurrent invocations racing on the backing file: each invocation is modelled as atomic, one after the other.
