# journaliser-cli: entity resolution and note assembly

A Dafny model of the logic at the core of `journaliser-cli`, a command-line
client that appends notes to a remote note-taking service. The client
fetches the note types, the collections and the defaults from the server.
It resolves the user's `-n` (note type) and `-c` (collection) fragments
against them, joins the message words into the note body, and posts a
`NotePostBody` record. Its `config --update` command replaces the stored
server URL with a line typed at a prompt.

The model has four modules, one per concern of `src/main.rs`:

- `Text` (`text.dfy`) covers the string primitives the code relies on:
  - `to_ascii_lowercase` as `Lower`;
  - `str::contains` as `Contains`, specified by an occurrence position;
  - `str::trim` as `Trim`, using Rust's `char::is_whitespace`, which is the Unicode White_Space property;
  - `join(" ")` as `JoinWithSpace`, with `SplitAtSpace` as its inverse.
- `Filtering` (`filtering.dfy`) is the `iter().filter(p).collect()` chain as `Filter`. Its contract pins the result down completely: an order-preserving subsequence that keeps exactly the elements satisfying `p`, with their multiplicity (`FilterCharacterised`).
- `Resolver` (`resolver.dfy`) holds `vec_contains`, `get_final_note_type` and `get_final_collection_id` over the `NoteType` and `Collection` records.
- `Commands` (`commands.dfy`) covers two handlers:
  - the `Note` arm of `main`: body join, default fallback through `unwrap_or`, and `NotePostBody` construction;
  - the `Config { update: true }` arm: starting configuration, then the blank-or-trimmed URL rule.

Everything is pure. The `Config { update: true }` arm changes state in
three places:

- `config = cfg` replaces the empty starting configuration with the stored one (src/main.rs:132).
- `read_line(&mut s)` fills the input buffer (src/main.rs:143-144).
- `config.url = new_url` replaces the URL (src/main.rs:151).

`UpdateConfig` models all three as one function. It takes the stored
configuration (`None` when it did not parse) and the line already read, and
returns the configuration written back.

Behaviour of `src/main.rs` that the model keeps as written:

- The posted field is named `noteType`, not `noteTypeId`.
- The code has no modifier extractor: `modifiers` is always empty.
- A fragment that resolves to nothing, or to several candidates, does not stop the command. The note is posted with an empty id.
- `Collection` has only `id` and `name`.
- The code cannot tell "no match" from "several matches". Both give `""`, so the model returns a string too, not a richer result type.

## Model

| member | source | states |
|---|---|---|
| `Text.Lower` | src/main.rs:199-201 | `to_ascii_lowercase` keeps the length and folds each character on its own, mapping only 'A'..'Z' |
| `Text.LowerIdempotent` | src/main.rs:199-201 | folding an already folded string changes nothing |
| `Text.LowerFoldsOnlyAsciiCapitals` | src/main.rs:199-201 | no ASCII capital survives folding; every other character, non-ASCII included, is unchanged |
| `Text.Contains` | src/main.rs:199-201 | `contains` is true exactly when some position of the string starts an occurrence of the pattern |
| `Text.ContainsEmpty` | src/main.rs:198-202 | the empty fragment is contained in every name |
| `Text.TrimStart` | src/main.rs:147 | the result is a suffix, everything dropped is whitespace, and the result does not start with whitespace |
| `Text.TrimEnd` | src/main.rs:147 | the result is a prefix, everything dropped is whitespace, and the result does not end with whitespace |
| `Text.Trim` | src/main.rs:147-150 | `trim` returns a slice of the line with only whitespace around it and none at its ends; it is empty exactly when the line is all whitespace |
| `Text.TrimmingIsUnique` | src/main.rs:147-150 | any slice with those properties is what `trim` returns |
| `Text.TrimIdempotent` | src/main.rs:147-150 | trimming twice is trimming once |
| `Text.TrimIgnoresTrailingWhitespace` | src/main.rs:143-150 | whitespace after the typed text, such as the kept newline, does not change the trimmed URL |
| `Text.JoinWithSpace` | src/main.rs:53-57 | `join(" ")`: no words give "", one word gives that word unchanged; `JoinSplit`, `SplitJoin`, `JoinAppend` and `JoinLength` state the rest |
| `Text.JoinSplit` | src/main.rs:53-57 | splitting the body at spaces and joining again gives the body back |
| `Text.SplitJoin` | src/main.rs:53-57 | a body joined from one or more space-free words splits back into exactly those words |
| `Text.JoinAppend` | src/main.rs:53-57 | one more word adds one space and the word at the end of the body |
| `Text.JoinLength` | src/main.rs:53-57 | the body is as long as the words plus one separator between each pair |
| `Filtering.Filter` | src/main.rs:186-192 | the collected filter is an order-preserving subsequence, keeps only elements satisfying the predicate, and keeps each one as often as the input does |
| `Filtering.FilterCharacterised` | src/main.rs:186-192 | those properties determine the filter's result uniquely |
| `Filtering.FilterLength` | src/main.rs:203-205 | the filtered length is the number of candidates satisfying the predicate |
| `Filtering.FilterAppend` | src/main.rs:196-203 | filtering distributes over concatenation, so output order is input order |
| `Filtering.FilterSole` | src/main.rs:196-207 | when exactly one element satisfies the predicate, the filter is that element alone |
| `Filtering.FilterNone` | src/main.rs:196-211 | when no element satisfies the predicate, the filter is empty |
| `Filtering.FilterSingleton` | src/main.rs:203-207 | a filter of length one comes from exactly one satisfying element, and its element is that one |
| `Filtering.FilterAll` | src/main.rs:196-203 | when every element satisfies the predicate, the filter is the input |
| `Filtering.Map` | src/main.rs:215-223 | keeps the length and applies `f` at each position; it views each collection as its (id, name) record for comparison with note-type resolution (the copy to `String` at line 191 is the identity and is not modelled) |
| `Filtering.FilterProject` | src/main.rs:215-223 | filtering commutes with projecting each record onto another type |
| `Filtering.SubsequenceMultiset` | src/main.rs:186-192 | a subsequence never holds an element more often than its source |
| `Resolver.NameMatches` | src/main.rs:198-202 | a name matches a fragment exactly when the folded fragment occurs at some position of the folded name (the same closure appears at lines 187-190 and 218-222) |
| `Resolver.MatchIgnoresAsciiCase` | src/main.rs:199-201 | changing the ASCII case of the fragment or of the name does not change whether they match |
| `Resolver.EmptyFragmentMatches` | src/main.rs:198-202 | the empty fragment matches every name |
| `Resolver.NameMatchesItself` | src/main.rs:198-202 | a name always matches itself |
| `Resolver.VecContains` | src/main.rs:185-193 | `vec_contains` returns an order-preserving subsequence of its input: exactly the strings that contain the fragment case-insensitively, each as often as the input holds it |
| `Resolver.GetFinalNoteType` | src/main.rs:195-213 | if exactly one note type's folded name contains the folded fragment, the result is that note type's id; if none or several do, the result is "" |
| `Resolver.GetFinalCollectionId` | src/main.rs:215-232 | collection resolution is note-type resolution applied to the (id, name) projection of the collections |
| `Resolver.AmbiguousFragmentResolvesToEmpty` | src/main.rs:205-211 | when two candidates match, the result is "" and never one of them |
| `Resolver.EmptyFragmentResolvesSoleCandidate` | src/main.rs:198-211 | an empty fragment resolves to the only candidate's id when there is one, and to "" otherwise |
| `Resolver.ResolutionIgnoresAsciiCase` | src/main.rs:199-201 | resolving with case-changed fragment and names, ids unchanged, gives the same id |
| `Resolver.FullNameResolves` | src/main.rs:195-207 | a candidate's full name resolves to its id when no other candidate's name contains it |
| `Commands.AssembleNote` | src/main.rs:53-83 | covers the posted record: modifiers are empty; the body is the message words joined by single spaces, so it is "" for no words, the word for one, and splits back into the words when they hold no space; `noteType` and `collectionId` are the ids the given fragment or the server default resolves to, or "" when resolution fails |
| `Commands.Option.GetOr` | src/main.rs:65-70 | `unwrap_or`: the `-n`/`-c` fragment when given, otherwise the server default |
| `Commands.UpdateConfig` | src/main.rs:126-153 | a blank line keeps the stored URL (or "" when the stored file did not parse); any other line stores a non-empty URL that is the line without its surrounding whitespace |
| `Commands.UpdateIgnoresLineTerminator` | src/main.rs:143-153 | the newline `read_line` keeps does not change the stored configuration |
| `Commands.UpdateStoresTypedUrl` | src/main.rs:147-151 | a URL typed without surrounding whitespace is stored exactly as typed |
| `Commands.NoteExample` | src/main.rs:46-83 | `note -n Tas -c Wor hello world` against "Task"/"Work" posts body "hello world", note type "1", collection "9" and no modifiers |
| `Commands.ExampleNoteType` | src/main.rs:195-213 | "Tas" resolves to the id of "Task" |
| `Commands.ExampleCollection` | src/main.rs:215-232 | "Wor" resolves to the id of "Work" |
| `Commands.AmbiguousDefaultExample` | src/main.rs:65-75 | a default note type "a" that matches both "Task" and "Idea" is posted as "" |

## Left out

- HTTP: `get_note_types`, `get_note_mods`, `get_collections`, `get_defaults` and the POST to `api/note` are network I/O. Their results are parameters of `AssembleNote`.
- JSON (de)serialisation through serde is a foreign library; the records are modelled as datatypes only.
- Configuration file reading and writing and the home-directory lookup are filesystem I/O. `UpdateConfig` takes the stored configuration as `Option<Config>` and returns the configuration that is written. `None` stands for a file that does not parse. A missing file never reaches that path: `get_config` panics on the failed read (src/main.rs:168-169), although the prompt's message speaks of a missing configuration.
- Reading standard input is I/O. The typed line is a parameter.
- Argument parsing, the `Types` listing and all console output are plumbing.
- `Resolver.VecContains`: `vec_contains` is never called in this revision. It is modelled for its contract only.
- Byte-level `str::contains`: the model searches for the pattern over characters. For valid UTF-8 this gives the same answer as Rust's byte search.
- Modifier extraction and note-type creation do not exist in this revision of `src/main.rs`.
