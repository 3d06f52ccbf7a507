# legacy-apt-list-tools, modelled in Dafny

`legacy-apt-list-tools-rs` reads the one-line ("legacy") APT source lists,
the `sources.list` format. It flattens every directive it finds into a
`LegacyAptSource` record. That includes directives disabled by a leading `#`.
It can then write the records that belong to one list file back out as text.
It has two ways to do that:

- `save_to_apt` replaces that file on disk;
- `save_to_file` asks `pkexec bash -c "echo -e … > path"` to write the text somewhere else.

The project models the library file `src/lib.rs`:

- `wrappers.dfy` holds the `Option` and `Result` datatypes.
- `text.dfy` (module `Text`) holds the parts of Rust's `str` API that the library calls. Each is given its exact semantics:
  - `lines()`, which splits on `\n`, drops one `\r` before it, and yields no final empty piece;
  - `trim()` over Unicode `White_Space`;
  - `trim_start_matches`, `starts_with` and `replace`;
  - the map/collect/trim that flattens the components.

  It also holds `Split` (modelled on `split(' ')`), `EndsWith` and `Join`. The library never calls these. They serve only to state properties of the rendered text.
- `sources.dfy` (module `AptSources`) holds the record, the decoded-line types and the extraction:
  - functional specification functions, one per loop level;
  - three imperative methods that run the source's nested loops and are proved equal to those functions.
- `serialise.dfy` (module `Serialise`) holds the shared text rendering and the selection loop. It also holds both save operations:
  - `save_to_apt` acts on a `Disk` class whose `files` map stands for the filesystem;
  - `save_to_file` returns the `pkexec` command it would spawn.

The directory scan and the directive grammar (`SourcesLists::scan` and `SourceLine::from_str`) belong to the `apt-sources-lists` crate. The scan's result is an input of `GetLegacySources`. The parser is a parameter of type `string -> Option<SourceLine>`, where `None` stands for `Err`. Nothing is assumed about it, so every property below holds for any grammar.

## Model

| member | source | states |
|---|---|---|
| AptSources.GetLegacySources | src/lib.rs:16-60 | A scan error comes back as `IoOther` carrying that error. Otherwise the result is `Success` of the records of every file in file-then-line order (`Extracted`). |
| AptSources.PushFileSources | src/lib.rs:20-57 | One file's inner loop appends exactly `FileSources` of that file's lines to the records pushed so far. Enabled directives and comment blocks are handled in line order. |
| AptSources.PushCommentSources | src/lib.rs:33-55 | A comment block's loop over its `lines()` appends exactly `CommentSources` of those lines. |
| AptSources.DisabledGuardIsDebPrefix | src/lib.rs:36 | The guard `starts_with("#deb") \|\| starts_with("#deb-src")` holds exactly when `starts_with("#deb")` holds, so its second test is redundant. |
| AptSources.ExtractedAppend | src/lib.rs:19-58 | Extraction distributes over concatenating the scanned file lists: each file contributes its records independently and in order. |
| AptSources.EnabledAccounting | src/lib.rs:19-32 | The enabled records extracted are exactly one record per `Entry` line, in the order of files and lines. Each carries that file's path and the entry's flag, options, suite, url and flattened components. |
| AptSources.ExtractedMembership | src/lib.rs:19-58 | A record is extracted if and only if it comes from somewhere. It is either an enabled record of some `Entry` line, or a disabled record of some comment sub-line. That sub-line starts with `#deb`, and the parser, given the sub-line with its leading `#`s stripped, returns an `Entry` that the record copies. |
| AptSources.CommentLineSources | src/lib.rs:33-55 | A comment without a newline, the empty one included, yields nothing when it does not start with `#deb`. When it does start with `#deb`, it yields one disabled record exactly when the parser decodes the `#`-stripped text as an `Entry`. |
| AptSources.CommentedDirective | src/lib.rs:36-50 | Commenting out a single directive line `deb…` with one `#` gives a comment. That comment yields the disabled record of the parse of the uncommented line, or nothing when the parse fails or is not an entry. |
| Text.TrimStartMatches | src/lib.rs:37 | `trim_start_matches('#')` removes a prefix made only of `#` and leaves a text that does not start with `#`. |
| Text.Lines | src/lib.rs:34 | No piece that `str::lines` yields contains a `\n`. |
| Text.LinesAppend | src/lib.rs:34 | When the first text is empty or ends in `\n`, the lines of a concatenation are the lines of each part, in order. |
| Text.Trim | src/lib.rs:25 | `trim()` never lengthens its input, and the result neither starts nor ends with Unicode whitespace. |
| Text.TrimPadded | src/lib.rs:25 | Trimming a text made of whitespace, then a core that is empty or has non-white ends, then whitespace, gives the core. |
| Text.FlattenComponents | src/lib.rs:25 | The flattened components string neither starts nor ends with whitespace. |
| Text.FlattenIsSpaceJoin | src/lib.rs:43 | If the component list is non-empty and each component is non-empty with non-white ends, the flattened string is the components joined by single spaces. |
| Text.EscapeNewlines | src/lib.rs:120 | Replacing `\n` with the three characters `\`, `\`, `n` leaves no `\n`. It adds exactly two characters per newline. It changes nothing when there is no newline. |
| Text.EscapeRoundTrip | src/lib.rs:120 | When the text holds no backslash, the escape can be undone: unescaping gives back the original text. |
| Serialise.PrefixTotal | src/lib.rs:71-76 | The prefix is defined for all four combinations of flags and is one of `deb`, `deb-src`, `#deb` or `#deb-src`. It starts with `#` exactly when the record is disabled, and it ends in `-src` exactly when the record is a source record. |
| Serialise.RenderLine | src/lib.rs:77-84 | Every rendered record line is non-empty and ends in `\n`. |
| Serialise.LineFields | src/lib.rs:77-84 | When url, suite and options hold no space, splitting a rendered line's text before its `\n` on spaces gives the prefix, then `[options]` when options are present, then url, suite and the components' own words. |
| Serialise.OptionsClause | src/lib.rs:77-84 | When url, suite and components hold no `[`, a rendered line contains `[` exactly when the record has options. |
| Serialise.DisabledLineStrips | src/lib.rs:71-84 | A disabled record's line is `#` followed by the same record's line when enabled. It starts with `#deb`, and `trim_start_matches('#')` turns it into the enabled line. |
| Serialise.RenderedDisabledLineExtracts | src/lib.rs:36-50 | When the extraction loop meets a disabled record's rendered line as a comment, it passes the parser that record's enabled line. It then yields the disabled record of that parse, or nothing when the parse is not an entry. |
| Serialise.RenderAllAppend | src/lib.rs:70-85 | The rendered output of two record lists concatenated is the concatenation of their outputs. |
| Serialise.RenderAllLines | src/lib.rs:70-85 | The output is the empty string for no records. When no field holds a line break, `lines()` of the output gives back exactly one text line per record, in order. |
| Serialise.SameListMembers | src/lib.rs:65-69 | The selection is never longer than the list. Every selected record has the target's filename, and every record of the list with that filename is selected. |
| Serialise.SameListIsSubsequence | src/lib.rs:65-69 | The selection is the list's records at exactly the indices whose filename matches, in increasing order. |
| Serialise.MatchingIndicesExact | src/lib.rs:65-69 | The matching indices are in bounds and strictly increasing, and an index is among them if and only if the record there has the filename. |
| Serialise.SameListIdempotent | src/lib.rs:65-69 | Selecting again by the same filename changes nothing. |
| Serialise.SameListAppend | src/lib.rs:65-69 | Selection distributes over concatenating lists. |
| Serialise.SelectSameList | src/lib.rs:63-69 | The filtering loop returns exactly `SameList` of the list for the target's filename. |
| Serialise.RenderLines | src/lib.rs:64-85 | The rendering loop returns exactly the concatenation of the records' rendered lines (`RenderAll`). |
| Serialise.Render | src/lib.rs:62-85 | The text both save operations build is the rendering of the records that share the target's file. |
| Serialise.SaveToApt | src/lib.rs:62-92 | Afterwards the target's file holds exactly the rendered same-file records, whether or not it existed before. No other file changes. |
| Serialise.ShellLine | src/lib.rs:120 | The shell command line contains no `\n` when the destination path has none. Its length is the text's length, plus two per newline, plus the 11 characters of `echo -e ` and ` > `, plus the path's length. |
| Serialise.ShellPayload | src/lib.rs:120 | The payload between `echo -e ` and ` > path` is the escaped text. It contains no newline, and when the text holds no backslash it unescapes back to the text. |
| Serialise.SaveToFile | src/lib.rs:93-123 | The command spawned is `pkexec bash -c "echo -e <escaped output> > <filepath>"`. The output is the same rendering that `save_to_apt` writes. |

## Left out

- `SourcesLists::scan` is not modelled. It walks `/etc/apt/sources.list*` in a foreign crate. Its result, or its error text, is an input of `GetLegacySources`.
- `SourceLine::from_str` and the `SourceEntry` grammar are not modelled. They are a parameter (`Parser`), so no claim depends on how a directive is decoded.
- Serialise.RenderedDisabledLineExtracts: this is not a full render-then-extract round trip. The library's parse of its own output depends on the foreign grammar, so the lemma stops at the text handed to the parser.
- Serialise.SaveToApt: the `?` error paths of `remove_file`, `File::create` and `write_all` (permissions, I/O failure) are not modelled. The `Disk` methods always succeed.
- Paths are compared as plain strings. `PathBuf` equality compares path components, so `a//b` and `a/b` count as equal in the source but not in the model.
- Serialise.SaveToFile: spawning `pkexec`, waiting for it, and its exit status are not modelled. The model returns the command instead. How `bash` and `echo -e` read the payload is not modelled either: word splitting, backslash escapes, and an unquoted first word `#deb…` starting a comment.
- The byte encoding of `as_bytes()` is not modelled. File contents are kept as Unicode strings.
- The newline escape is three characters (`\`, `\`, `n`), as the code at `src/lib.rs:120` writes it.
- Single-line examples such as `#deb http://example.com stable main` get no lemma of their own. They are instances of `AptSources.CommentedDirective` and `AptSources.CommentLineSources`.
