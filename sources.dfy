/**
 * `LegacyAptSource` and its extraction from parsed `sources.list` files
 * (`LegacyAptSource::get_legacy_sources`).
 *
 * The directory scan and the directive grammar belong to a foreign crate: the
 * scan's result is an input, and `SourceLine::from_str` is a parameter of type
 * `Parser`, about which nothing is assumed.
 */
module AptSources {
  import opened Wrappers
  import opened Text

  /** A directive line as the upstream grammar decodes it. */
  datatype SourceEntry = SourceEntry(
    source: bool,
    options: Option<string>,
    url: string,
    suite: string,
    components: seq<string>)

  /** A classified line of a list file: directive, comment block, or anything else. */
  datatype SourceLine = Entry(entry: SourceEntry) | Comment(text: string) | Other

  /** One scanned file: its path and its lines in order. */
  datatype SourcesFile = SourcesFile(path: string, lines: seq<SourceLine>)

  /** `SourceLine::from_str`: `None` stands for its `Err`. */
  type Parser = string -> Option<SourceLine>

  /** The error `get_legacy_sources` returns: an `io::Error` of kind `Other` wrapping the scan's cause. */
  datatype IoError = IoOther(cause: string)

  /** The flat record the library hands to its callers. The path is compared by exact equality. */
  datatype LegacyAptSource = LegacyAptSource(
    enabled: bool,
    isSource: bool,
    components: string,
    filename: string,
    options: Option<string>,
    suite: string,
    url: string)

  /** The record built from a decoded directive (both struct literals of the extraction loop). */
  function FromEntry(e: SourceEntry, enabled: bool, path: string): LegacyAptSource {
    LegacyAptSource(enabled, e.source, FlattenComponents(e.components), path, e.options, e.suite, e.url)
  }

  /** The guard on a comment sub-line, as written: `#deb` or `#deb-src`. */
  predicate IsDisabledDirective(sub: string) {
    StartsWith(sub, "#deb") || StartsWith(sub, "#deb-src")
  }

  /** The second test of the guard is redundant: it is `starts_with("#deb")` alone. */
  lemma DisabledGuardIsDebPrefix(sub: string)
    ensures IsDisabledDirective(sub) <==> StartsWith(sub, "#deb")
  {
    if StartsWith(sub, "#deb-src") {
      assert sub[..4] == sub[..8][..4];
    }
  }

  /** The records one comment sub-line yields: none, or one disabled record. */
  function SubLineSources(path: string, sub: string, parse: Parser): seq<LegacyAptSource> {
    if IsDisabledDirective(sub) then
      match parse(TrimStartMatches(sub, '#'))
      case Some(Entry(e)) => [FromEntry(e, false, path)]
      case _ => []
    else []
  }

  /** The records the sub-lines of one comment block yield, in order. */
  function CommentSources(path: string, subs: seq<string>, parse: Parser): seq<LegacyAptSource> {
    if subs == [] then []
    else CommentSources(path, subs[..|subs| - 1], parse) + SubLineSources(path, subs[|subs| - 1], parse)
  }

  /** The records one line of a file yields. */
  function LineSources(path: string, line: SourceLine, parse: Parser): seq<LegacyAptSource> {
    match line
    case Entry(e) => [FromEntry(e, true, path)]
    case Comment(text) => CommentSources(path, Lines(text), parse)
    case Other => []
  }

  /** The records a run of lines of the file at `path` yields, in line order. */
  function FileSources(path: string, lines: seq<SourceLine>, parse: Parser): seq<LegacyAptSource> {
    if lines == [] then []
    else FileSources(path, lines[..|lines| - 1], parse) + LineSources(path, lines[|lines| - 1], parse)
  }

  /** The records a sequence of files yields, in file-then-line order. */
  function Extracted(files: seq<SourcesFile>, parse: Parser): seq<LegacyAptSource> {
    if files == [] then []
    else
      var f := files[|files| - 1];
      Extracted(files[..|files| - 1], parse) + FileSources(f.path, f.lines, parse)
  }

  /**
   * `get_legacy_sources`: the scan's error wrapped into `IoOther`, or the
   * records of the scanned files, pushed file by file.
   */
  method GetLegacySources(scan: Result<seq<SourcesFile>, string>, parse: Parser)
    returns (r: Result<seq<LegacyAptSource>, IoError>)
    ensures scan.Failure? ==> r == Failure(IoOther(scan.error))
    ensures scan.Success? ==> r == Success(Extracted(scan.value, parse))
  {
    if scan.Failure? {
      return Failure(IoOther(scan.error));
    }
    var lists := scan.value;
    var sources: seq<LegacyAptSource> := [];
    for i := 0 to |lists|
      invariant sources == Extracted(lists[..i], parse)
    {
      var file := lists[i];
      sources := PushFileSources(sources, file.path, file.lines, parse);
      assert lists[..i + 1][..i] == lists[..i];
    }
    assert lists[..|lists|] == lists;
    return Success(sources);
  }

  /** The loop over the lines of one file: each line's records pushed onto `sources`. */
  method PushFileSources(sources: seq<LegacyAptSource>, path: string, lines: seq<SourceLine>, parse: Parser)
    returns (out: seq<LegacyAptSource>)
    ensures out == sources + FileSources(path, lines, parse)
  {
    out := sources;
    for j := 0 to |lines|
      invariant out == sources + FileSources(path, lines[..j], parse)
    {
      var line := lines[j];
      ghost var before := out;
      ghost var done := FileSources(path, lines[..j], parse);
      ghost var added := LineSources(path, line, parse);
      if line.Entry? {
        out := out + [FromEntry(line.entry, true, path)];
      }
      if line.Comment? {
        out := PushCommentSources(out, path, line.text, parse);
      }
      assert out == before + added;
      FileSourcesStep(path, lines, j, parse);
      AppendAssoc(sources, done, added);
    }
    assert lines[..|lines|] == lines;
  }

  /** One more line extends a file's records by that line's records. */
  lemma FileSourcesStep(path: string, lines: seq<SourceLine>, j: nat, parse: Parser)
    requires j < |lines|
    ensures FileSources(path, lines[..j + 1], parse)
         == FileSources(path, lines[..j], parse) + LineSources(path, lines[j], parse)
  {
    assert lines[..j + 1][..j] == lines[..j];
  }

  /** One more sub-line extends a comment block's records by that sub-line's records. */
  lemma CommentSourcesStep(path: string, subs: seq<string>, k: nat, parse: Parser)
    requires k < |subs|
    ensures CommentSources(path, subs[..k + 1], parse)
         == CommentSources(path, subs[..k], parse) + SubLineSources(path, subs[k], parse)
  {
    assert subs[..k + 1][..k] == subs[..k];
  }

  /** The loop over the sub-lines of one comment block. */
  method PushCommentSources(sources: seq<LegacyAptSource>, path: string, text: string, parse: Parser)
    returns (out: seq<LegacyAptSource>)
    ensures out == sources + CommentSources(path, Lines(text), parse)
  {
    out := sources;
    var comments := Lines(text);
    for k := 0 to |comments|
      invariant out == sources + CommentSources(path, comments[..k], parse)
    {
      var comment := comments[k];
      ghost var before := out;
      if StartsWith(comment, "#deb") || StartsWith(comment, "#deb-src") {
        var parsed := parse(TrimStartMatches(comment, '#'));
        if parsed.Some? && parsed.value.Entry? {
          out := out + [FromEntry(parsed.value.entry, false, path)];
        }
      }
      assert out == before + SubLineSources(path, comment, parse);
      CommentSourcesStep(path, comments, k, parse);
      AppendAssoc(sources, CommentSources(path, comments[..k], parse), SubLineSources(path, comment, parse));
    }
    assert comments[..|comments|] == comments;
  }

  // ---------------------------------------------------------------------------
  // Properties of the extraction

  /** Extraction runs file by file: extracting two runs of files concatenates their records. */
  lemma {:induction false} ExtractedAppend(a: seq<SourcesFile>, b: seq<SourcesFile>, parse: Parser)
    ensures Extracted(a + b, parse) == Extracted(a, parse) + Extracted(b, parse)
    decreases |b|
  {
    if b == [] {
      assert a + b == a;
    } else {
      var f := b[|b| - 1];
      assert (a + b)[..|a + b| - 1] == a + b[..|b| - 1];
      ExtractedAppend(a, b[..|b| - 1], parse);
      AppendAssoc(Extracted(a, parse), Extracted(b[..|b| - 1], parse), FileSources(f.path, f.lines, parse));
    }
  }

  /** The enabled records of a list, in order. */
  function Enabled(rs: seq<LegacyAptSource>): seq<LegacyAptSource> {
    if rs == [] then []
    else Enabled(rs[..|rs| - 1]) + (if rs[|rs| - 1].enabled then [rs[|rs| - 1]] else [])
  }

  /** Reference definition: one enabled record per `Entry` line, in file-then-line order. */
  function EntryRecords(files: seq<SourcesFile>): seq<LegacyAptSource> {
    if files == [] then []
    else
      var f := files[|files| - 1];
      EntryRecords(files[..|files| - 1]) + FileEntryRecords(f.path, f.lines)
  }

  function FileEntryRecords(path: string, lines: seq<SourceLine>): seq<LegacyAptSource> {
    if lines == [] then []
    else
      var line := lines[|lines| - 1];
      FileEntryRecords(path, lines[..|lines| - 1])
        + (if line.Entry? then [FromEntry(line.entry, true, path)] else [])
  }

  lemma {:induction false} EnabledAppend(a: seq<LegacyAptSource>, b: seq<LegacyAptSource>)
    ensures Enabled(a + b) == Enabled(a) + Enabled(b)
    decreases |b|
  {
    if b == [] {
      assert a + b == a;
    } else {
      assert (a + b)[..|a + b| - 1] == a + b[..|b| - 1];
      EnabledAppend(a, b[..|b| - 1]);
    }
  }

  lemma {:induction false} CommentSourcesDisabled(path: string, subs: seq<string>, parse: Parser)
    ensures Enabled(CommentSources(path, subs, parse)) == []
  {
    if subs != [] {
      CommentSourcesDisabled(path, subs[..|subs| - 1], parse);
      EnabledAppend(CommentSources(path, subs[..|subs| - 1], parse),
                    SubLineSources(path, subs[|subs| - 1], parse));
    }
  }

  lemma {:induction false} FileEnabledAccounting(path: string, lines: seq<SourceLine>, parse: Parser)
    ensures Enabled(FileSources(path, lines, parse)) == FileEntryRecords(path, lines)
  {
    if lines != [] {
      var line := lines[|lines| - 1];
      FileEnabledAccounting(path, lines[..|lines| - 1], parse);
      EnabledAppend(FileSources(path, lines[..|lines| - 1], parse), LineSources(path, line, parse));
      match line
      case Entry(e) =>
        assert Enabled([FromEntry(e, true, path)]) == [FromEntry(e, true, path)] by {
          assert [FromEntry(e, true, path)][..0] == [];
        }
      case Comment(text) =>
        CommentSourcesDisabled(path, Lines(text), parse);
      case Other =>
    }
  }

  /**
   * Enabled-record accounting: the enabled records extracted are exactly one
   * per `Entry` line, carrying its fields and its file's path, in
   * file-then-line order; disabled records never disturb them.
   */
  lemma {:induction false} EnabledAccounting(files: seq<SourcesFile>, parse: Parser)
    ensures Enabled(Extracted(files, parse)) == EntryRecords(files)
  {
    if files != [] {
      var f := files[|files| - 1];
      EnabledAccounting(files[..|files| - 1], parse);
      EnabledAppend(Extracted(files[..|files| - 1], parse), FileSources(f.path, f.lines, parse));
      FileEnabledAccounting(f.path, f.lines, parse);
    }
  }

  /** `r` is the disabled record the comment sub-line `sub` of the file at `path` stands for. */
  ghost predicate DisabledOrigin(r: LegacyAptSource, path: string, sub: string, parse: Parser) {
    && StartsWith(sub, "#deb")
    && var parsed := parse(TrimStartMatches(sub, '#'));
    && parsed.Some? && parsed.value.Entry?
    && r == FromEntry(parsed.value.entry, false, path)
  }

  /** `r` is a record the line `line` of the file at `path` stands for. */
  ghost predicate LineOrigin(r: LegacyAptSource, path: string, line: SourceLine, parse: Parser) {
    match line
    case Entry(e) => r == FromEntry(e, true, path)
    case Comment(text) => exists sub :: sub in Lines(text) && DisabledOrigin(r, path, sub, parse)
    case Other => false
  }

  /** `r` is a record some line of some file in `files` stands for. */
  ghost predicate ExtractedFrom(r: LegacyAptSource, files: seq<SourcesFile>, parse: Parser) {
    exists f, line :: f in files && line in f.lines && LineOrigin(r, f.path, line, parse)
  }

  lemma {:induction false} SubLineMembership(r: LegacyAptSource, path: string, sub: string, parse: Parser)
    ensures r in SubLineSources(path, sub, parse) <==> DisabledOrigin(r, path, sub, parse)
  {
    DisabledGuardIsDebPrefix(sub);
  }

  lemma {:induction false} CommentMembership(r: LegacyAptSource, path: string, subs: seq<string>, parse: Parser)
    ensures r in CommentSources(path, subs, parse) <==> exists sub :: sub in subs && DisabledOrigin(r, path, sub, parse)
  {
    if subs != [] {
      var init, last := subs[..|subs| - 1], subs[|subs| - 1];
      assert subs == init + [last];
      assert r in CommentSources(path, subs, parse) ==> exists sub :: sub in subs && DisabledOrigin(r, path, sub, parse) by {
        if r in CommentSources(path, subs, parse) {
          if r in CommentSources(path, init, parse) {
            CommentMembership(r, path, init, parse);
            var sub :| sub in init && DisabledOrigin(r, path, sub, parse);
            assert sub in subs;
          } else {
            SubLineMembership(r, path, last, parse);
            assert last in subs;
          }
        }
      }
      assert (exists sub :: sub in subs && DisabledOrigin(r, path, sub, parse)) ==> r in CommentSources(path, subs, parse) by {
        if exists sub :: sub in subs && DisabledOrigin(r, path, sub, parse) {
          var sub :| sub in subs && DisabledOrigin(r, path, sub, parse);
          if sub != last {
            assert sub in init;
            CommentMembership(r, path, init, parse);
          } else {
            SubLineMembership(r, path, last, parse);
          }
        }
      }
    }
  }

  lemma {:induction false} LineMembership(r: LegacyAptSource, path: string, line: SourceLine, parse: Parser)
    ensures r in LineSources(path, line, parse) <==> LineOrigin(r, path, line, parse)
  {
    if line.Comment? {
      CommentMembership(r, path, Lines(line.text), parse);
    }
  }

  lemma {:induction false} FileMembership(r: LegacyAptSource, path: string, lines: seq<SourceLine>, parse: Parser)
    ensures r in FileSources(path, lines, parse) <==> exists line :: line in lines && LineOrigin(r, path, line, parse)
  {
    if lines != [] {
      var init, last := lines[..|lines| - 1], lines[|lines| - 1];
      assert lines == init + [last];
      assert r in FileSources(path, lines, parse) ==> exists line :: line in lines && LineOrigin(r, path, line, parse) by {
        if r in FileSources(path, lines, parse) {
          if r in FileSources(path, init, parse) {
            FileMembership(r, path, init, parse);
            var line :| line in init && LineOrigin(r, path, line, parse);
            assert line in lines;
          } else {
            LineMembership(r, path, last, parse);
            assert last in lines;
          }
        }
      }
      assert (exists line :: line in lines && LineOrigin(r, path, line, parse)) ==> r in FileSources(path, lines, parse) by {
        if exists line :: line in lines && LineOrigin(r, path, line, parse) {
          var line :| line in lines && LineOrigin(r, path, line, parse);
          if line != last {
            assert line in init;
            FileMembership(r, path, init, parse);
          } else {
            LineMembership(r, path, last, parse);
          }
        }
      }
    }
  }

  /**
   * Provenance and completeness: a record is extracted iff some line of some
   * file stands for it: an `Entry` line (enabled), or a comment sub-line
   * starting with `#deb` whose `#`-stripped text parses as an `Entry`
   * (disabled). Any other line stands for nothing.
   */
  lemma {:induction false} ExtractedMembership(r: LegacyAptSource, files: seq<SourcesFile>, parse: Parser)
    ensures r in Extracted(files, parse) <==> ExtractedFrom(r, files, parse)
  {
    if files != [] {
      var init, last := files[..|files| - 1], files[|files| - 1];
      assert files == init + [last];
      assert r in Extracted(files, parse) ==> ExtractedFrom(r, files, parse) by {
        if r in Extracted(files, parse) {
          if r in Extracted(init, parse) {
            ExtractedMembership(r, init, parse);
            var f, line :| f in init && line in f.lines && LineOrigin(r, f.path, line, parse);
            assert f in files;
          } else {
            FileMembership(r, last.path, last.lines, parse);
            var line :| line in last.lines && LineOrigin(r, last.path, line, parse);
            assert last in files;
          }
        }
      }
      assert ExtractedFrom(r, files, parse) ==> r in Extracted(files, parse) by {
        if ExtractedFrom(r, files, parse) {
          var f, line :| f in files && line in f.lines && LineOrigin(r, f.path, line, parse);
          if f != last {
            assert f in init;
            ExtractedMembership(r, init, parse);
          } else {
            FileMembership(r, last.path, last.lines, parse);
          }
        }
      }
    }
  }

  /** A comment without a line break yields what its one sub-line yields; an empty one yields nothing. */
  lemma CommentLineSources(path: string, text: string, parse: Parser)
    requires '\n' !in text
    ensures LineSources(path, Comment(text), parse)
         == if StartsWith(text, "#deb") then
              match parse(TrimStartMatches(text, '#'))
              case Some(Entry(e)) => [FromEntry(e, false, path)]
              case _ => []
            else []
  {
    if text == [] {
      assert Lines(text) == [];
    } else {
      LinesOfUnterminated(text);
      DisabledGuardIsDebPrefix(text);
      assert [text][..0] == [];
      assert CommentSources(path, [text], parse) == [] + SubLineSources(path, text, parse);
      assert [] + SubLineSources(path, text, parse) == SubLineSources(path, text, parse);
    }
  }

  /**
   * A one-line comment `#` + `body`, where `body` starts with `deb`, yields
   * exactly what re-parsing `body` yields, as a disabled record.
   */
  lemma CommentedDirective(path: string, body: string, parse: Parser)
    requires StartsWith(body, "deb") && '\n' !in body
    ensures LineSources(path, Comment("#" + body), parse)
         == match parse(body)
            case Some(Entry(e)) => [FromEntry(e, false, path)]
            case _ => []
  {
    var text := "#" + body;
    assert '\n' !in text;
    CommentLineSources(path, text, parse);
    assert StartsWith(text, "#deb") by {
      assert text[..4] == "#" + body[..3];
    }
    assert TrimStartMatches(text, '#') == body by {
      assert text[1..] == body;
      assert body[0] == body[..3][0] == 'd';
    }
  }
}
