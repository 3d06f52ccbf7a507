/**
 * Writing records back: `LegacyAptSource::save_to_apt` and
 * `LegacyAptSource::save_to_file`. Both keep the records of the target's file,
 * render each as one `sources.list` line and concatenate the lines; the first
 * writes the text over the target's own file, the second hands it, with its
 * newlines escaped, to a privileged shell that writes it to another path.
 */
module Serialise {
  import opened Wrappers
  import opened Text
  import opened AptSources

  // ---------------------------------------------------------------------------
  // Rendering one record

  /** The line prefix for each (enabled, is-source) pair. */
  function Prefix(enabled: bool, isSource: bool): string {
    match (enabled, isSource)
    case (true, true) => "deb-src"
    case (true, false) => "deb"
    case (false, true) => "#deb-src"
    case (false, false) => "#deb"
  }

  /**
   * Prefix totality: every pair gets one of the four prefixes; a disabled
   * record is marked by a leading `#` and a source record by the `-src`
   * suffix, so the prefix determines the pair.
   */
  lemma PrefixTotal(enabled: bool, isSource: bool)
    ensures var p := Prefix(enabled, isSource);
            && (p == "deb-src" || p == "deb" || p == "#deb-src" || p == "#deb")
            && (StartsWith(p, "#") <==> !enabled)
            && (EndsWith(p, "-src") <==> isSource)
  {
    var p := Prefix(enabled, isSource);
    assert StartsWith(p, "#") <==> p[0] == '#';
    if isSource {
      assert p[|p| - 4..] == "-src";
    } else {
      assert p[|p| - 1] == 'b';
    }
  }

  /** The text of the line a record renders to, before its newline: its prefix, then its fields. */
  function LineText(src: LegacyAptSource): string {
    Prefix(src.enabled, src.isSource) + Fields(src)
  }

  /** What follows the prefix: ` [options]` when set, then ` url suite components`. */
  function Fields(src: LegacyAptSource): string {
    match src.options
    case Some(t) => " " + (Clause(t) + Locator(src))
    case None => Locator(src)
  }

  /** The options clause `[t]`. */
  function Clause(t: string): string {
    "[" + t + "]"
  }

  /** ` url suite components` (grouped to the right, which does not change the text). */
  function Locator(src: LegacyAptSource): string {
    " " + (src.url + (" " + (src.suite + (" " + src.components))))
  }

  /** The `format!` of one record: its line, newline-terminated, led by its prefix. */
  function RenderLine(src: LegacyAptSource): (line: string)
    ensures |line| > 0 && line[|line| - 1] == '\n'
  {
    LineText(src) + "\n"
  }

  /** The space-separated fields a record's line starts with, before its components. */
  function HeadFields(src: LegacyAptSource): seq<string> {
    [Prefix(src.enabled, src.isSource)]
      + (match src.options case Some(t) => [Clause(t)] case None => [])
      + [src.url, src.suite]
  }

  /** No field of the record holds a space (its components string aside). */
  predicate SpaceFreeFields(src: LegacyAptSource) {
    && ' ' !in src.url && ' ' !in src.suite
    && (src.options.Some? ==> ' ' !in src.options.value)
  }

  /** No prefix holds a space, a bracket or a line break. */
  lemma PrefixChars(enabled: bool, isSource: bool)
    ensures var p := Prefix(enabled, isSource);
            ' ' !in p && '[' !in p && '\n' !in p && '\r' !in p
  {
    var p := Prefix(enabled, isSource);
    assert forall i :: 0 <= i < |p| ==> p[i] in "#deb-src";
  }

  /**
   * Line format: splitting a rendered line at single spaces gives back the
   * prefix, the `[options]` clause exactly when options are set, the url, the
   * suite, and then the words of the components string, in that order.
   */
  lemma LineFields(src: LegacyAptSource)
    requires SpaceFreeFields(src)
    ensures Split(LineText(src), ' ') == HeadFields(src) + Split(src.components, ' ')
  {
    var prefix := Prefix(src.enabled, src.isSource);
    PrefixChars(src.enabled, src.isSource);
    var comps := Split(src.components, ' ');
    var tail := src.suite + (" " + src.components);
    SplitAtFirst(src.suite, ' ', src.components);
    var rest := src.url + (" " + tail);
    SplitAtFirst(src.url, ' ', tail);
    var words := [src.url] + ([src.suite] + comps);
    assert Split(rest, ' ') == words;
    var opt: seq<string> := match src.options case Some(t) => [Clause(t)] case None => [];
    assert [src.url, src.suite] == [src.url] + [src.suite];
    AppendAssoc([src.url], [src.suite], comps);
    AppendAssoc([prefix] + opt, [src.url, src.suite], comps);
    AppendAssoc([prefix], opt, words);
    assert HeadFields(src) + comps == [prefix] + (opt + words);
    match src.options
    case Some(t) =>
      var clause := Clause(t);
      assert ' ' !in clause;
      SplitAtFirst(clause, ' ', rest);
      SplitAtFirst(prefix, ' ', clause + (" " + rest));
    case None =>
      SplitAtFirst(prefix, ' ', rest);
      assert opt + words == words;
  }

  /** Options presence: with no `[` in its other fields, a line holds `[` iff options are set. */
  lemma OptionsClause(src: LegacyAptSource)
    requires '[' !in src.url && '[' !in src.suite && '[' !in src.components
    ensures '[' in RenderLine(src) <==> src.options.Some?
  {
    var prefix := Prefix(src.enabled, src.isSource);
    PrefixChars(src.enabled, src.isSource);
    assert '[' !in Locator(src);
    match src.options
    case Some(t) =>
      assert Fields(src)[1] == '[';
      assert RenderLine(src)[|prefix| + 1] == Fields(src)[1];
    case None =>
      assert '[' !in LineText(src);
  }

  /** The disabled prefixes are the enabled ones behind one `#`. */
  lemma DisabledPrefix(isSource: bool)
    ensures Prefix(false, isSource) == "#" + Prefix(true, isSource)
    ensures StartsWith(Prefix(true, isSource), "deb")
  {
  }

  /**
   * Stripping the leading `#` characters of a rendered disabled line gives
   * the line of the same record enabled; so the disabled line passes the
   * extractor's `#deb` test.
   */
  lemma DisabledLineStrips(src: LegacyAptSource)
    requires !src.enabled
    ensures LineText(src) == "#" + LineText(src.(enabled := true))
    ensures StartsWith(LineText(src.(enabled := true)), "deb")
    ensures StartsWith(RenderLine(src), "#deb")
    ensures TrimStartMatches(RenderLine(src), '#') == RenderLine(src.(enabled := true))
  {
    var on := src.(enabled := true);
    DisabledLineText(src);
    var onLine := RenderLine(on);
    assert RenderLine(src) == "#" + onLine by {
      AppendAssoc("#", LineText(on), "\n");
    }
    assert StartsWith(onLine, "deb") by {
      StartsWithAppend(LineText(on), "\n", "deb");
    }
    HashBeforeDeb(onLine);
  }

  /** The text of a disabled line is `#` before the text of the enabled one, which starts with `deb`. */
  lemma DisabledLineText(src: LegacyAptSource)
    requires !src.enabled
    ensures LineText(src) == "#" + LineText(src.(enabled := true))
    ensures StartsWith(LineText(src.(enabled := true)), "deb")
  {
    var on := src.(enabled := true);
    var p := Prefix(true, src.isSource);
    DisabledPrefix(src.isSource);
    assert Fields(src) == Fields(on);
    AppendAssoc("#", p, Fields(on));
    StartsWithAppend(p, Fields(on), "deb");
  }

  /** A line starting with `deb`, behind one `#`: passes the `#deb` test and trims back to itself. */
  lemma HashBeforeDeb(line: string)
    requires StartsWith(line, "deb")
    ensures StartsWith("#" + line, "#deb")
    ensures TrimStartMatches("#" + line, '#') == line
  {
    var h := ['#'] + line;
    assert h == "#" + line;
    assert h[..4] == ['#'] + line[..3];
    assert line[0] == line[..3][0] == 'd';
    TrimStartMatchesOne('#', line);
  }

  // ---------------------------------------------------------------------------
  // Rendering a list and reading it back

  /** The rendered text of a list of records: their lines, in order, and nothing else. */
  function RenderAll(rs: seq<LegacyAptSource>): string {
    if rs == [] then [] else RenderAll(rs[..|rs| - 1]) + RenderLine(rs[|rs| - 1])
  }

  /** The line texts of a list of records, in order. */
  function LineTexts(rs: seq<LegacyAptSource>): seq<string> {
    if rs == [] then [] else LineTexts(rs[..|rs| - 1]) + [LineText(rs[|rs| - 1])]
  }

  /** No field of the record holds a line break. */
  predicate NoLineBreaks(src: LegacyAptSource) {
    && '\n' !in src.url && '\n' !in src.suite && '\n' !in src.components
    && '\r' !in src.url && '\r' !in src.suite && '\r' !in src.components
    && (src.options.Some? ==> '\n' !in src.options.value && '\r' !in src.options.value)
  }

  lemma LineTextNoBreaks(src: LegacyAptSource)
    requires NoLineBreaks(src)
    ensures '\n' !in LineText(src) && '\r' !in LineText(src)
  {
    PrefixChars(src.enabled, src.isSource);
    assert '\n' !in Locator(src) && '\r' !in Locator(src);
    assert '\n' !in Fields(src) && '\r' !in Fields(src);
  }

  lemma {:induction false} RenderAllAppend(a: seq<LegacyAptSource>, b: seq<LegacyAptSource>)
    ensures RenderAll(a + b) == RenderAll(a) + RenderAll(b)
    decreases |b|
  {
    if b == [] {
      assert a + b == a;
    } else {
      assert (a + b)[..|a + b| - 1] == a + b[..|b| - 1];
      RenderAllAppend(a, b[..|b| - 1]);
      AppendAssoc(RenderAll(a), RenderAll(b[..|b| - 1]), RenderLine(b[|b| - 1]));
    }
  }

  lemma {:induction false} RenderAllTerminated(rs: seq<LegacyAptSource>)
    ensures RenderAll(rs) == [] || RenderAll(rs)[|RenderAll(rs)| - 1] == '\n'
  {
  }

  /**
   * The output is the concatenation of the lines: read back with `lines()`,
   * the rendered text of records without line breaks in their fields gives
   * exactly their lines, one per record, in order; no records give "".
   */
  lemma {:induction false} RenderAllLines(rs: seq<LegacyAptSource>)
    requires forall k :: 0 <= k < |rs| ==> NoLineBreaks(rs[k])
    ensures Lines(RenderAll(rs)) == LineTexts(rs)
    ensures rs == [] ==> RenderAll(rs) == []
  {
    if rs != [] {
      var init, last := rs[..|rs| - 1], rs[|rs| - 1];
      RenderAllLines(init);
      RenderAllTerminated(init);
      LinesAppend(RenderAll(init), RenderLine(last));
      LineTextNoBreaks(last);
      LinesOfTerminated(LineText(last));
    }
  }

  /**
   * A rendered disabled line, read back as a one-line comment, yields exactly
   * what re-parsing the rendered line of the same record enabled yields,
   * as a disabled record: the grammar is never applied to anything else.
   */
  lemma RenderedDisabledLineExtracts(src: LegacyAptSource, path: string, parse: Parser)
    requires !src.enabled && NoLineBreaks(src)
    ensures LineSources(path, Comment(LineText(src)), parse)
         == match parse(LineText(src.(enabled := true)))
            case Some(Entry(e)) => [FromEntry(e, false, path)]
            case _ => []
  {
    var on := src.(enabled := true);
    DisabledLineStrips(src);
    LineTextNoBreaks(on);
    CommentedDirective(path, LineText(on), parse);
  }

  // ---------------------------------------------------------------------------
  // Selecting the target's records

  /** The records whose path is `filename`, in input order. */
  function SameList(list: seq<LegacyAptSource>, filename: string): seq<LegacyAptSource> {
    if list == [] then []
    else
      var last := list[|list| - 1];
      SameList(list[..|list| - 1], filename) + (if last.filename == filename then [last] else [])
  }

  /**
   * Filter exactness by membership: the selection is no longer than the input,
   * holds only input records with path `filename`, and holds every one of them.
   */
  lemma {:induction false} SameListMembers(list: seq<LegacyAptSource>, filename: string)
    ensures var r := SameList(list, filename);
            && |r| <= |list|
            && (forall x :: x in r ==> x in list && x.filename == filename)
            && (forall x :: x in list && x.filename == filename ==> x in r)
  {
    if list != [] {
      var init, last := list[..|list| - 1], list[|list| - 1];
      SameListMembers(init, filename);
      assert list == init + [last];
    }
  }

  /** The positions of the records whose path is `filename`. */
  function MatchingIndices(list: seq<LegacyAptSource>, filename: string): seq<nat> {
    if list == [] then []
    else
      MatchingIndices(list[..|list| - 1], filename)
        + (if list[|list| - 1].filename == filename then [|list| - 1] else [])
  }

  /** The positions are exactly those whose record has path `filename`, in increasing order. */
  lemma {:induction false} MatchingIndicesExact(list: seq<LegacyAptSource>, filename: string)
    ensures var idx := MatchingIndices(list, filename);
            && (forall k :: 0 <= k < |idx| ==> idx[k] < |list|)
            && (forall k, l :: 0 <= k < l < |idx| ==> idx[k] < idx[l])
            && (forall i :: 0 <= i < |list| ==> (i in idx <==> list[i].filename == filename))
  {
    if list != [] {
      var n := |list|;
      var init, last := list[..n - 1], list[n - 1];
      MatchingIndicesExact(init, filename);
      var idx0, idx := MatchingIndices(init, filename), MatchingIndices(list, filename);
      assert n - 1 !in idx0;
      assert forall i :: 0 <= i < n - 1 ==> list[i] == init[i];
      if last.filename == filename {
        assert idx == idx0 + [n - 1];
        assert forall i :: i in idx <==> i in idx0 || i == n - 1;
      } else {
        assert idx == idx0;
      }
    }
  }

  /**
   * Filter exactness: the selection is the subsequence of the input at the
   * strictly increasing positions whose record has path `filename`, and at
   * no other position, so input order is kept.
   */
  lemma {:induction false} SameListIsSubsequence(list: seq<LegacyAptSource>, filename: string)
    ensures var idx, same := MatchingIndices(list, filename), SameList(list, filename);
            && |idx| == |same|
            && (forall k :: 0 <= k < |idx| ==> idx[k] < |list| && same[k] == list[idx[k]])
            && (forall k, l :: 0 <= k < l < |idx| ==> idx[k] < idx[l])
            && (forall i :: 0 <= i < |list| ==> (i in idx <==> list[i].filename == filename))
  {
    MatchingIndicesExact(list, filename);
    SameListAtIndices(list, filename);
  }

  lemma {:induction false} SameListAtIndices(list: seq<LegacyAptSource>, filename: string)
    ensures var idx, same := MatchingIndices(list, filename), SameList(list, filename);
            && |idx| == |same|
            && (forall k :: 0 <= k < |idx| ==> idx[k] < |list| && same[k] == list[idx[k]])
  {
    if list != [] {
      var n := |list|;
      var init, last := list[..n - 1], list[n - 1];
      SameListAtIndices(init, filename);
      var idx0, same0 := MatchingIndices(init, filename), SameList(init, filename);
      if last.filename == filename {
        AtIndicesStep(init, last, idx0, same0, [n - 1], [last]);
      } else {
        AtIndicesStep(init, last, idx0, same0, [], []);
      }
    }
  }

  /** One record appended to a list extends the index/selection pairing by at most its own position. */
  lemma AtIndicesStep(init: seq<LegacyAptSource>, last: LegacyAptSource, idx0: seq<nat>, same0: seq<LegacyAptSource>,
                      i1: seq<nat>, s1: seq<LegacyAptSource>)
    requires |idx0| == |same0|
    requires forall k :: 0 <= k < |idx0| ==> idx0[k] < |init| && same0[k] == init[idx0[k]]
    requires (i1 == [|init|] && s1 == [last]) || (i1 == [] && s1 == [])
    ensures var list, idx, same := init + [last], idx0 + i1, same0 + s1;
            && |idx| == |same|
            && (forall k :: 0 <= k < |idx| ==> idx[k] < |list| && same[k] == list[idx[k]])
  {
    var list, idx, same := init + [last], idx0 + i1, same0 + s1;
    forall k | 0 <= k < |idx|
      ensures idx[k] < |list| && same[k] == list[idx[k]]
    {
      if k < |idx0| {
        assert idx[k] == idx0[k] && same[k] == same0[k];
        assert list[idx0[k]] == init[idx0[k]];
      }
    }
  }

  /** Selecting again from a selection changes nothing. */
  lemma {:induction false} SameListIdempotent(list: seq<LegacyAptSource>, filename: string)
    ensures SameList(SameList(list, filename), filename) == SameList(list, filename)
  {
    if list != [] {
      var init, last := list[..|list| - 1], list[|list| - 1];
      SameListIdempotent(init, filename);
      SameListAppend(SameList(init, filename), if last.filename == filename then [last] else [], filename);
    }
  }

  /** Selection distributes over concatenation. */
  lemma {:induction false} SameListAppend(a: seq<LegacyAptSource>, b: seq<LegacyAptSource>, filename: string)
    ensures SameList(a + b, filename) == SameList(a, filename) + SameList(b, filename)
    decreases |b|
  {
    if b == [] {
      assert a + b == a;
    } else {
      var last := b[|b| - 1];
      assert (a + b)[..|a + b| - 1] == a + b[..|b| - 1];
      SameListAppend(a, b[..|b| - 1], filename);
      AppendAssoc(SameList(a, filename), SameList(b[..|b| - 1], filename),
                  if last.filename == filename then [last] else []);
    }
  }

  // ---------------------------------------------------------------------------
  // The shared render step of both save functions

  /** The first loop of both save functions: push the records of the target's file. */
  method SelectSameList(target: LegacyAptSource, list: seq<LegacyAptSource>)
    returns (same: seq<LegacyAptSource>)
    ensures same == SameList(list, target.filename)
  {
    same := [];
    for i := 0 to |list|
      invariant same == SameList(list[..i], target.filename)
    {
      var source := list[i];
      if source.filename == target.filename {
        same := same + [source];
      }
      assert list[..i + 1][..i] == list[..i];
    }
    assert list[..|list|] == list;
  }

  /** The second loop: `push_str` the rendered line of each record. */
  method RenderLines(sources: seq<LegacyAptSource>) returns (output: string)
    ensures output == RenderAll(sources)
  {
    output := [];
    for i := 0 to |sources|
      invariant output == RenderAll(sources[..i])
    {
      var source := sources[i];
      output := output + RenderLine(source);
      assert sources[..i + 1][..i] == sources[..i];
    }
    assert sources[..|sources|] == sources;
  }

  /** What both save functions compute before writing: the target file's text. */
  method Render(target: LegacyAptSource, list: seq<LegacyAptSource>) returns (output: string)
    ensures output == RenderAll(SameList(list, target.filename))
  {
    var same := SelectSameList(target, list);
    output := RenderLines(same);
  }

  // ---------------------------------------------------------------------------
  // Writing

  /** The files on disk, by path: what `Path::exists`, `fs::remove_file`, `File::create` and `write_all` act on. */
  class Disk {
    var files: map<string, string>

    constructor (files: map<string, string>)
      ensures this.files == files
    {
      this.files := files;
    }

    predicate Exists(path: string)
      reads this
    {
      path in files
    }

    /** `fs::remove_file`: the file is gone; `ok` tells whether it was there. */
    method RemoveFile(path: string) returns (ok: bool)
      modifies this
      ensures ok == (path in old(files))
      ensures files == old(files) - {path}
    {
      ok := path in files;
      files := files - {path};
    }

    /** `File::create`: the file exists and is empty. */
    method Create(path: string)
      modifies this
      ensures files == old(files)[path := []]
    {
      files := files[path := []];
    }

    /** `write_all` on a handle at the end of the file: `data` appended. */
    method WriteAll(path: string, data: string)
      requires path in files
      modifies this
      ensures files == old(files)[path := old(files)[path] + data]
    {
      files := files[path := files[path] + data];
    }
  }

  /** Removing, creating and writing a file leaves the map updated at that one path. */
  lemma Overwritten(m: map<string, string>, path: string, data: string)
    ensures (m - {path})[path := []][path := [] + data] == m[path := data]
    ensures m[path := []][path := [] + data] == m[path := data]
  {
    assert [] + data == data;
  }

  /**
   * `save_to_apt`: the target's file now holds exactly the rendered lines of
   * the records of that file; every other file is untouched.
   */
  method SaveToApt(disk: Disk, target: LegacyAptSource, list: seq<LegacyAptSource>)
    modifies disk
    ensures disk.files == old(disk.files)[target.filename := RenderAll(SameList(list, target.filename))]
  {
    var output := Render(target, list);
    ghost var before := disk.files;
    var path := target.filename;
    if disk.Exists(path) {
      var _ := disk.RemoveFile(path);
    }
    disk.Create(path);
    disk.WriteAll(path, output);
    Overwritten(before, path, output);
  }

  /** A process to spawn: program and arguments. */
  datatype Command = Command(program: string, args: seq<string>)

  /** The shell snippet of `save_to_file`: `echo -e <escaped text> > <filepath>`, with nothing quoted. */
  function ShellLine(text: string, filepath: string): (cmd: string)
    ensures '\n' !in filepath ==> '\n' !in cmd
    ensures |cmd| == 8 + |text| + 2 * Count(text, '\n') + 3 + |filepath|
  {
    "echo -e " + EscapeNewlines(text) + " > " + filepath
  }

  /**
   * `save_to_file`: the command that writes the target file's rendered text
   * to `filepath` through `pkexec bash -c`; it is built, not run, here.
   */
  method SaveToFile(target: LegacyAptSource, list: seq<LegacyAptSource>, filepath: string)
    returns (cmd: Command)
    ensures cmd == Command("pkexec", ["bash", "-c", ShellLine(RenderAll(SameList(list, target.filename)), filepath)])
  {
    var output := Render(target, list);
    cmd := Command("pkexec", ["bash", "-c", "echo -e " + EscapeNewlines(output) + " > " + filepath]);
  }

  /**
   * The payload in the shell line is the rendered text with every newline
   * escaped: it holds no newline, and for text without backslashes the
   * escape can be undone exactly.
   */
  lemma ShellPayload(text: string, filepath: string)
    requires '\\' !in text
    ensures var cmd := ShellLine(text, filepath);
            var payload := cmd[8..|cmd| - 3 - |filepath|];
            && '\n' !in payload && UnescapeNewlines(payload) == text
  {
    var cmd := ShellLine(text, filepath);
    var e := EscapeNewlines(text);
    assert cmd == "echo -e " + e + " > " + filepath;
    assert cmd[8..|cmd| - 3 - |filepath|] == e;
    EscapeRoundTrip(text);
  }
}
