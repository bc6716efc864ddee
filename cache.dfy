/**
 * The suffix cache: where the extractor's list of public suffixes comes
 * from. A local cache file is loaded when it has content; otherwise the
 * Public Suffix List is downloaded, filtered and written back to the file.
 * Failures are the four integer codes `TldsCache` throws, here a datatype.
 *
 * The file system and the network are abstract: the cache file is an object
 * holding its text (or nothing, when it cannot be opened for reading) and
 * whether it can be opened for writing; the download is an input value.
 */
module SuffixCache {
  import opened Strings

  /** Entries are kept only when they have fewer dots than this. */
  const MaxTldsDepth: nat := 3
  /** Name of the cache file, relative to the working directory. */
  const TldsFile: string := "suffixes.txt"
  /** A loaded cache with fewer entries than this is taken to be corrupt. */
  const MinimumSuffixes: nat := 8000

  /** The four failures, with the integer each is thrown as. */
  datatype CacheError =
    | CacheCorrupt      // 444: the cache file is empty or corrupt
    | CacheNotWritable  // 644: the cache file cannot be opened for writing
    | CurlInitFailed    // 400: the transfer library could not be initialised
    | DownloadFailed    // 404: the suffix list was not downloaded
  {
    function Code(): int {
      match this
      case CacheCorrupt => 444
      case CacheNotWritable => 644
      case CurlInitFailed => 400
      case DownloadFailed => 404
    }
  }

  /** Whether an operation ran to its end or threw. */
  datatype Outcome = Completed | Threw(error: CacheError)

  /** What the download of the suffix list yields: the response body or a failure. */
  datatype Download = Fetched(body: string) | InitFailed | TransferFailed

  /** The cache file: its text when it can be opened for reading, and whether it can be opened for writing. */
  class CacheFile {
    var content: Option<string>
    const writable: bool

    constructor (content: Option<string>, writable: bool)
      ensures this.content == content && this.writable == writable
    {
      this.content := content;
      this.writable := writable;
    }
  }

  /** The caller's `std::vector<std::string>`, filled in place. */
  class SuffixVector {
    var items: seq<string>

    constructor ()
      ensures items == []
    {
      items := [];
    }
  }

  /**
   * The lines `getline` reads from a text: the pieces between newlines,
   * except that a final newline does not start another (empty) line.
   */
  function Lines(text: string): (lines: seq<string>)
    ensures lines == [] <==> text == []
    ensures forall k :: 0 <= k < |lines| ==> '\n' !in lines[k]
  {
    if text == [] then []
    else if text[|text| - 1] == '\n' then Split(text[..|text| - 1], '\n')
    else Split(text, '\n')
  }

  /** The lines rejoined with newlines give back the text, less a final newline. */
  lemma LinesRejoin(text: string)
    requires text != []
    ensures Join(Lines(text), '\n') + (if text[|text| - 1] == '\n' then "\n" else "") == text
  {
    if text[|text| - 1] == '\n' {
      JoinSplit(text[..|text| - 1], '\n');
      InitLast(text);
    } else {
      JoinSplit(text, '\n');
    }
  }

  /** The text the save loop writes: every entry followed by a newline. */
  function Serialize(entries: seq<string>): (text: string)
    ensures text == [] <==> entries == []
    ensures entries != [] ==> text[|text| - 1] == '\n'
  {
    if entries == [] then []
    else Serialize(entries[..|entries| - 1]) + entries[|entries| - 1] + "\n"
  }

  /** The constructor downloads when the file cannot be read or is empty (`peek()` is at end of file). */
  predicate NeedsDownload(content: Option<string>) {
    content.None? || content.value == []
  }

  /** The lines a load reads from the file; an unreadable file yields none. */
  function FileLines(content: Option<string>): seq<string> {
    if content.None? then [] else Lines(content.value)
  }

  /** The filter of the cleaning loop: non-empty, not a `//` comment, fewer than three dots. */
  predicate KeepLine(line: string) {
    |line| > 0 && line[0] != '/' && Count(line, '.') < MaxTldsDepth
  }

  /** The downloaded lines the cleaning loop keeps, in their order. */
  function CleanLines(lines: seq<string>): (kept: seq<string>)
    ensures |kept| <= |lines|
    ensures forall k :: 0 <= k < |kept| ==> KeepLine(kept[k])
  {
    if lines == [] then []
    else
      var init := lines[..|lines| - 1];
      var last := lines[|lines| - 1];
      assert lines == init + [last];
      CleanLines(init) + (if KeepLine(last) then [last] else [])
  }

  /** One more downloaded line is kept at the end exactly when it passes the filter. */
  lemma CleanLinesSnoc(lines: seq<string>, line: string)
    ensures CleanLines(lines + [line]) == CleanLines(lines) + (if KeepLine(line) then [line] else [])
  {
    assert (lines + [line])[..|lines|] == lines;
  }

  /** A line is kept exactly when it was downloaded and passes the filter. */
  lemma {:induction false} CleanLinesMembers(lines: seq<string>, x: string)
    ensures x in CleanLines(lines) <==> x in lines && KeepLine(x)
  {
    if lines != [] {
      var init := lines[..|lines| - 1];
      var last := lines[|lines| - 1];
      InitLast(lines);
      CleanLinesSnoc(init, last);
      CleanLinesMembers(init, x);
    }
  }

  /** The entries a run of the constructor leaves in an empty vector. */
  function Obtained(content: Option<string>, download: Download): seq<string> {
    if !NeedsDownload(content) then Lines(content.value)
    else if download.Fetched? then CleanLines(Lines(download.body))
    else []
  }

  /**
   * The cache object keeps a reference to the caller's vector and fills it
   * in place. The C++ constructor both binds the reference and fills
   * the vector; a Dafny constructor cannot end in an error, so the filling
   * is the method `Populate`.
   */
  class TldsCache {
    const tlds: SuffixVector
    const file: CacheFile

    constructor (tlds: SuffixVector, file: CacheFile)
      ensures this.tlds == tlds && this.file == file
    {
      this.tlds := tlds;
      this.file := file;
    }

    /**
     * The body of the constructor: load the cache when it has content;
     * otherwise download, clean and save. Every entry added so far stays in
     * the vector when an error is thrown.
     */
    method Populate(download: Download) returns (outcome: Outcome)
      modifies tlds, file
      ensures tlds.items == old(tlds.items) + Obtained(old(file.content), download)
      ensures file.content ==
        if NeedsDownload(old(file.content)) && download.Fetched? && file.writable
        then Some(Serialize(tlds.items)) else old(file.content)
      ensures NeedsDownload(old(file.content)) ==> (outcome ==
        match download
        case Fetched(_) => if file.writable then Completed else Threw(CacheNotWritable)
        case InitFailed => Threw(CurlInitFailed)
        case TransferFailed => Threw(DownloadFailed))
      ensures !NeedsDownload(old(file.content)) ==>
        outcome == if |tlds.items| < MinimumSuffixes then Threw(CacheCorrupt) else Completed
    {
      if NeedsDownload(file.content) {
        match download
        case InitFailed =>
          outcome := Threw(CurlInitFailed);
        case TransferFailed =>
          outcome := Threw(DownloadFailed);
        case Fetched(body) =>
          Clean(body);
          outcome := Save();
      } else {
        outcome := Load();
      }
    }

    /** Appends each downloaded line that passes the filter, in order. */
    method Clean(text: string)
      modifies tlds
      ensures tlds.items == old(tlds.items) + CleanLines(Lines(text))
    {
      var lines := Lines(text);
      ghost var base := tlds.items;
      for i := 0 to |lines|
        invariant tlds.items == base + CleanLines(lines[..i])
      {
        var line := lines[i];
        PrefixSnoc(lines, i);
        CleanLinesSnoc(lines[..i], line);
        if |line| > 0 && line[0] != '/' && Count(line, '.') < MaxTldsDepth {
          tlds.items := tlds.items + [line];
          assert tlds.items == base + (CleanLines(lines[..i]) + [line]);
        }
      }
      assert lines[..|lines|] == lines;
    }

    /** Writes every entry of the vector to the file, one per line; throws 644 when the file cannot be opened. */
    method Save() returns (outcome: Outcome)
      modifies file
      ensures outcome == if file.writable then Completed else Threw(CacheNotWritable)
      ensures file.content == if file.writable then Some(Serialize(tlds.items)) else old(file.content)
    {
      if !file.writable {
        return Threw(CacheNotWritable);
      }
      file.content := Some([]);
      var entries := tlds.items;
      for i := 0 to |entries|
        invariant file.content == Some(Serialize(entries[..i]))
      {
        assert entries[..i + 1][..i] == entries[..i];
        file.content := Some(file.content.value + entries[i] + "\n");
      }
      assert entries[..|entries|] == entries;
      outcome := Completed;
    }

    /** Appends every line of the file, verbatim; throws 444 when the vector then holds fewer than 8000 entries. */
    method Load() returns (outcome: Outcome)
      modifies tlds
      ensures tlds.items == old(tlds.items) + FileLines(file.content)
      ensures outcome == if |tlds.items| < MinimumSuffixes then Threw(CacheCorrupt) else Completed
    {
      var lines := FileLines(file.content);
      for i := 0 to |lines|
        invariant tlds.items == old(tlds.items) + lines[..i]
      {
        tlds.items := tlds.items + [lines[i]];
      }
      assert lines[..|lines|] == lines;
      if |tlds.items| < MinimumSuffixes {
        return Threw(CacheCorrupt);
      }
      outcome := Completed;
    }

    /** Truncates the cache file to nothing, keeping the file; false when it cannot be opened for writing. */
    static method DeleteCache(file: CacheFile) returns (ok: bool)
      modifies file
      ensures ok == file.writable
      ensures file.content == if ok then Some([]) else old(file.content)
      ensures ok ==> NeedsDownload(file.content)
    {
      if file.writable {
        file.content := Some([]);
        return true;
      }
      return false;
    }
  }

  /** The four failures are thrown as four different integers. */
  lemma CodesDistinct(a: CacheError, b: CacheError)
    ensures a.Code() == b.Code() <==> a == b
  {
  }

  /** The saved text is the entries joined by newlines, plus a final newline. */
  lemma {:induction false} SerializeIsJoin(entries: seq<string>)
    requires entries != []
    ensures Serialize(entries) == Join(entries, '\n') + "\n"
  {
    var n := |entries|;
    if n > 1 {
      SerializeIsJoin(entries[..n - 1]);
    }
  }

  /** Loading what was saved gives back the saved entries, in order, when no entry holds a newline. */
  lemma SaveLoadRoundTrip(entries: seq<string>)
    requires forall k :: 0 <= k < |entries| ==> '\n' !in entries[k]
    ensures Lines(Serialize(entries)) == entries
  {
    if entries != [] {
      var text := Serialize(entries);
      SerializeIsJoin(entries);
      assert text[..|text| - 1] == Join(entries, '\n');
      SplitJoin(entries, '\n');
    }
  }

  /** Every entry the cleaning keeps is non-empty, is not a comment, has at most two dots and holds no newline. */
  lemma CleanedEntries(text: string)
    ensures forall k :: 0 <= k < |CleanLines(Lines(text))| ==>
      var e := CleanLines(Lines(text))[k];
      |e| > 0 && e[0] != '/' && Count(e, '.') <= 2 && '\n' !in e
  {
    var lines := Lines(text);
    var kept := CleanLines(lines);
    forall k | 0 <= k < |kept| ensures '\n' !in kept[k] {
      CleanLinesMembers(lines, kept[k]);
    }
  }

  /**
   * After a download whose cleaned list was saved, the next run loads the
   * file and ends with exactly the list the download produced; when the
   * cleaning kept nothing, the empty file sends the next run back to the
   * download.
   */
  lemma NextRunReloads(body: string, download: Download)
    ensures var kept := CleanLines(Lines(body));
      if kept == [] then NeedsDownload(Some(Serialize(kept)))
      else Obtained(Some(Serialize(kept)), download) == kept
  {
    var kept := CleanLines(Lines(body));
    if kept != [] {
      CleanedEntries(body);
      SaveLoadRoundTrip(kept);
    }
  }

  /**
   * The cleaning loop as compiled stores the dot count in a plain `char`
   * before comparing it with the depth bound. On the usual ABIs `char` is a
   * signed 8-bit type and the conversion keeps the value modulo 256.
   */
  function AsSignedChar(n: nat): (c: int)
    ensures -128 <= c < 128
    ensures (c - n) % 256 == 0
  {
    var m := n % 256;
    if m < 128 then m else m - 256
  }

  /** The filter with the dot count narrowed to `char`, as the loop is written. */
  predicate KeepLineAsCompiled(line: string) {
    |line| > 0 && line[0] != '/' && AsSignedChar(Count(line, '.')) < MaxTldsDepth
  }

  /** Below 128 dots the narrowing changes nothing: both filters agree. */
  lemma CompiledFilterAgrees(line: string)
    requires Count(line, '.') < 128
    ensures KeepLineAsCompiled(line) == KeepLine(line)
  {
  }

  /** A line of 256 dots wraps to a count of 0 and passes the compiled filter, though it is far deeper than the bound. */
  lemma DeepLinePassesCompiledFilter()
    ensures var line := seq(256, _ => '.');
      KeepLineAsCompiled(line) && !KeepLine(line) && Count(line, '.') == 256
  {
    var line: string := seq(256, _ => '.');
    CountUniform(line, '.');
  }
}
