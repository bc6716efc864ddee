/**
 * The command line: the scan of the arguments into a list of requested
 * fields, the reduction of a URL to its hostname, the slash-separated output
 * line, and the dispatch of `main` between usage, cache deletion, the
 * interactive session and one extraction.
 *
 * Arguments are the ones after the program name. Standard output is the
 * returned line (without its final newline); the usage text, the messages on
 * the error stream and the interactive session are not modelled.
 */
module Cli {
  import opened Strings
  import SuffixCache
  import opened SuffixExtract

  /** The fields a run can print, in the order of the usage text. */
  datatype Search = Hostname | Organisation | Suffix | Subdomain | Domain | Tld | Country

  /** The short spelling of each field flag, as the usage text lists it. */
  function ShortFlag(s: Search): string {
    match s
    case Hostname => "-f"
    case Organisation => "-o"
    case Suffix => "-s"
    case Subdomain => "-p"
    case Domain => "-d"
    case Tld => "-t"
    case Country => "-c"
  }

  /** The long spelling of each field flag, as the usage text lists it. */
  function LongFlag(s: Search): string {
    match s
    case Hostname => "--hostname"
    case Organisation => "--organisation"
    case Suffix => "--suffix"
    case Subdomain => "--subdomain"
    case Domain => "--domain"
    case Tld => "--tld"
    case Country => "--country"
  }

  predicate IsHelp(arg: string) { arg == "-h" || arg == "--help" }
  predicate IsUpdate(arg: string) { arg == "-u" || arg == "--update" }
  predicate IsInteractive(arg: string) { arg == "-i" || arg == "--interactive" }

  /**
   * The chain of field tests of the scan loop: the field an argument asks
   * for, if any. It recognises exactly the two spellings of each field.
   */
  function FieldFlag(arg: string): (f: Option<Search>)
    ensures f.Some? ==> arg == ShortFlag(f.value) || arg == LongFlag(f.value)
    ensures f.Some? ==> !IsHelp(arg) && !IsUpdate(arg) && !IsInteractive(arg)
  {
    if arg == "-f" || arg == "--hostname" then Some(Hostname)
    else if arg == "-o" || arg == "--organisation" then Some(Organisation)
    else if arg == "-s" || arg == "--suffix" then Some(Suffix)
    else if arg == "-p" || arg == "--subdomain" then Some(Subdomain)
    else if arg == "-d" || arg == "--domain" then Some(Domain)
    else if arg == "-t" || arg == "--tld" then Some(Tld)
    else if arg == "-c" || arg == "--country" then Some(Country)
    else None
  }

  /** The fields the arguments ask for, one per field flag, in argument order. */
  function RequestedFields(args: seq<string>): (fields: seq<Search>)
    ensures |fields| <= |args|
  {
    if args == [] then []
    else
      var init := args[..|args| - 1];
      var last := args[|args| - 1];
      RequestedFields(init) + (match FieldFlag(last) case Some(s) => [s] case None => [])
  }

  /** How the scan of the arguments ends. */
  datatype Scan =
    | Help                 // a help flag: usage, success
    | NeedsUrl             // a field flag is the last argument: failure
    | Options(deleteCache: bool, interactive: bool, searches: seq<Search>)

  /** Some argument asks for help. */
  predicate AnyHelp(args: seq<string>) { exists j :: 0 <= j < |args| && IsHelp(args[j]) }
  /** Some argument asks for the cache to be deleted. */
  predicate AnyUpdate(args: seq<string>) { exists j :: 0 <= j < |args| && IsUpdate(args[j]) }
  /** Some argument asks for the interactive session. */
  predicate AnyInteractive(args: seq<string>) { exists j :: 0 <= j < |args| && IsInteractive(args[j]) }

  /**
   * What the scan yields, stated over the whole argument list: any help flag
   * wins; otherwise a field flag in last position lacks its URL; otherwise the
   * two switches and the requested fields.
   */
  function ScanResult(args: seq<string>): Scan {
    if AnyHelp(args) then Help
    else if args != [] && FieldFlag(args[|args| - 1]).Some? then NeedsUrl
    else Options(AnyUpdate(args), AnyInteractive(args), RequestedFields(args))
  }

  /** One more argument: each switch is set when it was or when the new argument sets it. */
  lemma PrefixStep(args: seq<string>, i: nat)
    requires i < |args|
    ensures AnyHelp(args[..i + 1]) == (AnyHelp(args[..i]) || IsHelp(args[i]))
    ensures AnyUpdate(args[..i + 1]) == (AnyUpdate(args[..i]) || IsUpdate(args[i]))
    ensures AnyInteractive(args[..i + 1]) == (AnyInteractive(args[..i]) || IsInteractive(args[i]))
    ensures RequestedFields(args[..i + 1]) ==
      RequestedFields(args[..i]) + (match FieldFlag(args[i]) case Some(s) => [s] case None => [])
  {
    var p := args[..i + 1];
    assert p[..i] == args[..i];
    assert forall j :: 0 <= j < i ==> p[j] == args[..i][j];
    assert p[i] == args[i];
  }

  /** An argument is at most one kind of flag. */
  lemma FlagsExclusive(arg: string)
    ensures IsHelp(arg) ==> !IsUpdate(arg) && !IsInteractive(arg) && FieldFlag(arg).None?
    ensures IsUpdate(arg) ==> !IsInteractive(arg) && FieldFlag(arg).None?
    ensures IsInteractive(arg) ==> FieldFlag(arg).None?
  {
  }

  /** The loop of `main` over the arguments: flags set switches or append a field; help and a URL-less field flag end it early. */
  method ScanArguments(args: seq<string>) returns (scan: Scan)
    ensures scan == ScanResult(args)
  {
    var deleteCache := false;
    var interactiveMode := false;
    var searches: seq<Search> := [];
    for i := 0 to |args|
      invariant !AnyHelp(args[..i])
      invariant deleteCache == AnyUpdate(args[..i])
      invariant interactiveMode == AnyInteractive(args[..i])
      invariant searches == RequestedFields(args[..i])
      invariant i == |args| && args != [] ==> FieldFlag(args[|args| - 1]).None?
    {
      var arg := args[i];
      var field := FieldFlag(arg);
      PrefixStep(args, i);
      FlagsExclusive(arg);
      if IsHelp(arg) {
        assert args[..i + 1] <= args;
        assert AnyHelp(args) by { assert IsHelp(args[i]); }
        return Help;
      } else if IsUpdate(arg) {
        deleteCache := true;
      } else if IsInteractive(arg) {
        interactiveMode := true;
      } else if field.Some? {
        searches := searches + [field.value];
      }
      if field.Some? && i + 1 >= |args| {
        assert args[..i + 1] == args;
        return NeedsUrl;
      }
    }
    assert args[..|args|] == args;
    scan := Options(deleteCache, interactiveMode, searches);
  }

  /** The URL after its scheme: everything past the first `://`, or the whole URL when there is none. */
  function AfterScheme(url: string): (rest: string)
    ensures |rest| <= |url| && rest == url[|url| - |rest|..]
    ensures rest != url ==> IndexOf(url, "://") == Some(|url| - |rest| - 3)
    ensures rest == url ==> IndexOf(url, "://").None?
  {
    match IndexOf(url, "://")
    case None => url
    case Some(k) => url[k + 3..]
  }

  /** The text before the first `c`, or the whole text. */
  function BeforeFirst(s: string, c: char): (t: string)
    ensures t <= s && c !in t
    ensures |t| < |s| ==> s[|t|] == c
  {
    s[..Find(s, c)]
  }

  /**
   * The hostname of a URL: after the scheme, up to the first `:` (the port)
   * or `/` (the path), whichever comes first.
   */
  function HostnameFromUrl(url: string): (hostname: string)
    ensures hostname <= AfterScheme(url)
    ensures ':' !in hostname && '/' !in hostname
    ensures |hostname| < |AfterScheme(url)| ==> AfterScheme(url)[|hostname|] in {':', '/'}
  {
    BeforeFirst(BeforeFirst(AfterScheme(url), ':'), '/')
  }

  /** `getHostnameFromUrl`: erase the scheme, then the port, then the path, each at the first occurrence of its mark. */
  method GetHostnameFromUrl(url: string) returns (hostname: string)
    ensures hostname == HostnameFromUrl(url)
  {
    hostname := url;
    var pos := IndexOf(hostname, "://");
    if pos.Some? {
      hostname := hostname[pos.value + 3..];
    }
    ghost var rest := hostname;
    pos := IndexOf(hostname, ":");
    EraseFromFirst(hostname, ':');
    if pos.Some? {
      hostname := hostname[..pos.value];
    }
    assert hostname == BeforeFirst(rest, ':');
    ghost var beforePort := hostname;
    pos := IndexOf(hostname, "/");
    EraseFromFirst(hostname, '/');
    if pos.Some? {
      hostname := hostname[..pos.value];
    }
    assert hostname == BeforeFirst(beforePort, '/');
  }

  /** Erasing from the first occurrence of the one-character string `[c]` keeps what comes before the first `c`. */
  lemma EraseFromFirst(s: string, c: char)
    ensures match IndexOf(s, [c])
      case Some(p) => p < |s| && s[..p] == BeforeFirst(s, c)
      case None => s == BeforeFirst(s, c)
  {
    IndexOfChar(s, c);
  }

  /** A text without `c` is kept whole. */
  lemma BeforeFirstWithout(s: string, c: char)
    requires c !in s
    ensures BeforeFirst(s, c) == s
  {
  }

  /** A text without `:` has no scheme to erase. */
  lemma AfterSchemeWithoutColon(s: string)
    requires ':' !in s
    ensures AfterScheme(s) == s
  {
    forall k: nat | k + 3 <= |s| ensures !OccursAt(s, "://", k) {
      assert s[k..k + 3][0] == s[k];
    }
  }

  /** A hostname already stripped is stripped to itself: the reduction is idempotent. */
  lemma HostnameFromUrlIdempotent(url: string)
    ensures HostnameFromUrl(HostnameFromUrl(url)) == HostnameFromUrl(url)
  {
    var h := HostnameFromUrl(url);
    AfterSchemeWithoutColon(h);
    BeforeFirstWithout(h, ':');
    BeforeFirstWithout(h, '/');
  }

  /**
   * A URL made of a scheme without `:`, `://`, a host without `:` or `/`,
   * then `/` and any path: the hostname is the host. A `:` in the path is
   * cut first, as a port would be, and the cut at `/` then leaves the host.
   */
  lemma HostnameOfUrl(url: string, scheme: string, host: string, path: string)
    requires ':' !in scheme && ':' !in host && '/' !in host
    requires url == scheme + "://" + host + "/" + path
    ensures HostnameFromUrl(url) == host
  {
    var rest := host + "/" + path;
    assert url == scheme + "://" + rest;
    assert "://"[0] == ':';
    FirstOccurrenceAfter(url, scheme, "://", rest);
    assert AfterScheme(url) == rest;
    HostBeforePortAndPath(host, path);
  }

  /** After the scheme, cutting at the first `:` and then at the first `/` leaves the host. */
  lemma HostBeforePortAndPath(host: string, path: string)
    requires ':' !in host && '/' !in host
    ensures BeforeFirst(BeforeFirst(host + "/" + path, ':'), '/') == host
  {
    var rest := host + "/" + path;
    var k := Find(rest, ':');
    assert rest[..|host|] == host && rest[|host|] == '/';
    assert forall j :: 0 <= j <= |host| ==> rest[j] != ':';
    assert k > |host|;
    var tail := rest[|host| + 1..k];
    assert rest[..k] == host + ['/'] + tail;
    FindAfter(host, '/', tail);
    assert (host + ['/'] + tail)[..|host|] == host;
  }

  /** The URL of the usage text's example, assembled from its parts. */
  lemma ExampleUrl()
    ensures "http" + "://" + "www.exemple.co.uk" + "/" + "index.html" == "http://www.exemple.co.uk/index.html"
  {
    assert "http" + "://" == "http://";
    assert "http://" + "www.exemple.co.uk" == "http://www.exemple.co.uk";
    assert "http://www.exemple.co.uk" + "/" == "http://www.exemple.co.uk/";
  }

  /** The URL of the usage text's example. */
  lemma UsageExampleHostname()
    ensures HostnameFromUrl("http://www.exemple.co.uk/index.html") == "www.exemple.co.uk"
  {
    ExampleUrl();
    HostnameOfUrl("http://www.exemple.co.uk/index.html", "http", "www.exemple.co.uk", "index.html");
  }

  /**
   * The value printed for a field. The subdomain is `Host.Subdomain`, the cut
   * at the first occurrence of the domain.
   */
  function FieldValue(s: Search, h: Host): string {
    match s
    case Hostname => h.hostname
    case Organisation => h.organisation
    case Suffix => h.suffix
    case Subdomain => h.Subdomain()
    case Domain => h.Domain()
    case Tld => h.tld
    case Country => h.Country()
  }

  /** The values of the requested fields, in the order requested. */
  function FieldValues(searches: seq<Search>, h: Host): (vs: seq<string>)
    ensures |vs| == |searches|
    ensures forall i :: 0 <= i < |searches| ==> vs[i] == FieldValue(searches[i], h)
  {
    if searches == [] then []
    else FieldValues(searches[..|searches| - 1], h) + [FieldValue(searches[|searches| - 1], h)]
  }

  /** The values with one `/` between neighbours and none before the first; nothing for no values. */
  function SlashJoined(vs: seq<string>): string {
    if vs == [] then "" else Join(vs, '/')
  }

  /** The output loop: a `/` before every value but the first, toggled by `first`. */
  method FormatFields(searches: seq<Search>, h: Host) returns (line: string)
    ensures line == SlashJoined(FieldValues(searches, h))
  {
    line := "";
    var first := true;
    for i := 0 to |searches|
      invariant first <==> i == 0
      invariant line == SlashJoined(FieldValues(searches[..i], h))
    {
      assert searches[..i + 1][..i] == searches[..i];
      if !first {
        line := line + "/";
      }
      first := false;
      line := line + FieldValue(searches[i], h);
    }
    assert searches[..|searches|] == searches;
  }

  /** The output line, split at its slashes, gives back the values when none holds a slash. */
  lemma SlashJoinedSplits(vs: seq<string>)
    requires vs != []
    requires forall k :: 0 <= k < |vs| ==> '/' !in vs[k]
    ensures Split(SlashJoined(vs), '/') == vs
    ensures Count(SlashJoined(vs), '/') == |vs| - 1
  {
    SplitJoin(vs, '/');
  }

  /** A character absent from every field of a host is absent from every value printed for it. */
  lemma FieldValuesExclude(searches: seq<Search>, h: Host, x: char)
    requires x !in h.hostname && x !in h.organisation && x !in h.suffix && x !in h.tld
    requires x !in h.Domain() && x !in h.Country() && x !in h.Subdomain()
    ensures forall k :: 0 <= k < |FieldValues(searches, h)| ==> x !in FieldValues(searches, h)[k]
  {
  }

  /**
   * End to end: for a URL whose hostname is not empty, the printed line holds
   * exactly one slash fewer than there are requested fields, and splitting it
   * at its slashes gives back each requested field's value, in order.
   */
  lemma OutputSeparatesFields(tlds: seq<string>, url: string, searches: seq<Search>)
    requires searches != [] && HostnameFromUrl(url) != []
    ensures var vs := FieldValues(searches, Resolve(tlds, HostnameFromUrl(url)));
      Split(SlashJoined(vs), '/') == vs && Count(SlashJoined(vs), '/') == |searches| - 1
  {
    var hostname := HostnameFromUrl(url);
    var h := Resolve(tlds, hostname);
    ResolvedFieldsExclude(tlds, hostname, '/');
    FieldValuesExclude(searches, h, '/');
    SlashJoinedSplits(FieldValues(searches, h));
  }

  /** How a run of the program ends. */
  datatype Termination =
    | Usage(success: bool)   // the usage text, with success or failure status
    | MissingUrl             // a field flag without a following argument: failure
    | CacheDeleted           // `-u` alone: the cache was truncated, success
    | Interactive            // the interactive session, not modelled further
    | Printed(line: string)  // one line of requested fields, success
    | Aborted                // an empty last argument or an empty hostname: undefined or uncaught

  /**
   * `main`: scan the arguments, truncate the cache when asked, then either
   * stop, enter the interactive session or extract the requested fields of
   * the last argument. Building the extractor fills its suffix list through
   * the cache, which may download and save; it is built before the empty
   * hostname is noticed, so that path runs the cache too.
   */
  method Run(args: seq<string>, file: SuffixCache.CacheFile, download: SuffixCache.Download) returns (t: Termination)
    modifies file
    ensures args == [] ==> t == Usage(false) && unchanged(file)
    ensures args != [] && ScanResult(args).Help? ==> t == Usage(true) && unchanged(file)
    ensures args != [] && ScanResult(args).NeedsUrl? ==> t == MissingUrl && unchanged(file)
    ensures args != [] && ScanResult(args).Options? ==>
      var scan := ScanResult(args);
      var cleared := if scan.deleteCache && file.writable then Some([]) else old(file.content);
      var url := args[|args| - 1];
      var hostname := HostnameFromUrl(url);
      if scan.deleteCache && |args| == 1 then t == CacheDeleted && file.content == cleared
      else if scan.interactive then t == Interactive && file.content == cleared
      else if scan.searches == [] then t == Usage(false) && file.content == cleared
      else if url == [] then t == Aborted && file.content == cleared
      else if url[0] == '-' then t == Usage(false) && file.content == cleared
      else
        var tlds := SuffixCache.Obtained(cleared, download);
        (if hostname == [] then t == Aborted
         else t == Printed(SlashJoined(FieldValues(scan.searches, Resolve(tlds, hostname))))) &&
        file.content ==
          if SuffixCache.NeedsDownload(cleared) && download.Fetched? && file.writable
          then Some(SuffixCache.Serialize(tlds)) else cleared
  {
    if args == [] {
      return Usage(false);
    }
    var scan := ScanArguments(args);
    match scan
    case Help =>
      return Usage(true);
    case NeedsUrl =>
      return MissingUrl;
    case Options(deleteCache, interactiveMode, searches) =>
      if deleteCache {
        var _ := SuffixCache.TldsCache.DeleteCache(file);
        if |args| == 1 {
          return CacheDeleted;
        }
      }
      if interactiveMode {
        return Interactive;
      }
      if searches != [] {
        var url := args[|args| - 1];
        if url == [] {
          return Aborted;
        }
        if url[0] != '-' {
          var hostname := GetHostnameFromUrl(url);
          var extractor := new TldsExtract(file, download);
          if hostname == [] {
            return Aborted;
          }
          var h := extractor.Extract(hostname);
          var line := FormatFields(searches, h);
          return Printed(line);
        }
      }
      return Usage(false);
  }

  /** The requested fields of two argument lists one after the other: order and duplicates are kept. */
  lemma {:induction false} RequestedFieldsAppend(a: seq<string>, b: seq<string>)
    ensures RequestedFields(a + b) == RequestedFields(a) + RequestedFields(b)
    decreases |b|
  {
    if b == [] {
      assert a + b == a;
    } else {
      var b' := b[..|b| - 1];
      var last := b[|b| - 1];
      InitLast(b);
      AppendInitLast(a, b);
      RequestedFieldsAppend(a, b');
      RequestedFieldsSnoc(a + b', last);
      RequestedFieldsSnoc(b', last);
    }
  }

  /** Each field's two spellings are recognised as that field. */
  lemma FlagSpellings(s: Search)
    ensures FieldFlag(ShortFlag(s)) == Some(s) && FieldFlag(LongFlag(s)) == Some(s)
    ensures ShortFlag(s) != LongFlag(s)
  {
  }

  /** One more argument adds its field, if it names one, at the end. */
  lemma RequestedFieldsSnoc(xs: seq<string>, y: string)
    ensures RequestedFields(xs + [y]) ==
      RequestedFields(xs) + (match FieldFlag(y) case Some(s) => [s] case None => [])
  {
    assert (xs + [y])[..|xs|] == xs;
  }

  /** A field is requested exactly when some argument is one of its flags. */
  lemma {:induction false} RequestedFieldsMembers(args: seq<string>, s: Search)
    ensures s in RequestedFields(args) <==> exists j :: 0 <= j < |args| && FieldFlag(args[j]) == Some(s)
  {
    if args != [] {
      var n := |args|;
      var init := args[..n - 1];
      var last := args[n - 1];
      InitLast(args);
      RequestedFieldsSnoc(init, last);
      RequestedFieldsMembers(init, s);
      if s in RequestedFields(args) {
        if s in RequestedFields(init) {
          var j :| 0 <= j < |init| && FieldFlag(init[j]) == Some(s);
          assert args[j] == init[j];
        } else {
          assert FieldFlag(args[n - 1]) == Some(s);
        }
      }
      if exists j :: 0 <= j < n && FieldFlag(args[j]) == Some(s) {
        var j :| 0 <= j < n && FieldFlag(args[j]) == Some(s);
        if j < n - 1 {
          assert init[j] == args[j];
        }
      }
    }
  }

  /** The short flags of a list of fields, in order. */
  function ShortFlags(ss: seq<Search>): (args: seq<string>)
    ensures |args| == |ss|
    ensures forall i :: 0 <= i < |ss| ==> args[i] == ShortFlag(ss[i])
  {
    if ss == [] then [] else ShortFlags(ss[..|ss| - 1]) + [ShortFlag(ss[|ss| - 1])]
  }

  /** Asking for a list of fields by their flags requests exactly that list, duplicates and order included. */
  lemma {:induction false} RequestedShortFlags(ss: seq<Search>)
    ensures RequestedFields(ShortFlags(ss)) == ss
  {
    if ss != [] {
      var init := ss[..|ss| - 1];
      var last := ss[|ss| - 1];
      RequestedShortFlags(init);
      RequestedFieldsSnoc(ShortFlags(init), ShortFlag(last));
      FlagSpellings(last);
      InitLast(ss);
    }
  }

  /** An argument that does not start with `-` is no flag at all. */
  lemma NotAFlag(a: string)
    requires a == [] || a[0] != '-'
    ensures !IsHelp(a) && !IsUpdate(a) && !IsInteractive(a) && FieldFlag(a).None?
  {
  }

  /** Field flags followed by something that is not a flag: no switch is set and the fields are requested in order. */
  lemma ScanOfFieldFlags(ss: seq<Search>, url: string)
    requires url == [] || url[0] != '-'
    ensures ScanResult(ShortFlags(ss) + [url]) == Options(false, false, ss)
  {
    var args := ShortFlags(ss) + [url];
    NotAFlag(url);
    forall j | 0 <= j < |args| ensures !IsHelp(args[j]) && !IsUpdate(args[j]) && !IsInteractive(args[j]) {
      if j < |ss| {
        FlagSpellings(ss[j]);
      }
    }
    RequestedFieldsAppend(ShortFlags(ss), [url]);
    assert [url][..0] == [];
    RequestedShortFlags(ss);
  }

  /** The usage text's example asks for all seven fields, in the order of the flags. */
  lemma UsageExampleScan()
    ensures ShortFlags(AllFields) + ["http://www.exemple.co.uk/index.html"] ==
      ["-f", "-o", "-s", "-p", "-d", "-t", "-c", "http://www.exemple.co.uk/index.html"]
    ensures ScanResult(["-f", "-o", "-s", "-p", "-d", "-t", "-c", "http://www.exemple.co.uk/index.html"]) ==
      Options(false, false, AllFields)
  {
    ScanOfFieldFlags(AllFields, "http://www.exemple.co.uk/index.html");
  }

  /** Every field once, in the order of the usage text. */
  const AllFields: seq<Search> := [Hostname, Organisation, Suffix, Subdomain, Domain, Tld, Country]

  /** The line printed for every field once: the seven values with a slash between neighbours. */
  lemma AllFieldsLine(h: Host)
    ensures SlashJoined(FieldValues(AllFields, h)) ==
      h.hostname + "/" + h.organisation + "/" + h.suffix + "/" + h.Subdomain() + "/" +
      h.Domain() + "/" + h.tld + "/" + h.Country()
  {
    var vs := FieldValues(AllFields, h);
    assert Join(vs[..1], '/') == h.hostname;
    JoinSnoc(vs[..1], vs[1], '/');
    JoinSnoc(vs[..2], vs[2], '/');
    JoinSnoc(vs[..3], vs[3], '/');
    JoinSnoc(vs[..4], vs[4], '/');
    JoinSnoc(vs[..5], vs[5], '/');
    JoinSnoc(vs[..6], vs[6], '/');
    assert vs[..1] + [vs[1]] == vs[..2] && vs[..2] + [vs[2]] == vs[..3] && vs[..3] + [vs[3]] == vs[..4];
    assert vs[..4] + [vs[4]] == vs[..5] && vs[..5] + [vs[5]] == vs[..6] && vs[..6] + [vs[6]] == vs;
  }

  /** The seven values of the example, joined. */
  lemma ExampleLine()
    ensures "www.exemple.co.uk" + "/" + "exemple" + "/" + "co.uk" + "/" + "www" + "/" + "exemple.co.uk" + "/" + "uk" + "/" + "uk"
      == "www.exemple.co.uk/exemple/co.uk/www/exemple.co.uk/uk/uk"
  {
    assert "www.exemple.co.uk" + "/" + "exemple" == "www.exemple.co.uk/exemple";
    assert "www.exemple.co.uk/exemple" + "/" + "co.uk" == "www.exemple.co.uk/exemple/co.uk";
    assert "www.exemple.co.uk/exemple/co.uk" + "/" + "www" == "www.exemple.co.uk/exemple/co.uk/www";
    assert "www.exemple.co.uk/exemple/co.uk/www" + "/" + "exemple.co.uk" == "www.exemple.co.uk/exemple/co.uk/www/exemple.co.uk";
    assert "www.exemple.co.uk/exemple/co.uk/www/exemple.co.uk" + "/" + "uk" == "www.exemple.co.uk/exemple/co.uk/www/exemple.co.uk/uk";
  }

  /** The usage text's example run, for a suffix list that knows `co.uk` but not the longer runs: the line it prints. */
  lemma UsageExampleOutput(tlds: seq<string>)
    requires "co.uk" in tlds && "exemple.co.uk" !in tlds && "www.exemple.co.uk" !in tlds
    ensures var hostname := HostnameFromUrl("http://www.exemple.co.uk/index.html");
      hostname == "www.exemple.co.uk" &&
      SlashJoined(FieldValues(AllFields, Resolve(tlds, hostname))) ==
        "www.exemple.co.uk/exemple/co.uk/www/exemple.co.uk/uk/uk"
  {
    UsageExampleHostname();
    ExtractExample(tlds);
    AllFieldsLine(Resolve(tlds, "www.exemple.co.uk"));
    ExampleLine();
  }
}
