# Public suffix extractor: a verified model

`tldExtractor` splits a hostname into the parts the Public Suffix List
defines. For `www.exemple.co.uk` these are the organisation `exemple`, the
suffix `co.uk`, the top-level label `uk`, the domain `exemple.co.uk`, the
subdomain `www` and the two-letter country `uk`.

The list of known suffixes comes from a cache file, `suffixes.txt`. When that
file is missing or empty, the list is downloaded and cleaned instead: comment
and empty lines go, and so do entries with three dots or more (as the
comparison is meant; the narrowed count it actually uses is under "## Findings"). The cleaned
list is then written back to the file. A command-line front end reads field
flags and a URL, reduces the URL to its hostname, and prints the requested
fields separated by `/`.

The model is made of four modules:

- `Strings` (`strings.dfy`) models the standard-library helpers the code relies on:
  - `std::find`;
  - `std::string::find`, and a last-occurrence search that the code never calls: it serves only the corrected subdomain under "## Findings";
  - `std::count` and `std::reverse`;
  - cutting a text at a separator character, and joining pieces again.
- `SuffixCache` (`cache.dfy`) models `TldsCache`:
  - the cache file is an object holding its text, or nothing when it cannot be read, and whether it can be written;
  - the caller's vector is an object that `TldsCache` fills in place;
  - load, clean, save and delete are methods proved against specification functions.
- `SuffixExtract` (`extract.dfy`) models `TldsExtract` and the `host` record:
  - the extraction loop is a method proved equal to a function, `Resolve`;
  - lemmas characterise `Resolve`: the longest match, the RFC 2606 fallback (section 2 of RFC 2606 reserves `test`, `example`, `invalid` and `localhost`), how the subdomain rejoins the domain, and the worked example.
- `Cli` (`cli.dfy`) models `main` in `tldsMain.cpp`:
  - the argument scan;
  - the URL-to-hostname reduction;
  - the output loop;
  - the dispatch between usage, cache deletion, interactive mode and extraction.

## Notes on the code

- **Depth filter.** The cleaning step keeps a downloaded line only when it has fewer than three dots: `MAX_TLDS_DEPTH` is compared at src/tldsCache.cpp:79, and the usage text says so at src/tldsMain.cpp:39. `KeepLine` filters the same way.
- **Printed subdomain.** The program prints `subdomain()` as written, the cut at the first occurrence of `.` plus the domain, and so does `Cli.FieldValue`. The cut at the last occurrence is modelled only as the corrected half of the first finding.
- **Empty lines on load.** Loading appends every line of the cache file verbatim, empty lines included. Only the cleaning step drops empty lines.

## Model

| member | source | states |
|---|---|---|
| Strings.Find | src/tldsExtract.cpp:103-106 | the first position holding the value, with no earlier one; it equals the length exactly when the value is absent |
| Strings.IndexOf | src/tldsMain.cpp:172 | an occurrence of the pattern, and no occurrence before it; `None` only when there is no occurrence at all |
| Strings.LastIndexOf | src/tldsExtract.h:36 | an occurrence of the pattern, and no occurrence after it; `None` only when there is none |
| Strings.Count | src/tldsCache.cpp:74 | the count is at most the length, and zero exactly when the character is absent |
| Strings.CountOccurrences | src/tldsCache.cpp:74 | the count is the number of occurrences of the character: its multiplicity in the text |
| Strings.Reversed | src/tldsExtract.cpp:98 | same length, and element k is the element mirrored from the end |
| Strings.Split | src/tldsExtract.cpp:79-95 | one piece more than there are separators, and no piece holds the separator |
| Strings.JoinSplit | src/tldsExtract.cpp:79-95 | joining the pieces of a text with its separator gives back the text |
| Strings.SplitJoin | src/tldsCache.cpp:43-44 | cutting a join of separator-free pieces gives back the pieces, in order |
| SuffixCache.CodesDistinct | src/tldsCache.h:8-12 | the four failures are thrown as four different integers |
| SuffixCache.Lines | src/tldsCache.cpp:43 | no lines exactly for the empty text, and no line holds a newline |
| SuffixCache.LinesRejoin | src/tldsCache.cpp:43-44 | the lines read, joined by newlines, give back the text less one final newline |
| SuffixCache.Serialize | src/tldsCache.cpp:61-62 | the saved text is empty exactly when there are no entries, and otherwise ends in a newline |
| SuffixCache.CleanLines | src/tldsCache.cpp:71-81 | every kept line passes the filter, and no more lines are kept than were read |
| SuffixCache.CleanLinesMembers | src/tldsCache.cpp:71-81 | a line is kept exactly when it was downloaded and passes the filter |
| SuffixCache.TldsCache.constructor | src/tldsCache.cpp:3-5 | the cache binds the caller's vector and the cache file |
| SuffixCache.TldsCache.Populate | src/tldsCache.cpp:3-21 | loads when the file has content, else downloads, cleans and saves; the vector gains exactly `Obtained`; the file changes only by a save; the outcome is the code thrown on each path |
| SuffixCache.TldsCache.Clean | src/tldsCache.cpp:67-83 | the vector gains exactly the lines that pass the filter, in order |
| SuffixCache.TldsCache.Save | src/tldsCache.cpp:53-65 | an unwritable file gives 644 and stays unchanged; otherwise it holds each entry followed by a newline |
| SuffixCache.TldsCache.Load | src/tldsCache.cpp:38-52 | the vector gains every line of the file verbatim; 444 exactly when it then holds fewer than 8000 entries |
| SuffixCache.TldsCache.DeleteCache | src/tldsCache.cpp:23-36 | succeeds exactly when the file is writable, and leaves it empty, so the next build downloads |
| SuffixCache.SerializeIsJoin | src/tldsCache.cpp:61-62 | the saved text is the entries joined by newlines plus one final newline |
| SuffixCache.SaveLoadRoundTrip | src/tldsCache.cpp:38-65 | loading the saved text gives back the saved entries, in order, when no entry holds a newline |
| SuffixCache.CleanedEntries | src/tldsCache.cpp:77-80 | every kept entry is non-empty, is not a comment, has at most two dots and holds no newline |
| SuffixCache.NextRunReloads | src/tldsCache.cpp:9-19 | after a download is saved, the next build loads exactly the cleaned list; an empty cleaned list sends it back to the download |
| SuffixCache.AsSignedChar | src/tldsCache.cpp:69-74 | the stored count lies in the signed 8-bit range and equals the true count modulo 256 |
| SuffixCache.CompiledFilterAgrees | src/tldsCache.cpp:69-79 | below 128 dots, the filter as compiled and the intended filter agree |
| SuffixCache.DeepLinePassesCompiledFilter | src/tldsCache.cpp:69-79 | a line of 256 dots passes the filter as compiled, yet the intended filter rejects it |
| SuffixExtract.Host.Domain | src/tldsExtract.h:25-28 | non-empty exactly when organisation and suffix both are; its labels are the organisation followed by the suffix's labels |
| SuffixExtract.Host.Country | src/tldsExtract.h:29-32 | the tld when a suffix was found and the tld has two characters; otherwise empty |
| SuffixExtract.Host.Subdomain | src/tldsExtract.h:33-37 | as written: empty when the domain is empty or the whole hostname; otherwise the prefix of the hostname that ends at the FIRST occurrence of `.` plus the domain, or the whole hostname when there is no occurrence |
| SuffixExtract.Host.SubdomainBeforeLastMatch | src/tldsExtract.h:33-37 | corrected: empty when the domain is empty or the whole hostname; otherwise the prefix of the hostname that ends at the LAST occurrence of `.` plus the domain, or the whole hostname when there is none |
| SuffixExtract.StripFinalDot | src/tldsExtract.cpp:30-33 | a final dot is removed, and a hostname without one is kept whole |
| SuffixExtract.HostParts | src/tldsExtract.cpp:74-101 | one label more than there are dots in the name |
| SuffixExtract.Deepest | src/tldsExtract.cpp:41-59 | the depth found is known; no greater depth is known; 0 means none is |
| SuffixExtract.TldsExtract.constructor | src/tldsExtract.cpp:108-139 | the suffix list is what the cache obtains whatever it throws, and the file is changed only by the cache's save |
| SuffixExtract.TldsExtract.Extract | src/tldsExtract.cpp:25-72 | the returned host is `Resolve` of the suffix list and the hostname |
| SuffixExtract.SearchString | src/tldsExtract.cpp:44-48 | the string built at depth i is the first i parts, right-most label last, joined by dots |
| SuffixExtract.TldsExtract.GetHostPart | src/tldsExtract.cpp:74-101 | the labels, right-most first; one more than there are dots, none holding a dot |
| SuffixExtract.TldsExtract.FindTld | src/tldsExtract.cpp:103-106 | true exactly when the string is in the suffix list |
| SuffixExtract.HostPartsHaveNoDots | src/tldsExtract.cpp:84-95 | no label holds a dot |
| SuffixExtract.HostPartsRejoin | src/tldsExtract.cpp:96-98 | the labels, put back in reading order and joined with dots, give back the name |
| SuffixExtract.CandidateIsLastLabels | src/tldsExtract.cpp:44-48 | the search string at depth i is the last i labels of the name, joined by dots |
| SuffixExtract.LastLabelsSplit | src/tldsExtract.cpp:44-48 | the labels of a search string are the last labels of the name |
| SuffixExtract.ResolveOnMatch | src/tldsExtract.cpp:41-57 | when depth d is the deepest known: the suffix is the last d labels, the tld is the last label, and the organisation is the label to the left, or empty when there is none |
| SuffixExtract.ResolveOnMiss | src/tldsExtract.cpp:60-71 | when no depth is known: a reserved last label with a label before it stands in as suffix and tld; otherwise every field is empty |
| SuffixExtract.ResolveIgnoresFinalDot | src/tldsExtract.cpp:30-33 | `exemple.com.` resolves exactly like `exemple.com` |
| SuffixExtract.ResolvedSuffixIsKnown | src/tldsExtract.cpp:50-70 | the suffix is empty, a known suffix or a reserved name; the tld is empty or the last label; the hostname has lost its final dot |
| SuffixExtract.ResolvedSubdomain | src/tldsExtract.h:33-37 | with a domain shorter than the hostname: the subdomain, a dot and the domain make up the hostname, and the subdomain is the labels left of the domain |
| SuffixExtract.FourLabelExample | src/tldsExtract.cpp:35-56 | four labels whose last two are the longest known run: organisation, suffix, tld, domain and subdomain, with both subdomain readings agreeing |
| SuffixExtract.ExtractExample | src/tldsExtract.h:21-37 | `www.exemple.co.uk` with `co.uk` known: `exemple`, `co.uk`, `uk`, domain `exemple.co.uk`, country `uk`, subdomain `www` |
| SuffixExtract.SingleLabelResolve | src/tldsExtract.cpp:62 | an unknown single label, reserved or not, resolves to nothing |
| SuffixExtract.ReservedNameResolve | src/tldsExtract.cpp:60-70 | `a.z` with `z` reserved and nothing known: organisation `a`, suffix and tld `z` |
| SuffixExtract.BareSuffixResolve | src/tldsExtract.cpp:52-55 | a hostname that is a known suffix as a whole has no organisation, so no domain |
| SuffixExtract.ReservedNameExample | src/tldsMain.cpp:45-47 | `myapp.localhost` resolves to organisation `myapp` and suffix `localhost` |
| SuffixExtract.LoneReservedNameExample | src/tldsExtract.cpp:62 | `localhost` alone resolves to nothing |
| SuffixExtract.BareSuffixExample | src/tldsExtract.cpp:52-55 | `co.uk` with `co.uk` known: suffix `co.uk`, tld `uk`, no organisation, no domain |
| SuffixExtract.SubdomainStopsAtFirstOccurrence | src/tldsExtract.h:36 | in `w.o.t.o.t` with only `t` known, the domain is `o.t`; the subdomain as written is `w`, the corrected one `w.o.t` |
| SuffixExtract.SubdomainCounterexample | src/tldsExtract.h:36 | `www.example.com.example.com` with `com` known: as written `www`, corrected `www.example.com` |
| SuffixExtract.ResolvedFieldsExclude | src/tldsExtract.cpp:25-72 | a character other than the dot that the hostname lacks appears in no field, nor in the domain, country or either subdomain cut |
| Cli.FieldFlag | src/tldsMain.cpp:98-125 | an argument names a field only through that field's short or long flag, and never is a help, update or interactive flag |
| Cli.FlagSpellings | src/tldsMain.cpp:27-33 | both spellings of each field flag select that field |
| Cli.FlagsExclusive | src/tldsMain.cpp:85-125 | no argument is two kinds of flag, so the order of the tests does not matter |
| Cli.RequestedFields | src/tldsMain.cpp:98-125 | no more fields than arguments |
| Cli.RequestedFieldsAppend | src/tldsMain.cpp:82-125 | the fields of two argument runs are those of the first followed by those of the second, duplicates kept |
| Cli.RequestedFieldsMembers | src/tldsMain.cpp:98-125 | a field is requested exactly when some argument is one of its flags |
| Cli.RequestedShortFlags | src/tldsMain.cpp:98-125 | asking for a list of fields by their flags requests exactly that list, order and duplicates included |
| Cli.ScanArguments | src/tldsMain.cpp:82-141 | any help flag wins; otherwise a field flag in last position lacks its URL; otherwise the update and interactive switches and the fields in order |
| Cli.NotAFlag | src/tldsMain.cpp:158 | an argument not starting with `-` is no flag |
| Cli.ScanOfFieldFlags | src/tldsMain.cpp:82-141 | field flags followed by a non-flag set no switch and request those fields in order |
| Cli.UsageExampleScan | src/tldsMain.cpp:55 | the usage example asks for all seven fields, in flag order |
| Cli.AfterScheme | src/tldsMain.cpp:172-174 | a tail of the URL starting right after the first `://`; the whole URL when it has none |
| Cli.BeforeFirst | src/tldsMain.cpp:178-186 | a prefix without the character, ended by its first occurrence |
| Cli.HostnameFromUrl | src/tldsMain.cpp:166-189 | a prefix of the part after the scheme, holding no `:` or `/`, followed by `:` or `/` or the end |
| Cli.GetHostnameFromUrl | src/tldsMain.cpp:166-189 | erasing the scheme, then from the first `:`, then from the first `/` gives `HostnameFromUrl` |
| Cli.EraseFromFirst | src/tldsMain.cpp:178-186 | erasing from the first match of a one-character mark keeps exactly the text before that character |
| Cli.HostnameFromUrlIdempotent | src/tldsMain.cpp:166-189 | reducing a reduced hostname changes nothing |
| Cli.HostnameOfUrl | src/tldsMain.cpp:166-189 | for `scheme://host/path` with no `:` in scheme or host and no `/` in host, the result is the host, whatever the path holds |
| Cli.HostBeforePortAndPath | src/tldsMain.cpp:176-186 | once the scheme is gone, the port cut and then the path cut leave the host, whatever the path holds |
| Cli.UsageExampleHostname | src/tldsMain.cpp:55 | `http://www.exemple.co.uk/index.html` gives `www.exemple.co.uk` |
| Cli.FieldValues | src/tldsMain.cpp:203-226 | one value per requested field, in order, each the value of that field, the subdomain being `subdomain()` as written |
| Cli.FormatFields | src/tldsMain.cpp:196-227 | the line is the values with one `/` between neighbours and none before the first |
| Cli.SlashJoinedSplits | src/tldsMain.cpp:196-201 | a line of slash-free values splits back into them, with one slash fewer than values |
| Cli.OutputSeparatesFields | src/tldsMain.cpp:191-229 | for any URL with a non-empty hostname, the printed line splits at its slashes into exactly the requested values |
| Cli.AllFieldsLine | src/tldsMain.cpp:196-227 | all seven fields in order print as the seven values joined by slashes |
| Cli.UsageExampleOutput | src/tldsMain.cpp:55 | the usage example prints `www.exemple.co.uk/exemple/co.uk/www/exemple.co.uk/uk/uk` when `co.uk` is the longest known suffix |
| Cli.Run | src/tldsMain.cpp:70-164 | for each kind of argument list: usage with failure or success, missing URL, cache deletion alone, interactive mode, or the printed line; the file changes only through deletion and the extractor's cache, which also runs when the hostname turns out empty |

## Left out

- The download itself (libcurl, `download_`, src/tldsCache.cpp:98-122) is an input value: either the body of the response or one of the two failures, 400 and 404.
- Streams are modelled as whole texts. A cache file is either readable, with its content, or unreadable; it is either writable or not. Partial reads and writes are not modelled.
- Verbose logging, the messages on the error stream, the usage text (`show_usage`) and the trailing newline of the output line are not modelled.
- The singleton accessor `instance()` and `close()` are not modelled. `Run` builds one extractor for the one extraction it does.
- `interactive()` (src/tldsMain.cpp:232-262) reads from standard input in an endless loop. `Run` ends with `Interactive` at that point.
- Exit statuses are modelled as outcomes of `Run`, not as integers.
- The source headers declare `extract` without `const` and call through `instance()->` on a reference. The model follows the evident meaning: one extractor object, and extraction does not change it.
- Cli.Run: the arguments are those after the program name. An empty last argument (where `at(0)` throws) and an empty hostname (where `back()` is undefined) both end in `Aborted`. The model does not distinguish those failures further. For an empty hostname the extractor, and so the cache with its download and save, is built first, as `instance()` is evaluated before `extract` runs.
- SuffixCache.TldsCache.Clean: compares the full dot count, as the comparison is meant. As compiled, the count is narrowed to a `char` (src/tldsCache.cpp:69-74), so a line of 128 dots or more can be kept; `CompiledFilterAgrees` and `DeepLinePassesCompiledFilter` state that behaviour separately (see "## Findings").
- SuffixExtract.TldsExtract.Extract: requires a non-empty hostname, because the source reads its last character without a check.
- SuffixCache.TldsCache.constructor: a Dafny constructor cannot end in a thrown integer. The body of the C++ constructor is therefore the method `Populate`, and the constructor only binds the vector and the file.

## Findings

| source | as written | input that shows it | evidently intended | confidence | as-written member | corrected member |
|---|---|---|---|---|---|---|
| src/tldsExtract.h:36 | `subdomain()` cuts the hostname at the first occurrence of `.` plus the domain | `www.example.com.example.com` with `com` known: the domain is `example.com`, found at the end, but the subdomain is `www` | the labels left of the domain that was matched, `www.example.com` (the cut at the last occurrence) | not executed | SuffixExtract.SubdomainCounterexample | SuffixExtract.ResolvedSubdomain |
| src/tldsCache.cpp:69-79 | the dot count is stored in a plain `char` before the depth comparison | a downloaded line of 256 dots: the count wraps to 0 and the line is kept | compare the full count, so lines with three dots or more are always dropped | not executed | SuffixCache.DeepLinePassesCompiledFilter | SuffixCache.CleanedEntries |
