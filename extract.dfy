/**
 * Suffix resolution: a hostname is cut into its dot-separated labels and the
 * longest run of right-most labels that is a known public suffix is taken as
 * the suffix; the label to its left is the organisation. When no suffix is
 * known, the four names reserved by section 2 of RFC 2606 stand in as
 * suffixes, provided there is a label to their left.
 */
module SuffixExtract {
  import opened Strings
  import SuffixCache

  /** Names reserved for local use by section 2 of RFC 2606. */
  const Rfc2606: seq<string> := ["test", "example", "invalid", "localhost"]

  /**
   * The result of an extraction. For `www.exemple.co.uk`: organisation
   * `exemple`, suffix `co.uk`, tld `uk`; domain `exemple.co.uk`, subdomain
   * `www`, country `uk`.
   */
  datatype Host = Host(hostname: string, organisation: string, suffix: string, tld: string)
  {
    /** Organisation and suffix together, when both are known. */
    function Domain(): (d: string)
      ensures d != [] <==> organisation != [] && suffix != []
      ensures d != [] && '.' !in organisation ==> Split(d, '.') == [organisation] + Split(suffix, '.')
    {
      if organisation != [] && suffix != [] then
        SplitAround(organisation, suffix, '.');
        SplitWithoutAlways(organisation);
        organisation + "." + suffix
      else ""
    }

    /** The tld when it is a two-letter country code and a suffix was found. */
    function Country(): (c: string)
      ensures c == [] || (c == tld && |c| == 2 && suffix != [])
      ensures suffix != [] && |tld| == 2 ==> c == tld
    {
      if suffix != [] && |tld| == 2 then tld else ""
    }

    /**
     * The part of the hostname before the domain, as written: the hostname is
     * cut at the FIRST occurrence of `"." + domain`, and kept whole when there
     * is none.
     */
    function Subdomain(): (s: string)
      ensures s <= hostname
      ensures s != [] ==> Domain() != [] && Domain() != hostname
      ensures s != [] && s != hostname ==>
        s + "." + Domain() <= hostname &&
        forall k: nat :: k < |s| ==> !OccursAt(hostname, "." + Domain(), k)
      ensures Domain() != [] && Domain() != hostname && (exists k: nat :: OccursAt(hostname, "." + Domain(), k)) ==>
        OccursAt(hostname, "." + Domain(), |s|) && forall k: nat :: k < |s| ==> !OccursAt(hostname, "." + Domain(), k)
      ensures Domain() != [] && Domain() != hostname && (forall k: nat :: !OccursAt(hostname, "." + Domain(), k)) ==>
        s == hostname
    {
      var dom := Domain();
      if dom != [] && dom != hostname then
        match IndexOf(hostname, "." + dom)
        case None => hostname
        case Some(k) =>
          assert hostname[..k] + "." + dom == hostname[..k + |dom| + 1];
          hostname[..k]
      else ""
    }

    /**
     * The part of the hostname before the domain, cutting at the LAST
     * occurrence of `"." + domain`, which is where the domain that was found
     * starts.
     */
    function SubdomainBeforeLastMatch(): (s: string)
      ensures s <= hostname
      ensures s != [] ==> Domain() != [] && Domain() != hostname
      ensures s != [] && s != hostname ==>
        s + "." + Domain() <= hostname &&
        forall k: nat :: k > |s| ==> !OccursAt(hostname, "." + Domain(), k)
      ensures Domain() != [] && Domain() != hostname && (exists k: nat :: OccursAt(hostname, "." + Domain(), k)) ==>
        OccursAt(hostname, "." + Domain(), |s|) && forall k: nat :: k > |s| ==> !OccursAt(hostname, "." + Domain(), k)
      ensures Domain() != [] && Domain() != hostname && (forall k: nat :: !OccursAt(hostname, "." + Domain(), k)) ==>
        s == hostname
    {
      var dom := Domain();
      if dom != [] && dom != hostname then
        match LastIndexOf(hostname, "." + dom)
        case None => hostname
        case Some(k) =>
          assert hostname[..k] + "." + dom == hostname[..k + |dom| + 1];
          hostname[..k]
      else ""
    }
  }

  lemma SplitWithoutAlways(t: string)
    ensures '.' !in t ==> Split(t, '.') == [t]
  {
    if '.' !in t {
      SplitWithout(t, '.');
    }
  }

  /** The hostname with one trailing dot removed, if it has one. */
  function StripFinalDot(hostname: string): (name: string)
    requires hostname != []
    ensures hostname[|hostname| - 1] == '.' ==> hostname == name + "."
    ensures hostname[|hostname| - 1] != '.' ==> name == hostname
  {
    if hostname[|hostname| - 1] == '.' then hostname[..|hostname| - 1] else hostname
  }

  /** The labels of a name, right-most first. */
  function HostParts(name: string): (hp: seq<string>)
    ensures |hp| == Count(name, '.') + 1
  {
    Reversed(Split(name, '.'))
  }

  /** The search string at depth `i`: the first `i` parts, right-most label last, joined by dots. */
  function Candidate(hp: seq<string>, i: nat): string
    requires 1 <= i <= |hp|
  {
    if i == 1 then hp[0] else hp[i - 1] + "." + Candidate(hp, i - 1)
  }

  /** The largest depth, at most `i`, whose search string is in `tlds`; 0 when there is none. */
  function Deepest(tlds: seq<string>, hp: seq<string>, i: nat): (d: nat)
    requires i <= |hp|
    ensures d <= i
    ensures d > 0 ==> Candidate(hp, d) in tlds
    ensures forall k :: d < k <= i ==> Candidate(hp, k) !in tlds
  {
    if i == 0 then 0
    else if Candidate(hp, i) in tlds then i
    else Deepest(tlds, hp, i - 1)
  }

  /** What an extraction returns for `hostname` when the known suffixes are `tlds`. */
  function Resolve(tlds: seq<string>, hostname: string): Host
    requires hostname != []
  {
    var name := StripFinalDot(hostname);
    var hp := HostParts(name);
    var d := Deepest(tlds, hp, |hp|);
    if d > 0 then Host(name, if d < |hp| then hp[d] else "", Candidate(hp, d), hp[0])
    else if |hp| > 1 && hp[0] in Rfc2606 then Host(name, hp[1], hp[0], hp[0])
    else Host(name, "", "", "")
  }

  /** The labels of a name, left to right. */
  function Labels(name: string): seq<string> {
    Split(name, '.')
  }

  /** The last `k` labels of a name, joined by dots. */
  function LastLabels(name: string, k: nat): string
    requires 1 <= k <= |Labels(name)|
  {
    var labels := Labels(name);
    Join(labels[|labels| - k..], '.')
  }

  /**
   * The extractor: the list of known suffixes, filled once by the cache when
   * the extractor is built, and the search over it.
   */
  class TldsExtract {
    const tlds: SuffixCache.SuffixVector

    /**
     * Builds the list of known suffixes through the cache. Every error the
     * cache throws is swallowed: the extractor goes on with whatever the
     * vector holds by then, and the reserved names still resolve.
     */
    constructor (file: SuffixCache.CacheFile, download: SuffixCache.Download)
      modifies file
      ensures fresh(tlds)
      ensures tlds.items == SuffixCache.Obtained(old(file.content), download)
      ensures file.content ==
        if SuffixCache.NeedsDownload(old(file.content)) && download.Fetched? && file.writable
        then Some(SuffixCache.Serialize(tlds.items)) else old(file.content)
    {
      var v := new SuffixCache.SuffixVector();
      var cache := new SuffixCache.TldsCache(v, file);
      var _ := cache.Populate(download);
      tlds := v;
    }

    /** The extraction: strip one final dot, then search from the most labels down to one. */
    method Extract(hostname: string) returns (h: Host)
      requires hostname != []
      ensures h == Resolve(tlds.items, hostname)
    {
      h := Host(hostname, "", "", "");
      if h.hostname[|h.hostname| - 1] == '.' {
        h := h.(hostname := h.hostname[..|h.hostname| - 1]);
      }
      var hostpart := GetHostPart(h.hostname);
      var i := |hostpart|;
      while i > 0
        invariant 0 <= i <= |hostpart|
        invariant Deepest(tlds.items, hostpart, |hostpart|) == Deepest(tlds.items, hostpart, i)
        invariant h == Host(StripFinalDot(hostname), "", "", "")
      {
        var searchString := SearchString(hostpart, i);
        if FindTld(searchString) {
          if i < |hostpart| {
            h := h.(organisation := hostpart[i]);
          }
          h := h.(suffix := searchString, tld := hostpart[0]);
          return;
        }
        i := i - 1;
      }
      if |hostpart| > 1 {
        if Find(Rfc2606, hostpart[0]) < |Rfc2606| {
          h := h.(organisation := hostpart[1], suffix := hostpart[0], tld := hostpart[0]);
        }
      }
    }

    /** The labels of a hostname, right-most first, built one character at a time and then reversed. */
    method GetHostPart(hostname: string) returns (hostpart: seq<string>)
      ensures hostpart == HostParts(hostname)
      ensures |hostpart| == Count(hostname, '.') + 1
      ensures forall k :: 0 <= k < |hostpart| ==> '.' !in hostpart[k]
    {
      hostpart := [""];
      var stringIndex := 0;
      for k := 0 to |hostname|
        invariant hostpart == Split(hostname[..k], '.')
        invariant stringIndex == |hostpart| - 1
      {
        var c := hostname[k];
        ghost var prefix := hostname[..k];
        assert hostname[..k + 1] == prefix + [c];
        SplitSnoc(prefix, c, '.');
        if c == '.' {
          hostpart := hostpart + [""];
          stringIndex := stringIndex + 1;
        } else {
          hostpart := hostpart[..stringIndex] + [hostpart[stringIndex] + [c]];
        }
      }
      assert hostname[..|hostname|] == hostname;
      hostpart := Reversed(hostpart);
      HostPartsHaveNoDots(hostname);
    }

    /** Whether `s` is one of the known suffixes, by a linear search. */
    function FindTld(s: string): (found: bool)
      reads tlds
      ensures found <==> s in tlds.items
    {
      Find(tlds.items, s) < |tlds.items|
    }
  }

  /** The inner loop of the extraction: the first `i` parts, each new one put in front with a dot. */
  method SearchString(hostpart: seq<string>, i: nat) returns (searchString: string)
    requires 1 <= i <= |hostpart|
    ensures searchString == Candidate(hostpart, i)
  {
    searchString := hostpart[0];
    var j := 1;
    while j < i
      invariant 1 <= j <= i
      invariant searchString == Candidate(hostpart, j)
    {
      searchString := hostpart[j] + "." + searchString;
      j := j + 1;
    }
  }

  /** No label holds a dot. */
  lemma HostPartsHaveNoDots(name: string)
    ensures forall k :: 0 <= k < |HostParts(name)| ==> '.' !in HostParts(name)[k]
  {
    var labels := Split(name, '.');
    var hp := HostParts(name);
    forall k | 0 <= k < |hp| ensures '.' !in hp[k] {
      assert hp[k] == labels[|labels| - 1 - k];
    }
  }

  /** Putting the parts back in reading order and joining them with dots gives back the name. */
  lemma HostPartsRejoin(name: string)
    ensures Join(Reversed(HostParts(name)), '.') == name
  {
    var labels := Split(name, '.');
    var back := Reversed(HostParts(name));
    assert back == labels;
    JoinSplit(name, '.');
  }

  /** The search string at depth `i` is the last `i` labels of the name, joined by dots. */
  lemma {:induction false} CandidateIsLastLabels(name: string, i: nat)
    requires 1 <= i <= |Labels(name)|
    ensures Candidate(HostParts(name), i) == LastLabels(name, i)
  {
    var labels := Labels(name);
    var n := |labels|;
    var tail := labels[n - i..];
    if i == 1 {
      assert tail == [labels[n - 1]];
    } else {
      CandidateIsLastLabels(name, i - 1);
      JoinCut(tail, 1, '.');
      assert tail[..1] == [labels[n - i]];
      assert tail[1..] == labels[n - (i - 1)..];
    }
  }

  /** All the labels of a name, joined, give back the name. */
  lemma LastLabelsAll(name: string)
    ensures LastLabels(name, |Labels(name)|) == name
  {
    var labels := Labels(name);
    assert labels[0..] == labels;
    JoinSplit(name, '.');
  }

  /** The labels of the joined right-most labels are those labels. */
  lemma LastLabelsSplit(name: string, k: nat)
    requires 1 <= k <= |Labels(name)|
    ensures Labels(LastLabels(name, k)) == Labels(name)[|Labels(name)| - k..]
  {
    var labels := Labels(name);
    var tail := labels[|labels| - k..];
    forall i | 0 <= i < |tail| ensures '.' !in tail[i] {
      assert tail[i] == labels[|labels| - k + i];
    }
    SplitJoin(tail, '.');
  }

  /** Two or more right-most labels, joined, are never a single label. */
  lemma LastLabelsHaveDot(name: string, k: nat)
    requires 2 <= k <= |Labels(name)|
    ensures '.' in LastLabels(name, k)
  {
    var labels := Labels(name);
    JoinHasSeparator(labels[|labels| - k..], '.');
  }

  /**
   * A hit: when `d` right-most labels form a known suffix and no longer run
   * of right-most labels does, the suffix is those `d` labels, the tld is the
   * last label and the organisation is the label just left of the suffix (none
   * when the whole name is the suffix).
   */
  lemma ResolveOnMatch(tlds: seq<string>, hostname: string, d: nat)
    requires hostname != []
    requires 1 <= d <= |Labels(StripFinalDot(hostname))|
    requires LastLabels(StripFinalDot(hostname), d) in tlds
    requires forall k :: d < k <= |Labels(StripFinalDot(hostname))| ==> LastLabels(StripFinalDot(hostname), k) !in tlds
    ensures var name := StripFinalDot(hostname);
      var labels := Labels(name);
      var n := |labels|;
      Resolve(tlds, hostname) ==
        Host(name, if d < n then labels[n - 1 - d] else "", LastLabels(name, d), labels[n - 1])
  {
    var name := StripFinalDot(hostname);
    var labels := Labels(name);
    var n := |labels|;
    var hp := HostParts(name);
    var dd := Deepest(tlds, hp, n);
    if dd < d {
      CandidateIsLastLabels(name, d);
      assert false;
    } else if dd > d {
      CandidateIsLastLabels(name, dd);
      assert false;
    }
    CandidateIsLastLabels(name, d);
    assert hp[0] == labels[n - 1];
    if d < n {
      assert hp[d] == labels[n - 1 - d];
    }
  }

  /**
   * A miss: when no run of right-most labels is a known suffix, a name of two
   * or more labels whose last label is reserved by RFC 2606 takes that label
   * as suffix and tld and the one before it as organisation; any other name
   * keeps only its hostname.
   */
  lemma ResolveOnMiss(tlds: seq<string>, hostname: string)
    requires hostname != []
    requires forall k :: 1 <= k <= |Labels(StripFinalDot(hostname))| ==> LastLabels(StripFinalDot(hostname), k) !in tlds
    ensures var name := StripFinalDot(hostname);
      var labels := Labels(name);
      var n := |labels|;
      Resolve(tlds, hostname) ==
        if n > 1 && labels[n - 1] in Rfc2606 then Host(name, labels[n - 2], labels[n - 1], labels[n - 1])
        else Host(name, "", "", "")
  {
    var name := StripFinalDot(hostname);
    var n := |Labels(name)|;
    var labels := Labels(name);
    var hp := HostParts(name);
    var dd := Deepest(tlds, hp, n);
    if dd > 0 {
      CandidateIsLastLabels(name, dd);
      assert false;
    }
    assert hp[0] == labels[n - 1];
    if n > 1 {
      assert hp[1] == labels[n - 2];
    }
  }

  /** A fully qualified name with its final dot resolves like the name without it. */
  lemma ResolveIgnoresFinalDot(tlds: seq<string>, hostname: string)
    requires hostname != [] && hostname[|hostname| - 1] != '.'
    ensures Resolve(tlds, hostname + ".") == Resolve(tlds, hostname)
  {
    assert StripFinalDot(hostname + ".") == hostname by {
      assert (hostname + ".")[..|hostname|] == hostname;
    }
  }

  /** Whatever is found, the suffix is a known suffix or a reserved name, and the tld is its last label. */
  lemma ResolvedSuffixIsKnown(tlds: seq<string>, hostname: string)
    requires hostname != []
    ensures var r := Resolve(tlds, hostname);
      r.hostname == StripFinalDot(hostname) &&
      (r.suffix == [] || r.suffix in tlds || r.suffix in Rfc2606) &&
      (r.tld == [] || r.tld == Labels(r.hostname)[|Labels(r.hostname)| - 1])
  {
    var name := StripFinalDot(hostname);
    var labels := Labels(name);
    var n := |labels|;
    var hp := HostParts(name);
    assert hp[0] == labels[n - 1];
  }

  /**
   * A name of `j` right-most labels, with at least one label left of it,
   * sits at the end of the whole name after a dot, and that is its last
   * occurrence.
   */
  lemma DomainEndsName(name: string, j: nat)
    requires 2 <= j < |Labels(name)|
    ensures var labels := Labels(name);
      var front := Join(labels[..|labels| - j], '.');
      name == front + "." + LastLabels(name, j) &&
      LastIndexOf(name, "." + LastLabels(name, j)) == Some(|front|)
  {
    var labels := Labels(name);
    var n := |labels|;
    var front := Join(labels[..n - j], '.');
    var dom := LastLabels(name, j);
    assert dom == Join(labels[n - j..], '.');
    assert Join(labels, '.') == name by { JoinSplit(name, '.'); }
    JoinCut(labels, n - j, '.');
    assert name == front + ['.'] + dom;
    assert name == front + ("." + dom);
    LastIndexOfEnd(front, "." + dom);
  }

  /** A host whose domain is `j` right-most labels of its name, with labels to spare, has those labels' left neighbours as subdomain. */
  lemma SubdomainOfDepth(h: Host, j: nat)
    requires 2 <= j < |Labels(h.hostname)|
    requires h.Domain() == LastLabels(h.hostname, j)
    ensures var labels := Labels(h.hostname);
      h.SubdomainBeforeLastMatch() == Join(labels[..|labels| - j], '.') &&
      h.SubdomainBeforeLastMatch() + "." + h.Domain() == h.hostname
    ensures SubdomainRejoins(h)
  {
    var labels := Labels(h.hostname);
    var front := Join(labels[..|labels| - j], '.');
    LastMatchOfDepth(h.hostname, j);
    SubdomainBeforeLastMatchAt(h, |front|);
    assert 2 <= j < |labels| && h.Domain() == LastLabels(h.hostname, j) &&
      h.SubdomainBeforeLastMatch() == Join(labels[..|labels| - j], '.');
  }

  /** The last `j` labels, with labels to spare, are neither empty nor the whole name, and their last match is where they start. */
  lemma LastMatchOfDepth(name: string, j: nat)
    requires 2 <= j < |Labels(name)|
    ensures var labels := Labels(name);
      var front := Join(labels[..|labels| - j], '.');
      var dom := LastLabels(name, j);
      dom != [] && dom != name && name == front + "." + dom && name[..|front|] == front &&
      LastIndexOf(name, "." + dom) == Some(|front|)
  {
    var labels := Labels(name);
    var front := Join(labels[..|labels| - j], '.');
    var dom := LastLabels(name, j);
    DomainEndsName(name, j);
    LastLabelsHaveDot(name, j);
    PrefixOfAppend(front, "." + dom);
    assert name == front + ("." + dom);
  }

  /** The subdomain, a dot and the domain make up the hostname, and the subdomain is the labels left of the domain. */
  predicate SubdomainRejoins(h: Host) {
    var labels := Labels(h.hostname);
    var n := |labels|;
    h.Domain() != [] && h.Domain() != h.hostname ==>
      h.SubdomainBeforeLastMatch() + "." + h.Domain() == h.hostname &&
      exists j :: 2 <= j < n && h.Domain() == LastLabels(h.hostname, j) &&
        h.SubdomainBeforeLastMatch() == Join(labels[..n - j], '.')
  }

  /**
   * Cutting at the last occurrence, the subdomain of an extraction is exactly
   * the labels left of the domain: subdomain, a dot and the domain make up
   * the hostname again.
   */
  lemma ResolvedSubdomain(tlds: seq<string>, hostname: string)
    requires hostname != []
    ensures SubdomainRejoins(Resolve(tlds, hostname))
  {
    var r := Resolve(tlds, hostname);
    var name := StripFinalDot(hostname);
    var n := |Labels(name)|;
    var hp := HostParts(name);
    var d := Deepest(tlds, hp, n);
    if r.Domain() != [] && r.Domain() != r.hostname {
      // the domain is the search string one label deeper than the suffix
      var j := if d > 0 then d + 1 else 2;
      assert 2 <= j <= n && r.Domain() == Candidate(hp, j);
      CandidateIsLastLabels(name, j);
      if j == n {
        LastLabelsAll(name);
        assert false;
      }
      SubdomainOfDepth(r, j);
    }
  }

  /** A name built from dot-free labels has those labels, and its right-most labels join as the tail of the list. */
  lemma LabelsOfJoin(parts: seq<string>)
    requires |parts| >= 1
    requires forall k :: 0 <= k < |parts| ==> '.' !in parts[k]
    ensures Labels(Join(parts, '.')) == parts
    ensures forall k :: 1 <= k <= |parts| ==> LastLabels(Join(parts, '.'), k) == Join(parts[|parts| - k..], '.')
  {
    var name := Join(parts, '.');
    SplitJoin(parts, '.');
    forall k | 1 <= k <= |parts| ensures LastLabels(name, k) == Join(parts[|parts| - k..], '.') {
      LastLabelsOf(name, parts, k);
    }
  }

  /** The last `k` labels of a name, read off a known list of its labels. */
  lemma LastLabelsOf(name: string, labels: seq<string>, k: nat)
    requires Labels(name) == labels && 1 <= k <= |labels|
    ensures LastLabels(name, k) == Join(labels[|labels| - k..], '.')
  {
  }

  /** The subdomain as written is the hostname up to the first match of `"." + domain`. */
  lemma SubdomainAt(h: Host, k: nat)
    requires h.Domain() != [] && h.Domain() != h.hostname
    requires IndexOf(h.hostname, "." + h.Domain()) == Some(k)
    ensures h.Subdomain() == h.hostname[..k]
  {
  }

  /** The corrected subdomain is the hostname up to the last match of `"." + domain`. */
  lemma SubdomainBeforeLastMatchAt(h: Host, k: nat)
    requires h.Domain() != [] && h.Domain() != h.hostname
    requires LastIndexOf(h.hostname, "." + h.Domain()) == Some(k)
    ensures h.SubdomainBeforeLastMatch() == h.hostname[..k]
  {
  }

  /** When the hostname is one dot-free label, a dot and the domain, both ways of cutting give that label. */
  lemma SubdomainsAfterLabel(h: Host, w: string, dom: string)
    requires '.' !in w && dom != []
    requires h.hostname == w + "." + dom && h.Domain() == dom
    ensures h.Subdomain() == w && h.SubdomainBeforeLastMatch() == w
  {
    var pat := "." + dom;
    var name := h.hostname;
    assert name == w + pat + [];
    assert |name| > |dom|;
    FirstOccurrenceAfter(name, w, pat, []);
    assert name == w + pat;
    LastIndexOfEnd(w, pat);
    SubdomainAt(h, |w|);
    SubdomainBeforeLastMatchAt(h, |w|);
    assert name[..|w|] == w;
  }

  /** The labels of a four-label name and the joins of its right-most labels. */
  lemma FourLabels(w: string, e: string, c: string, u: string)
    requires u != []
    requires '.' !in w && '.' !in e && '.' !in c && '.' !in u
    ensures var name := w + "." + e + "." + c + "." + u;
      StripFinalDot(name) == name && Labels(name) == [w, e, c, u] &&
      LastLabels(name, 1) == u && LastLabels(name, 2) == c + "." + u &&
      LastLabels(name, 3) == e + "." + c + "." + u && LastLabels(name, 4) == name
  {
    var name := w + "." + e + "." + c + "." + u;
    var parts := [w, e, c, u];
    assert Join([w], '.') == w;
    JoinSnoc([w], e, '.');
    assert [w] + [e] == [w, e];
    JoinSnoc([w, e], c, '.');
    assert [w, e] + [c] == [w, e, c];
    JoinSnoc([w, e, c], u, '.');
    assert [w, e, c] + [u] == parts;
    assert Join(parts, '.') == name;
    LabelsOfJoin(parts);
    assert Join([c], '.') == c && Join([e], '.') == e;
    JoinSnoc([c], u, '.');
    JoinSnoc([e], c, '.');
    JoinSnoc([e, c], u, '.');
    assert [c] + [u] == [c, u] && [e] + [c] == [e, c] && [e, c] + [u] == [e, c, u];
    assert parts[3..] == [u] && parts[2..] == [c, u] && parts[1..] == [e, c, u] && parts[0..] == parts;
    assert name[|name| - 1] == u[|u| - 1];
  }

  /** Four labels whose last two form the longest known suffix: the search stops at depth two. */
  lemma FourLabelResolve(tlds: seq<string>, name: string, w: string, e: string, c: string, u: string)
    requires u != []
    requires '.' !in w && '.' !in e && '.' !in c && '.' !in u
    requires name == w + "." + (e + "." + (c + "." + u))
    requires c + "." + u in tlds
    requires e + "." + (c + "." + u) !in tlds && name !in tlds
    ensures name != []
    ensures Resolve(tlds, name) == Host(name, e, c + "." + u, u)
  {
    FourLabels(w, e, c, u);
    assert name == w + "." + e + "." + c + "." + u;
    assert e + "." + (c + "." + u) == e + "." + c + "." + u;
    ResolveOnMatch(tlds, name, 2);
  }

  /**
   * The worked example in the comments of `tldsExtract.h`, `www.exemple.co.uk`,
   * with its labels left open: a hostname `w.e.c.u` whose suffix `c.u` is the
   * longest known one. The domain is `e.c.u` and both ways of cutting give
   * the subdomain `w`.
   */
  lemma FourLabelExample(tlds: seq<string>, w: string, e: string, c: string, u: string)
    requires e != [] && u != []
    requires '.' !in w && '.' !in e && '.' !in c && '.' !in u
    requires c + "." + u in tlds
    requires e + "." + (c + "." + u) !in tlds && w + "." + (e + "." + (c + "." + u)) !in tlds
    ensures var suffix := c + "." + u;
      var domain := e + "." + suffix;
      var name := w + "." + domain;
      var r := Resolve(tlds, name);
      r == Host(name, e, suffix, u) && r.Domain() == domain &&
      r.Subdomain() == w && r.SubdomainBeforeLastMatch() == w
  {
    var suffix := c + "." + u;
    var domain := e + "." + suffix;
    var name := w + "." + domain;
    FourLabelResolve(tlds, name, w, e, c, u);
    SubdomainsAfterLabel(Resolve(tlds, name), w, domain);
  }

  /** The example itself: `www.exemple.co.uk` under a list that knows `co.uk` only. */
  lemma ExtractExample(tlds: seq<string>)
    requires "co.uk" in tlds && "exemple.co.uk" !in tlds && "www.exemple.co.uk" !in tlds
    ensures var r := Resolve(tlds, "www.exemple.co.uk");
      r == Host("www.exemple.co.uk", "exemple", "co.uk", "uk") &&
      r.Domain() == "exemple.co.uk" && r.Country() == "uk" &&
      r.Subdomain() == "www" && r.SubdomainBeforeLastMatch() == "www"
  {
    ExampleName();
    FourLabelExample(tlds, "www", "exemple", "co", "uk");
  }

  /** The example hostname, assembled from its labels. */
  lemma ExampleName()
    ensures "co" + "." + "uk" == "co.uk"
    ensures "exemple" + "." + "co.uk" == "exemple.co.uk"
    ensures "www" + "." + "exemple.co.uk" == "www.exemple.co.uk"
  {
  }

  /** A name of one label resolves to that label alone when it is not a known suffix, reserved or not. */
  lemma SingleLabelResolve(tlds: seq<string>, a: string)
    requires a != [] && '.' !in a && a !in tlds
    ensures Resolve(tlds, a) == Host(a, "", "", "")
  {
    SplitWithout(a, '.');
    LastLabelsAll(a);
    ResolveOnMiss(tlds, a);
  }

  /** Two labels, unknown as a whole and as the last label, with the last reserved by RFC 2606: the reserved name stands in as suffix. */
  lemma ReservedNameResolve(tlds: seq<string>, a: string, z: string)
    requires '.' !in a && '.' !in z && z != []
    requires z in Rfc2606 && z !in tlds && a + "." + z !in tlds
    ensures a + "." + z != []
    ensures Resolve(tlds, a + "." + z) == Host(a + "." + z, a, z, z)
  {
    var name := a + "." + z;
    assert Join([a], '.') == a;
    JoinSnoc([a], z, '.');
    assert [a] + [z] == [a, z];
    LabelsOfJoin([a, z]);
    assert [a, z][1..] == [z] && [a, z][0..] == [a, z];
    assert name[|name| - 1] == z[|z| - 1];
    ResolveOnMiss(tlds, name);
  }

  /** Two labels that are a known suffix as a whole: no organisation and so no domain. */
  lemma BareSuffixResolve(tlds: seq<string>, name: string, c: string, u: string)
    requires '.' !in c && '.' !in u && u != []
    requires name == c + "." + u && name in tlds
    ensures name != []
    ensures Resolve(tlds, name) == Host(name, "", name, u)
  {
    assert Join([c], '.') == c;
    JoinSnoc([c], u, '.');
    assert [c] + [u] == [c, u];
    LabelsOfJoin([c, u]);
    LastLabelsAll(name);
    assert name[|name| - 1] == u[|u| - 1];
    ResolveOnMatch(tlds, name, 2);
  }

  /** `myapp.localhost`: the reserved name stands in as suffix when no suffix is known. */
  lemma ReservedNameExample(tlds: seq<string>)
    requires "localhost" !in tlds && "myapp.localhost" !in tlds
    ensures Resolve(tlds, "myapp.localhost") == Host("myapp.localhost", "myapp", "localhost", "localhost")
  {
    assert "myapp" + "." + "localhost" == "myapp.localhost";
    ReservedNameResolve(tlds, "myapp", "localhost");
  }

  /** `localhost` alone has no label to its left, so nothing is found. */
  lemma LoneReservedNameExample(tlds: seq<string>)
    requires "localhost" !in tlds
    ensures Resolve(tlds, "localhost") == Host("localhost", "", "", "")
  {
    SingleLabelResolve(tlds, "localhost");
  }

  /** `co.uk` under a list that knows it: suffix and tld, no organisation, no domain. */
  lemma BareSuffixExample(tlds: seq<string>)
    requires "co.uk" in tlds
    ensures var r := Resolve(tlds, "co.uk");
      r == Host("co.uk", "", "co.uk", "uk") && r.Domain() == "" && r.Country() == "uk"
  {
    assert "co" + "." + "uk" == "co.uk";
    BareSuffixResolve(tlds, "co.uk", "co", "uk");
  }

  /** The domain of a name that repeats it: `w.o.t.o.t` with only `t` known. */
  lemma RepeatedDomainResolve(name: string, w: string, o: string, t: string)
    requires t != []
    requires '.' !in w && '.' !in o && '.' !in t
    requires name == w + "." + (o + "." + t) + "." + (o + "." + t)
    ensures name != []
    ensures Resolve([t], name) == Host(name, o, t, t)
  {
    RepeatLabels(w, o, t);
    assert name == w + "." + o + "." + t + "." + o + "." + t;
    forall k | 1 < k <= 5 ensures LastLabels(name, k) !in [t] {
      LastLabelsHaveDot(name, k);
    }
    ResolveOnMatch([t], name, 1);
  }

  /** The labels of `w.o.t.o.t` and its last label. */
  lemma RepeatLabels(w: string, o: string, t: string)
    requires t != []
    requires '.' !in w && '.' !in o && '.' !in t
    ensures var name := w + "." + o + "." + t + "." + o + "." + t;
      StripFinalDot(name) == name && Labels(name) == [w, o, t, o, t] && LastLabels(name, 1) == t
  {
    var name := w + "." + o + "." + t + "." + o + "." + t;
    var parts := [w, o, t, o, t];
    assert Join([w], '.') == w;
    JoinSnoc([w], o, '.');
    assert [w] + [o] == [w, o];
    JoinSnoc([w, o], t, '.');
    assert [w, o] + [t] == [w, o, t];
    JoinSnoc([w, o, t], o, '.');
    assert [w, o, t] + [o] == [w, o, t, o];
    JoinSnoc([w, o, t, o], t, '.');
    assert [w, o, t, o] + [t] == parts;
    assert Join(parts, '.') == name;
    LabelsOfJoin(parts);
    assert parts[4..] == [t];
    assert name[|name| - 1] == t[|t| - 1];
  }

  /** With the domain repeated after the first label, the first match is right after that label and the last one ends the name. */
  lemma SubdomainsOfRepeat(h: Host, w: string, dom: string)
    requires '.' !in w && dom != []
    requires h.hostname == w + "." + dom + "." + dom && h.Domain() == dom
    ensures h.Subdomain() == w && h.SubdomainBeforeLastMatch() == w + "." + dom
  {
    var pat := "." + dom;
    var name := h.hostname;
    var front := w + pat;
    assert name == w + pat + pat && name == front + pat;
    assert |name| > |dom|;
    FirstOccurrenceAfter(name, w, pat, pat);
    LastIndexOfEnd(front, pat);
    SubdomainAt(h, |w|);
    SubdomainBeforeLastMatchAt(h, |front|);
    assert name[..|w|] == w;
    assert name[..|front|] == front;
  }

  /**
   * The subdomain as written cuts at the first occurrence of the domain: for
   * `w.o.t.o.t` with `t` the only known suffix the domain is `o.t`, the
   * labels left of it are `w.o.t`, and the cut keeps only `w`. Cutting at the
   * last occurrence gives `w.o.t`.
   */
  lemma SubdomainStopsAtFirstOccurrence(w: string, o: string, t: string)
    requires o != [] && t != []
    requires '.' !in w && '.' !in o && '.' !in t
    ensures var domain := o + "." + t;
      var name := w + "." + domain + "." + domain;
      var r := Resolve([t], name);
      r == Host(name, o, t, t) && r.Domain() == domain &&
      r.Subdomain() == w && r.SubdomainBeforeLastMatch() == w + "." + domain
  {
    var domain := o + "." + t;
    var name := w + "." + domain + "." + domain;
    RepeatedDomainResolve(name, w, o, t);
    SubdomainsOfRepeat(Resolve([t], name), w, domain);
  }

  /** The finding on a concrete hostname: `www.example.com.example.com` with `com` known. */
  lemma SubdomainCounterexample()
    ensures var r := Resolve(["com"], "www.example.com.example.com");
      r.Domain() == "example.com" &&
      r.Subdomain() == "www" && r.SubdomainBeforeLastMatch() == "www.example.com"
  {
    assert "example" + "." + "com" == "example.com";
    assert "www" + "." + "example.com" + "." + "example.com" == "www.example.com.example.com";
    assert "www" + "." + "example.com" == "www.example.com";
    SubdomainStopsAtFirstOccurrence("www", "example", "com");
  }

  /** A prefix of a text lacks every character the text lacks. */
  lemma PrefixExcludes(p: string, s: string, x: char)
    requires p <= s && x !in s
    ensures x !in p
  {
    forall j | 0 <= j < |p| ensures p[j] != x {
      assert p[j] == s[j];
    }
  }

  /** A character other than the dot that the name lacks appears in none of its labels. */
  lemma HostPartsExclude(name: string, x: char)
    requires x != '.' && x !in name
    ensures forall k :: 0 <= k < |HostParts(name)| ==> x !in HostParts(name)[k]
  {
    var labels := Labels(name);
    var n := |labels|;
    var hp := HostParts(name);
    SplitExcludes(name, '.', x);
    forall k | 0 <= k < n ensures x !in hp[k] {
      assert hp[k] == labels[n - 1 - k];
    }
  }

  /** A character other than the dot that the name lacks appears in no search string. */
  lemma CandidateExcludes(name: string, d: nat, x: char)
    requires x != '.' && x !in name
    requires 1 <= d <= |Labels(name)|
    ensures x !in Candidate(HostParts(name), d)
  {
    var labels := Labels(name);
    var n := |labels|;
    SplitExcludes(name, '.', x);
    CandidateIsLastLabels(name, d);
    var tail := labels[n - d..];
    forall k | 0 <= k < |tail| ensures x !in tail[k] {
      assert tail[k] == labels[n - d + k];
    }
    JoinExcludes(tail, '.', x);
  }

  /** The three stored fields of an extraction lack what the name lacks, the dot aside. */
  lemma ResolvedPartsExclude(tlds: seq<string>, hostname: string, x: char)
    requires hostname != [] && x != '.' && x !in StripFinalDot(hostname)
    ensures var r := Resolve(tlds, hostname);
      x !in r.organisation && x !in r.suffix && x !in r.tld
  {
    var name := StripFinalDot(hostname);
    var hp := HostParts(name);
    var d := Deepest(tlds, hp, |hp|);
    HostPartsExclude(name, x);
    if d > 0 {
      CandidateExcludes(name, d, x);
    }
  }

  /** A character other than the dot that the hostname lacks appears in no field of the extraction. */
  lemma ResolvedFieldsExclude(tlds: seq<string>, hostname: string, x: char)
    requires hostname != [] && x != '.' && x !in hostname
    ensures var r := Resolve(tlds, hostname);
      x !in r.hostname && x !in r.organisation && x !in r.suffix && x !in r.tld &&
      x !in r.Domain() && x !in r.Country() && x !in r.Subdomain() && x !in r.SubdomainBeforeLastMatch()
  {
    var name := StripFinalDot(hostname);
    PrefixExcludes(name, hostname, x);
    ResolvedPartsExclude(tlds, hostname, x);
    var r := Resolve(tlds, hostname);
    assert r.hostname == name;
    PrefixExcludes(r.Subdomain(), r.hostname, x);
    PrefixExcludes(r.SubdomainBeforeLastMatch(), r.hostname, x);
  }
}
