/**
 * The pieces of the C++ standard library that the extractor leans on,
 * stated over `string` (= `seq<char>`): `std::find` over a vector,
 * `std::string::find` and `rfind` (npos becomes `None`), `std::count`,
 * `std::reverse`, and splitting / joining text on one separator character
 * (the shape of `getHostPart_` and of `getline` loops).
 */
module Strings {

  datatype Option<T> = None | Some(value: T)

  /** `std::find` over a sequence: the first index holding `x`, or `|s|` (the end iterator). */
  function Find<T(==)>(s: seq<T>, x: T): (k: nat)
    ensures k <= |s|
    ensures k < |s| ==> s[k] == x
    ensures forall j :: 0 <= j < k ==> s[j] != x
    ensures k == |s| <==> x !in s
  {
    if s == [] then 0
    else if s[0] == x then 0
    else 1 + Find(s[1..], x)
  }

  /** The first `x` after a run without `x` is found right after that run. */
  lemma FindAfter<T>(a: seq<T>, x: T, b: seq<T>)
    requires x !in a
    ensures Find(a + [x] + b, x) == |a|
  {
    var s := a + [x] + b;
    assert s[|a|] == x;
    assert forall j :: 0 <= j < |a| ==> s[j] == a[j];
  }

  /** True when `pat` occurs in `s` starting at index `k`. */
  predicate OccursAt(s: string, pat: string, k: nat) {
    k + |pat| <= |s| && s[k..k + |pat|] == pat
  }

  lemma OccursInTail(s: string, pat: string, k: nat)
    requires |s| > 0
    ensures OccursAt(s, pat, k + 1) <==> OccursAt(s[1..], pat, k)
  {
    if k + 1 + |pat| <= |s| {
      assert s[1..][k..k + |pat|] == s[k + 1..k + 1 + |pat|];
    }
  }

  lemma OccursInInit(s: string, pat: string, k: nat)
    requires |s| > 0 && k + |pat| < |s|
    ensures OccursAt(s, pat, k) <==> OccursAt(s[..|s| - 1], pat, k)
  {
    assert s[..|s| - 1][k..k + |pat|] == s[k..k + |pat|];
  }

  /** `std::string::find`: the first index at which `pat` occurs; `None` stands for npos. */
  function IndexOf(s: string, pat: string): (r: Option<nat>)
    ensures r.Some? ==> OccursAt(s, pat, r.value)
    ensures forall k: nat :: OccursAt(s, pat, k) ==> r.Some? && r.value <= k
    decreases |s|
  {
    if |s| < |pat| then None
    else if s[..|pat|] == pat then Some(0)
    else
      var rest := IndexOf(s[1..], pat);
      assert forall k: nat | k >= 1 :: OccursAt(s, pat, k) <==> OccursAt(s[1..], pat, k - 1) by {
        forall k: nat | k >= 1 ensures OccursAt(s, pat, k) <==> OccursAt(s[1..], pat, k - 1) {
          OccursInTail(s, pat, k - 1);
        }
      }
      assert !OccursAt(s, pat, 0);
      match rest
      case None => None
      case Some(k) => Some(k + 1)
  }

  /** `std::string::rfind`: the last index at which `pat` occurs; `None` stands for npos. */
  function LastIndexOf(s: string, pat: string): (r: Option<nat>)
    ensures r.Some? ==> OccursAt(s, pat, r.value)
    ensures forall k: nat :: OccursAt(s, pat, k) ==> r.Some? && k <= r.value
    decreases |s|
  {
    if |s| < |pat| then None
    else if s[|s| - |pat|..] == pat then Some(|s| - |pat|)
    else
      assert forall k: nat :: k + |pat| < |s| ==> (OccursAt(s, pat, k) <==> OccursAt(s[..|s| - 1], pat, k)) by {
        forall k: nat | k + |pat| < |s| { OccursInInit(s, pat, k); }
      }
      LastIndexOf(s[..|s| - 1], pat)
  }

  /** An occurrence with none before it is the one `IndexOf` finds. */
  lemma IndexOfFirst(s: string, pat: string, k: nat)
    requires OccursAt(s, pat, k)
    requires forall j: nat :: j < k ==> !OccursAt(s, pat, j)
    ensures IndexOf(s, pat) == Some(k)
  {
  }

  /** A pattern right after a prefix that lacks its first character occurs first there. */
  lemma FirstOccurrenceAfter(s: string, w: string, pat: string, rest: string)
    requires pat != [] && pat[0] !in w
    requires s == w + pat + rest
    ensures IndexOf(s, pat) == Some(|w|)
  {
    assert OccursAt(s, pat, |w|) by { assert s[|w|..|w| + |pat|] == pat; }
    forall k: nat | k < |w| ensures !OccursAt(s, pat, k) {
      if k + |pat| <= |s| {
        assert s[k..k + |pat|][0] == w[k];
      }
    }
    IndexOfFirst(s, pat, |w|);
  }

  /** When `s` ends with `pat`, its last occurrence is the one at the end. */
  lemma LastIndexOfEnd(a: string, pat: string)
    ensures LastIndexOf(a + pat, pat) == Some(|a|)
  {
    var s := a + pat;
    assert OccursAt(s, pat, |a|) by { assert s[|a|..|a| + |pat|] == pat; }
  }

  /** `std::count`: how many times `c` occurs in `s`. */
  function Count(s: string, c: char): (n: nat)
    ensures n <= |s|
    ensures n == 0 <==> c !in s
  {
    if s == [] then 0
    else
      var init := s[..|s| - 1];
      assert s == init + [s[|s| - 1]];
      Count(init, c) + (if s[|s| - 1] == c then 1 else 0)
  }

  /** `Count` is the number of occurrences of `c`: its multiplicity in `s`. */
  lemma {:induction false} CountOccurrences(s: string, c: char)
    ensures Count(s, c) == multiset(s)[c]
  {
    if s != [] {
      var init := s[..|s| - 1];
      CountOccurrences(init, c);
      InitLast(s);
      assert multiset(s) == multiset(init) + multiset{s[|s| - 1]} by {
        assert s == init + [s[|s| - 1]];
      }
    }
  }

  /** `std::reverse`, as a value. */
  function Reversed<T>(s: seq<T>): (r: seq<T>)
    ensures |r| == |s|
    ensures forall k :: 0 <= k < |s| ==> r[k] == s[|s| - 1 - k]
  {
    if s == [] then [] else [s[|s| - 1]] + Reversed(s[..|s| - 1])
  }

  /**
   * The pieces of `s` between occurrences of `sep`, left to right; there is
   * always one more piece than there are separators. Defined one character at
   * a time from the left, the way a loop over the characters builds it.
   */
  function Split(s: string, sep: char): (parts: seq<string>)
    ensures |parts| == Count(s, sep) + 1
    ensures forall k :: 0 <= k < |parts| ==> sep !in parts[k]
  {
    if s == [] then [""]
    else
      var init := Split(s[..|s| - 1], sep);
      var c := s[|s| - 1];
      if c == sep then init + [""]
      else init[..|init| - 1] + [init[|init| - 1] + [c]]
  }

  /** The pieces put back together with one `sep` between neighbours. */
  function Join(parts: seq<string>, sep: char): string
    requires |parts| >= 1
  {
    if |parts| == 1 then parts[0]
    else Join(parts[..|parts| - 1], sep) + [sep] + parts[|parts| - 1]
  }

  /** Joining what `Split` produced gives back the text. */
  lemma {:induction false} JoinSplit(s: string, sep: char)
    ensures Join(Split(s, sep), sep) == s
  {
    if s != [] {
      var init := s[..|s| - 1];
      var c := s[|s| - 1];
      var p := Split(init, sep);
      JoinSplit(init, sep);
      assert s == init + [c];
      if c == sep {
        assert (p + [""])[..|p|] == p;
      } else {
        var m := |p|;
        var q := p[..m - 1] + [p[m - 1] + [c]];
        if m > 1 {
          assert q[..m - 1] == p[..m - 1];
          assert p[..m - 1] == p[..|p| - 1];
        }
      }
    }
  }

  /** One more character extends the last piece, or starts a new one when it is `sep`. */
  lemma SplitSnoc(s: string, c: char, sep: char)
    ensures Split(s + [c], sep) ==
      var p := Split(s, sep);
      if c == sep then p + [""] else p[..|p| - 1] + [p[|p| - 1] + [c]]
  {
    assert (s + [c])[..|s|] == s;
  }

  /** The inductive step of `SplitAround` when the next character is another separator. */
  lemma SplitAroundSep(pa: seq<string>, pb: seq<string>, s: string, b: string, sep: char)
    requires Split(s, sep) == pa + pb && Split(b, sep) == pb
    ensures Split(s + [sep], sep) == pa + Split(b + [sep], sep)
  {
    SplitSnocSep(s, sep);
    SplitSnocSep(b, sep);
    AppendAssoc(pa, pb, [""]);
  }

  /** The front of a concatenation, as long as its first part, is that part. */
  lemma PrefixOfAppend<T>(a: seq<T>, b: seq<T>)
    ensures (a + b)[..|a|] == a && |a + b| == |a| + |b|
  {
  }

  /** Concatenation is associative. */
  lemma AppendAssoc<T>(a: seq<T>, b: seq<T>, c: seq<T>)
    ensures a + b + c == a + (b + c)
  {
  }

  /** A separator at the end starts a new, empty piece. */
  lemma SplitSnocSep(s: string, sep: char)
    ensures Split(s + [sep], sep) == Split(s, sep) + [""]
  {
    SplitSnoc(s, sep, sep);
  }

  /** The inductive step of `SplitAround` when the next character is not a separator. */
  lemma SplitAroundOther(pa: seq<string>, pb: seq<string>, s: string, b: string, c: char, sep: char)
    requires c != sep && |pb| >= 1
    requires Split(s, sep) == pa + pb && Split(b, sep) == pb
    ensures Split(s + [c], sep) == pa + Split(b + [c], sep)
  {
    SplitSnoc(s, c, sep);
    SplitSnoc(b, c, sep);
    ReplaceLast(pa, pb, pb[|pb| - 1] + [c]);
  }

  /** Replacing the last element of `pa + pb` replaces the last element of `pb`. */
  lemma ReplaceLast<T>(pa: seq<T>, pb: seq<T>, y: T)
    requires |pb| >= 1
    ensures var p := pa + pb;
      p[|p| - 1] == pb[|pb| - 1] && p[..|p| - 1] + [y] == pa + (pb[..|pb| - 1] + [y])
  {
    var p := pa + pb;
    assert p[..|p| - 1] == pa + pb[..|pb| - 1];
  }

  /** Splitting `a + sep + b` splits `a` and `b` apart. */
  lemma {:induction false} SplitAround(a: string, b: string, sep: char)
    ensures Split(a + [sep] + b, sep) == Split(a, sep) + Split(b, sep)
    decreases |b|
  {
    if b == [] {
      SplitSnoc(a, sep, sep);
      assert a + [sep] + b == a + [sep];
    } else {
      var b' := b[..|b| - 1];
      assert b == b' + [b[|b| - 1]];
      var c := b[|b| - 1];
      SplitAround(a, b', sep);
      assert a + [sep] + b == (a + [sep] + b') + [c];
      if c == sep {
        SplitAroundSep(Split(a, sep), Split(b', sep), a + [sep] + b', b', sep);
      } else {
        SplitAroundOther(Split(a, sep), Split(b', sep), a + [sep] + b', b', c, sep);
      }
    }
  }

  /** A text without `sep` is a single piece. */
  lemma SplitWithout(t: string, sep: char)
    requires sep !in t
    ensures Split(t, sep) == [t]
  {
    JoinSplit(t, sep);
  }

  /** A non-empty sequence is its front followed by its last element. */
  lemma InitLast<T>(s: seq<T>)
    requires |s| >= 1
    ensures s[..|s| - 1] + [s[|s| - 1]] == s
  {
  }

  /** Appending a non-empty sequence appends its front, then its last element. */
  lemma AppendInitLast<T>(a: seq<T>, b: seq<T>)
    requires |b| >= 1
    ensures a + b == (a + b[..|b| - 1]) + [b[|b| - 1]]
  {
    InitLast(b);
    assert a + (b[..|b| - 1] + [b[|b| - 1]]) == (a + b[..|b| - 1]) + [b[|b| - 1]];
  }

  /** The prefix of length `i + 1` extends the prefix of length `i` by element `i`. */
  lemma PrefixSnoc<T>(s: seq<T>, i: nat)
    requires i < |s|
    ensures s[..i + 1] == s[..i] + [s[i]]
  {
  }

  /** Splitting what `Join` produced gives back the pieces, when no piece holds `sep`. */
  lemma {:induction false} SplitJoin(parts: seq<string>, sep: char)
    requires |parts| >= 1
    requires forall k :: 0 <= k < |parts| ==> sep !in parts[k]
    ensures Split(Join(parts, sep), sep) == parts
  {
    var n := |parts|;
    if n == 1 {
      SplitWithout(parts[0], sep);
    } else {
      var init := parts[..n - 1];
      var a := Join(init, sep);
      var b := parts[n - 1];
      InitLast(parts);
      assert Join(parts, sep) == a + [sep] + b;
      SplitJoin(init, sep);
      SplitAround(a, b, sep);
      SplitWithout(b, sep);
    }
  }

  /** A join of `k` and `|ps| - k` pieces: cutting the piece list cuts the text at a separator. */
  lemma {:induction false} JoinCut(ps: seq<string>, k: nat, sep: char)
    requires 1 <= k < |ps|
    ensures Join(ps, sep) == Join(ps[..k], sep) + [sep] + Join(ps[k..], sep)
    decreases |ps|
  {
    var n := |ps|;
    assert ps[..n - 1][..k] == ps[..k];
    if k < n - 1 {
      JoinCut(ps[..n - 1], k, sep);
      assert ps[..n - 1][k..] == ps[k..n - 1];
      assert ps[k..][..|ps[k..]| - 1] == ps[k..n - 1];
    } else {
      assert ps[k..] == [ps[n - 1]];
    }
  }

  /** One more piece adds a separator and the piece. */
  lemma JoinSnoc(ps: seq<string>, x: string, sep: char)
    requires |ps| >= 1
    ensures Join(ps + [x], sep) == Join(ps, sep) + [sep] + x
  {
    assert (ps + [x])[..|ps|] == ps;
  }

  /** A join of two or more pieces contains the separator. */
  lemma JoinHasSeparator(ps: seq<string>, sep: char)
    requires |ps| >= 2
    ensures sep in Join(ps, sep)
  {
    var j := Join(ps[..|ps| - 1], sep);
    assert (j + [sep] + ps[|ps| - 1])[|j|] == sep;
  }

  /** `find` of a one-character pattern is `std::find` of that character. */
  lemma IndexOfChar(s: string, c: char)
    ensures IndexOf(s, [c]) == if c in s then Some(Find(s, c)) else None
  {
    if c in s {
      var k := Find(s, c);
      assert OccursAt(s, [c], k) by { assert s[k..k + 1] == [c]; }
      forall j: nat | j < k ensures !OccursAt(s, [c], j) {
        assert s[j..j + 1][0] == s[j];
      }
      IndexOfFirst(s, [c], k);
    } else {
      forall j: nat | j + 1 <= |s| ensures !OccursAt(s, [c], j) {
        assert s[j..j + 1][0] == s[j];
      }
    }
  }

  /** A character absent from `s` is absent from every piece of it. */
  lemma {:induction false} SplitExcludes(s: string, sep: char, x: char)
    requires x !in s
    ensures forall k :: 0 <= k < |Split(s, sep)| ==> x !in Split(s, sep)[k]
  {
    if s != [] {
      var init := s[..|s| - 1];
      var c := s[|s| - 1];
      assert x !in init by {
        forall j | 0 <= j < |init| ensures init[j] != x { assert init[j] == s[j]; }
      }
      SplitExcludes(init, sep, x);
      var p := Split(init, sep);
      if c != sep {
        var m := |p|;
        forall k | 0 <= k < |Split(s, sep)| ensures x !in Split(s, sep)[k] {
          if k < m - 1 {
            assert Split(s, sep)[k] == p[k];
          } else {
            assert Split(s, sep)[k] == p[m - 1] + [c];
          }
        }
      }
    }
  }

  /** A character other than the separator that no piece holds is absent from the join. */
  lemma {:induction false} JoinExcludes(ps: seq<string>, sep: char, x: char)
    requires |ps| >= 1 && x != sep
    requires forall k :: 0 <= k < |ps| ==> x !in ps[k]
    ensures x !in Join(ps, sep)
  {
    if |ps| > 1 {
      JoinExcludes(ps[..|ps| - 1], sep, x);
    }
  }

  /** Every character counted in `s` is `c` when `s` holds nothing else. */
  lemma {:induction false} CountUniform(s: string, c: char)
    requires forall k :: 0 <= k < |s| ==> s[k] == c
    ensures Count(s, c) == |s|
  {
    if s != [] {
      CountUniform(s[..|s| - 1], c);
    }
  }
}
