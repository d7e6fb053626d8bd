/** `clean_url` of scraper/utils.py: delete wrapped HTML tags, strip the
    surrounding whitespace, then delete the trailing run of `:`, `/` and `;`. */
module UrlCleaning {
  import opened Strings

  // ---------------------------------------------------------------------------
  // Step 1: re.sub(r'<[^>]+>', '', url)
  // ---------------------------------------------------------------------------

  /** The regular expression `<[^>]+>` matches `s[i..j + 1]`: a `<`, at least
      one character other than `>`, then a `>`. */
  ghost predicate IsTagAt(s: string, i: nat, j: nat)
  {
    && i + 1 < j < |s|
    && s[i] == '<'
    && s[j] == '>'
    && (forall k :: i < k < j ==> s[k] != '>')
  }

  ghost predicate HasTag(s: string)
  {
    exists i: nat, j: nat :: IsTagAt(s, i, j)
  }

  /** Where a match of `<[^>]+>` starting at position 0 would close: the first
      `>` after the leading character, or `|s|` when there is none. */
  function TagClose(s: string): (k: nat)
    requires s != []
    ensures 1 <= k <= |s|
    ensures forall m :: 1 <= m < k ==> s[m] != '>'
    ensures k < |s| ==> s[k] == '>'
  {
    1 + IndexOf(s[1..], '>')
  }

  /** One left-to-right pass of the substitution: at each position, a match is
      deleted and scanning resumes after it; otherwise one character is kept. */
  function StripTags(s: string): (r: string)
    decreases |s|
  {
    if s == [] then []
    else if s[0] == '<' && 2 <= TagClose(s) < |s| then StripTags(s[TagClose(s) + 1..])
    else [s[0]] + StripTags(s[1..])
  }

  /** A match starts at position 0 exactly when `StripTags` takes its first branch. */
  lemma TagAtStart(s: string, j: nat)
    requires IsTagAt(s, 0, j)
    ensures TagClose(s) == j
  {
  }

  lemma MatchAtStart(s: string)
    requires s != [] && s[0] == '<' && 2 <= TagClose(s) < |s|
    ensures IsTagAt(s, 0, TagClose(s))
  {
  }

  /** A leading `>` can never start a match, so the pass keeps it. */
  lemma LeadingCloseKept(t: string)
    requires t != [] && t[0] == '>'
    ensures StripTags(t) != [] && StripTags(t)[0] == '>'
  {
  }

  lemma {:induction false} StripTagsSubsequence(s: string)
    ensures IsSubsequence(StripTags(s), s)
    decreases |s|
  {
    if s != [] {
      if s[0] == '<' && 2 <= TagClose(s) < |s| {
        StripTagsSubsequence(s[TagClose(s) + 1..]);
        SubsequenceOfSuffix(StripTags(s), s, TagClose(s) + 1);
      } else {
        StripTagsSubsequence(s[1..]);
        assert ([s[0]] + StripTags(s[1..]))[1..] == StripTags(s[1..]);
      }
    }
  }

  /** A tag inside `s[1..]` is a tag of `s`, one position later. */
  lemma TagShift(s: string, i: nat, j: nat)
    requires s != []
    requires IsTagAt(s[1..], i, j)
    ensures IsTagAt(s, i + 1, j + 1)
  {
  }

  /** No match of `<[^>]+>` survives the pass. */
  lemma {:induction false} StripTagsTagFree(s: string)
    ensures !HasTag(StripTags(s))
    decreases |s|
  {
    if s != [] {
      if s[0] == '<' && 2 <= TagClose(s) < |s| {
        StripTagsTagFree(s[TagClose(s) + 1..]);
      } else {
        var t := s[1..];
        var r := StripTags(t);
        var out := [s[0]] + r;
        assert StripTags(s) == out;
        StripTagsTagFree(t);
        forall i: nat, j: nat ensures !IsTagAt(out, i, j) {
          if i > 0 {
            assert IsTagAt(out, i, j) ==> IsTagAt(r, i - 1, j - 1) by {
              if IsTagAt(out, i, j) {
                assert forall k :: i - 1 < k < j - 1 ==> r[k] == out[k + 1];
              }
            }
          } else if s[0] == '<' && TagClose(s) == |s| {
            // no `>` after the leading `<`, so none in what is kept of it
            assert '>' !in t by {
              forall m | 0 <= m < |t| ensures t[m] != '>' {
                assert s[m + 1] != '>';
              }
            }
            StripTagsSubsequence(t);
            SubsequenceElements(r, t);
            assert 1 <= j < |out| ==> out[j] == r[j - 1];
          } else if s[0] == '<' {
            // the leading `<` is followed directly by `>`, which is kept
            LeadingCloseKept(t);
            assert out[1] == '>';
          }
        }
      }
    }
  }

  /** Without a match the pass changes nothing. */
  lemma {:induction false} StripTagsNoMatch(s: string)
    requires !HasTag(s)
    ensures StripTags(s) == s
    decreases |s|
  {
    if s != [] {
      if s[0] == '<' && 2 <= TagClose(s) < |s| {
        MatchAtStart(s);
        assert false;
      } else {
        if HasTag(s[1..]) {
          var i: nat, j: nat :| IsTagAt(s[1..], i, j);
          TagShift(s, i, j);
          assert false;
        }
        StripTagsNoMatch(s[1..]);
        assert s == [s[0]] + s[1..];
      }
    }
  }

  /** With a match the pass deletes at least one character. */
  lemma {:induction false} StripTagsShortens(s: string)
    requires HasTag(s)
    ensures |StripTags(s)| < |s|
    decreases |s|
  {
    var i: nat, j: nat :| IsTagAt(s, i, j);
    StripTagsSubsequence(s[TagClose(s) + 1..]);
    if s[0] == '<' && 2 <= TagClose(s) < |s| {
      SubsequenceLength(StripTags(s[TagClose(s) + 1..]), s[TagClose(s) + 1..]);
    } else {
      if i == 0 {
        TagAtStart(s, j);
        assert false;
      }
      assert IsTagAt(s[1..], i - 1, j - 1) by {
        assert forall k :: i - 1 < k < j - 1 ==> s[1..][k] == s[k + 1];
      }
      StripTagsShortens(s[1..]);
    }
  }

  /** The pass leaves its input unchanged exactly when the input holds no match. */
  lemma StripTagsUnchanged(s: string)
    ensures StripTags(s) == s <==> !HasTag(s)
  {
    if HasTag(s) {
      StripTagsShortens(s);
    } else {
      StripTagsNoMatch(s);
    }
  }

  // The next four lemmas restate the pass position by position, in terms of
  // `IsTagAt`: together they determine `StripTags` on every input.

  /** A character other than `<` is kept, and the scan moves on past it. */
  lemma StripTagsKeepsOther(s: string)
    requires s != [] && s[0] != '<'
    ensures StripTags(s) == [s[0]] + StripTags(s[1..])
  {
  }

  /** Text without `<` is kept as it is, in front of whatever the pass makes
      of the rest. */
  lemma {:induction false} StripTagsKeepsOpenFree(a: string, b: string)
    requires '<' !in a
    ensures StripTags(a + b) == a + StripTags(b)
    decreases |a|
  {
    if a == [] {
      assert a + b == b;
    } else {
      assert a == [a[0]] + a[1..];
      assert (a + b)[1..] == a[1..] + b;
      StripTagsKeepsOther(a + b);
      StripTagsKeepsOpenFree(a[1..], b);
    }
  }

  /** A match at the scan position is deleted whole, and the scan resumes
      after its `>`. */
  lemma StripTagsDeletesMatch(s: string, j: nat)
    requires IsTagAt(s, 0, j)
    ensures StripTags(s) == StripTags(s[j + 1..])
  {
    TagAtStart(s, j);
  }

  /** A `<` that starts no match is kept, and the scan moves on by one. */
  lemma StripTagsKeepsUnmatchedOpen(s: string)
    requires s != [] && s[0] == '<'
    requires forall j: nat :: !IsTagAt(s, 0, j)
    ensures StripTags(s) == s[..1] + StripTags(s[1..])
  {
    if 2 <= TagClose(s) < |s| {
      MatchAtStart(s);
      assert false;
    }
    assert s[..1] == [s[0]];
  }

  /** Every contiguous slice of a tag-free string is tag-free. */
  lemma SliceTagFree(s: string, lo: nat, hi: nat)
    requires lo <= hi <= |s|
    requires !HasTag(s)
    ensures !HasTag(s[lo..hi])
  {
    if HasTag(s[lo..hi]) {
      var i: nat, j: nat :| IsTagAt(s[lo..hi], i, j);
      assert IsTagAt(s, i + lo, j + lo) by {
        assert forall k :: i + lo < k < j + lo ==> s[k] == s[lo..hi][k - lo];
      }
    }
  }

  // ---------------------------------------------------------------------------
  // Steps 2 and 3: url.strip() and re.sub(r'[:/;]+$', '', url)
  // ---------------------------------------------------------------------------

  /** The length of the longest prefix of `s` whose characters satisfy `p`. */
  function LeadingRun(s: string, p: char -> bool): (n: nat)
    ensures n <= |s|
    ensures forall k :: 0 <= k < n ==> p(s[k])
    ensures n == |s| || !p(s[n])
    decreases |s|
  {
    if s != [] && p(s[0]) then 1 + LeadingRun(s[1..], p) else 0
  }

  /** The length of the longest suffix of `s` whose characters satisfy `p`. */
  function TrailingRun(s: string, p: char -> bool): (n: nat)
    ensures n <= |s|
    ensures forall k :: |s| - n <= k < |s| ==> p(s[k])
    ensures n == |s| || !p(s[|s| - n - 1])
    decreases |s|
  {
    if s != [] && p(s[|s| - 1]) then 1 + TrailingRun(s[..|s| - 1], p) else 0
  }

  /** Deletes the longest prefix whose characters all satisfy `p`. */
  function DropPrefixWhile(s: string, p: char -> bool): (r: string)
    ensures IsSuffix(r, s)
    ensures forall k :: 0 <= k < |s| - |r| ==> p(s[k])
    ensures r == [] || !p(r[0])
  {
    s[LeadingRun(s, p)..]
  }

  /** Deletes the longest suffix whose characters all satisfy `p`. */
  function DropSuffixWhile(s: string, p: char -> bool): (r: string)
    ensures |r| <= |s| && r == s[..|r|]
    ensures forall k :: |r| <= k < |s| ==> p(s[k])
    ensures r == [] || !p(r[|r| - 1])
  {
    s[..|s| - TrailingRun(s, p)]
  }

  /** `r == s[lo..lo + |r|]` and every character of `s` around that slice
      satisfies `p`. */
  ghost predicate SliceBetween(s: string, r: string, lo: nat, p: char -> bool)
  {
    && lo + |r| <= |s|
    && r == s[lo..lo + |r|]
    && (forall k :: 0 <= k < lo ==> p(s[k]))
    && (forall k :: lo + |r| <= k < |s| ==> p(s[k]))
  }

  /** A prefix `r` of the suffix `s[lo..]` is the slice `s[lo..lo + |r|]`, and
      what follows it in the suffix is what follows it in `s`. */
  lemma PrefixOfSuffix(s: string, lo: nat, r: string, p: char -> bool)
    requires lo <= |s| && |r| <= |s| - lo && r == s[lo..][..|r|]
    requires forall k :: |r| <= k < |s| - lo ==> p(s[lo..][k])
    ensures r == s[lo..lo + |r|]
    ensures forall k :: lo + |r| <= k < |s| ==> p(s[k])
  {
    forall k | lo + |r| <= k < |s|
      ensures p(s[k])
    {
      assert s[k] == s[lo..][k - lo];
    }
  }

  /** Trimming both ends leaves a slice with only trimmed characters around it. */
  lemma DropBothSides(s: string, p: char -> bool)
    ensures SliceBetween(s, DropSuffixWhile(DropPrefixWhile(s, p), p), LeadingRun(s, p), p)
  {
    var front := DropPrefixWhile(s, p);
    var r := DropSuffixWhile(front, p);
    var lo := LeadingRun(s, p);
    PrefixOfSuffix(s, lo, r, p);
  }

  /** When neither end of `s` satisfies `p`, the only such slice is `s`. */
  lemma SliceBetweenWhole(s: string, r: string, p: char -> bool)
    requires SliceBetween(s, r, LeadingRun(s, p), p)
    ensures s == [] || (!p(s[0]) && !p(s[|s| - 1])) ==> r == s
  {
    if s != [] && !p(s[0]) && !p(s[|s| - 1]) {
      assert LeadingRun(s, p) == 0;
      assert |r| == |s|;
      assert r == s[0..|s|];
    }
  }

  /** Deletes the longest prefix and the longest suffix whose characters all
      satisfy `p`. */
  function Trim(s: string, p: char -> bool): (r: string)
    ensures SliceBetween(s, r, LeadingRun(s, p), p)
    ensures r == [] || (!p(r[0]) && !p(r[|r| - 1]))
    ensures s == [] || (!p(s[0]) && !p(s[|s| - 1])) ==> r == s
  {
    var front := DropPrefixWhile(s, p);
    var r := DropSuffixWhile(front, p);
    DropBothSides(s, p);
    SliceBetweenWhole(s, r, p);
    assert r == [] || r[0] == front[0];
    r
  }

  /** Python's `s.strip()`: the slice of `s` that starts after its leading
      whitespace and is followed by whitespace only, and that does not itself
      end in whitespace. */
  function Strip(s: string): (r: string)
    ensures SliceBetween(s, r, LeadingRun(s, IsSpace), IsSpace)
    ensures r == [] || (!IsSpace(r[0]) && !IsSpace(r[|r| - 1]))
    ensures s == [] || (!IsSpace(s[0]) && !IsSpace(s[|s| - 1])) ==> r == s
  {
    Trim(s, IsSpace)
  }

  /** The characters of the character class `[:/;]`. */
  predicate IsUrlSeparator(c: char)
  {
    c == ':' || c == '/' || c == ';'
  }

  // ---------------------------------------------------------------------------
  // clean_url
  // ---------------------------------------------------------------------------

  /** `clean_url(url)`. After the strip the string cannot end in a newline,
      so the `$` anchor of the last step means the end of the string and the
      step deletes the maximal trailing run of separators. */
  function CleanUrl(url: string): (r: string)
    ensures r == [] || !IsSpace(r[0])
    ensures r == [] || !IsUrlSeparator(r[|r| - 1])
  {
    DropSuffixWhile(Strip(StripTags(url)), IsUrlSeparator)
  }

  /** Deleting the trailing separators of a slice `m == t[lo..lo + |m|]`
      keeps `t[lo..hi]`, where `t[hi..lo + |m|]` are the deleted separators. */
  lemma SeparatorsAfterSlice(t: string, m: string, lo: nat) returns (hi: nat)
    requires lo + |m| <= |t| && m == t[lo..lo + |m|]
    ensures lo <= hi <= lo + |m|
    ensures DropSuffixWhile(m, IsUrlSeparator) == t[lo..hi]
    ensures forall k :: hi <= k < lo + |m| ==> IsUrlSeparator(t[k])
    ensures lo == hi || !IsUrlSeparator(t[hi - 1])
    ensures m != [] ==> t[lo] == m[0] && t[lo + |m| - 1] == m[|m| - 1]
  {
    var r := DropSuffixWhile(m, IsUrlSeparator);
    hi := lo + |r|;
    assert r == m[..|r|];
    forall k | hi <= k < lo + |m|
      ensures IsUrlSeparator(t[k])
    {
      assert t[k] == m[k - lo];
    }
    if lo < hi {
      assert t[hi - 1] == m[|r| - 1] == r[|r| - 1];
    }
  }

  /** Steps 2 and 3 keep the slice `t[lo..hi]` of their input `t`: whitespace
      before it, then separators up to `end`, then whitespace after it. */
  lemma TrimmedSlice(t: string) returns (lo: nat, hi: nat, end: nat)
    ensures lo <= hi <= end <= |t|
    ensures DropSuffixWhile(Strip(t), IsUrlSeparator) == t[lo..hi]
    ensures forall k :: 0 <= k < lo ==> IsSpace(t[k])
    ensures forall k :: hi <= k < end ==> IsUrlSeparator(t[k])
    ensures forall k :: end <= k < |t| ==> IsSpace(t[k])
    ensures lo == end || (!IsSpace(t[lo]) && !IsSpace(t[end - 1]))
    ensures lo == hi || !IsUrlSeparator(t[hi - 1])
  {
    var stripped := Strip(t);
    lo := LeadingRun(t, IsSpace);
    end := lo + |stripped|;
    hi := SeparatorsAfterSlice(t, stripped, lo);
  }

  /** What `clean_url` keeps of the tag-stripped input `t`: the slice
      `t[lo..hi]`. In front of it `t` holds only whitespace; behind it comes a
      run of `:`, `/` and `;` (up to `end`) and then only whitespace.
      `t[lo..end]` is the stripped string, so it has no whitespace at either
      end, and the kept slice does not end in a separator. */
  lemma CleanUrlIsSliceOfStripped(url: string) returns (t: string, lo: nat, hi: nat, end: nat)
    ensures t == StripTags(url)
    ensures lo <= hi <= end <= |t|
    ensures CleanUrl(url) == t[lo..hi]
    ensures forall k :: 0 <= k < lo ==> IsSpace(t[k])
    ensures forall k :: hi <= k < end ==> IsUrlSeparator(t[k])
    ensures forall k :: end <= k < |t| ==> IsSpace(t[k])
    ensures lo == end || (!IsSpace(t[lo]) && !IsSpace(t[end - 1]))
    ensures lo == hi || !IsUrlSeparator(t[hi - 1])
  {
    t := StripTags(url);
    assert CleanUrl(url) == DropSuffixWhile(Strip(t), IsUrlSeparator);
    lo, hi, end := TrimmedSlice(t);
  }

  /** `clean_url` only deletes characters. */
  lemma CleanUrlSubsequence(url: string)
    ensures IsSubsequence(CleanUrl(url), url)
    ensures |CleanUrl(url)| <= |url|
  {
    var t, lo, hi, _ := CleanUrlIsSliceOfStripped(url);
    SliceIsSubsequence(t, lo, hi);
    StripTagsSubsequence(url);
    SubsequenceTransitive(CleanUrl(url), t, url);
    SubsequenceLength(CleanUrl(url), url);
  }

  /** No match of `<[^>]+>` is left in the result: the later steps only trim
      the ends of a tag-free string. */
  lemma CleanUrlTagFree(url: string)
    ensures !HasTag(CleanUrl(url))
  {
    var t, lo, hi, _ := CleanUrlIsSliceOfStripped(url);
    StripTagsTagFree(url);
    SliceTagFree(t, lo, hi);
  }

  /** A URL with no match, no surrounding whitespace and no trailing separator. */
  ghost predicate IsCleanForm(s: string)
  {
    && !HasTag(s)
    && (s == [] || (!IsSpace(s[0]) && !IsSpace(s[|s| - 1]) && !IsUrlSeparator(s[|s| - 1])))
  }

  /** Nothing is deleted from a string whose last character fails `p`. */
  lemma DropSuffixWhileNone(s: string, p: char -> bool)
    requires s == [] || !p(s[|s| - 1])
    ensures DropSuffixWhile(s, p) == s
  {
    assert TrailingRun(s, p) == 0;
  }

  /** A last character that satisfies `p` is deleted, and the deletion goes on
      in front of it. */
  lemma DropSuffixWhileStep(s: string, p: char -> bool)
    requires s != [] && p(s[|s| - 1])
    ensures DropSuffixWhile(s, p) == DropSuffixWhile(s[..|s| - 1], p)
  {
    var n := TrailingRun(s[..|s| - 1], p);
    assert TrailingRun(s, p) == 1 + n;
    assert s[..|s| - 1 - n] == s[..|s| - 1][..|s| - 1 - n];
  }

  /** A string in clean form is a fixpoint of `clean_url`. */
  lemma CleanFormUnchanged(url: string)
    requires IsCleanForm(url)
    ensures CleanUrl(url) == url
  {
    StripTagsNoMatch(url);
    assert Strip(url) == url;
    DropSuffixWhileNone(url, IsUrlSeparator);
  }

  /** A fixpoint of `clean_url` is in clean form. */
  lemma UnchangedIsCleanForm(url: string)
    requires CleanUrl(url) == url
    ensures IsCleanForm(url)
  {
    CleanUrlTagFree(url);
    StripTagsNoMatch(url);
    var stripped := Strip(url);
    assert |stripped| == |url| by {
      assert |url| == |DropSuffixWhile(stripped, IsUrlSeparator)| <= |stripped| <= |url|;
    }
    assert LeadingRun(url, IsSpace) == 0;
    assert stripped == url[0..|url|] == url;
  }

  /** `clean_url` returns its input unchanged exactly when the input is already
      in clean form. */
  lemma CleanUrlUnchanged(url: string)
    ensures CleanUrl(url) == url <==> IsCleanForm(url)
  {
    if IsCleanForm(url) {
      CleanFormUnchanged(url);
    }
    if CleanUrl(url) == url {
      UnchangedIsCleanForm(url);
    }
  }

  /** A second pass changes nothing unless the first result ends in whitespace
      (which only happens when that whitespace preceded deleted separators). */
  lemma CleanUrlIdempotentWithoutTrailingSpace(url: string)
    requires CleanUrl(url) == [] || !IsSpace(CleanUrl(url)[|CleanUrl(url)| - 1])
    ensures CleanUrl(CleanUrl(url)) == CleanUrl(url)
  {
    var r := CleanUrl(url);
    CleanUrlTagFree(url);
    assert IsCleanForm(r);
    CleanUrlUnchanged(r);
  }

  /** A string without `<` holds no match. */
  lemma NoOpenNoTag(s: string)
    requires '<' !in s
    ensures !HasTag(s)
  {
  }

  /** Trimming `w + [c]` deletes just `c` when `c` satisfies `p` and neither
      end of `w` does. */
  lemma TrimDropsLast(w: string, c: char, p: char -> bool)
    requires w != [] && !p(w[0]) && !p(w[|w| - 1]) && p(c)
    ensures Trim(w + [c], p) == w
  {
    var s := w + [c];
    var r := Trim(s, p);
    assert LeadingRun(s, p) == 0;
    assert r == s[..|r|];
    assert s[|w| - 1] == w[|w| - 1];
    assert |r| == |w|;
  }

  /** Deleting the trailing run from `v + [c]` removes just `c` when `c`
      satisfies `p` and the last character of `v` does not. */
  lemma DropSuffixWhileLast(v: string, c: char, p: char -> bool)
    requires v == [] || !p(v[|v| - 1])
    requires p(c)
    ensures DropSuffixWhile(v + [c], p) == v
  {
    DropSuffixWhileStep(v + [c], p);
    assert (v + [c])[..|v|] == v;
    DropSuffixWhileNone(v, p);
  }

  /** Without a `<` the first step changes nothing. */
  lemma CleanUrlWithoutOpen(s: string)
    requires '<' !in s
    ensures CleanUrl(s) == DropSuffixWhile(Strip(s), IsUrlSeparator)
  {
    NoOpenNoTag(s);
    StripTagsNoMatch(s);
  }

  /** Appending `x` to `w` brings in no `<` that neither of them holds. */
  lemma NoOpenAppend(w: string, x: string)
    requires '<' !in w && '<' !in x
    ensures '<' !in w + x
  {
    assert forall k :: 0 <= k < |w| ==> (w + x)[k] == w[k];
    assert forall k :: |w| <= k < |w + x| ==> (w + x)[k] == x[k - |w|];
  }

  /** On a string without `<` that neither starts nor ends with whitespace,
      only the trailing separators are deleted. */
  lemma CleanUrlOnlyDropsSeparators(s: string)
    requires '<' !in s && s != [] && !IsSpace(s[0]) && !IsSpace(s[|s| - 1])
    ensures CleanUrl(s) == DropSuffixWhile(s, IsUrlSeparator)
  {
    CleanUrlWithoutOpen(s);
    assert Strip(s) == s;
  }

  /** One trailing separator after a clean string is all that is deleted. */
  lemma CleanUrlDropsLastSeparator(v: string, c: char)
    requires '<' !in v && v != [] && !IsSpace(v[0]) && !IsUrlSeparator(v[|v| - 1])
    requires IsUrlSeparator(c)
    ensures CleanUrl(v + [c]) == v
  {
    var s := v + [c];
    assert '<' !in s && s != [] && !IsSpace(s[0]) && !IsSpace(s[|s| - 1]) by {
      NoOpenAppend(v, [c]);
      assert s[0] == v[0] && s[|s| - 1] == c;
    }
    CleanUrlOnlyDropsSeparators(s);
    DropSuffixWhileLast(v, c, IsUrlSeparator);
  }

  /** Whitespace in front of a deleted trailing separator survives the
      first pass: `w + " /"` cleans to `w + " "`. */
  lemma SpaceBeforeSeparatorSurvives(w: string, c: char)
    requires '<' !in w && w != [] && !IsSpace(w[0])
    requires IsUrlSeparator(c)
    ensures CleanUrl(w + [' '] + [c]) == w + [' ']
  {
    var v := w + [' '];
    assert '<' !in v && v != [] && !IsSpace(v[0]) && !IsUrlSeparator(v[|v| - 1]) by {
      NoOpenAppend(w, [' ']);
      assert v[0] == w[0] && v[|v| - 1] == ' ';
    }
    CleanUrlDropsLastSeparator(v, c);
  }

  /** ... and the second pass strips it: `w + " "` cleans to `w`. */
  lemma TrailingSpaceStripped(w: string)
    requires '<' !in w && w != [] && !IsSpace(w[0])
    requires !IsSpace(w[|w| - 1]) && !IsUrlSeparator(w[|w| - 1])
    ensures CleanUrl(w + [' ']) == w
  {
    assert '<' !in w + [' '] by {
      assert forall k :: 0 <= k < |w| ==> (w + [' '])[k] == w[k];
    }
    CleanUrlWithoutOpen(w + [' ']);
    TrimDropsLast(w, ' ', IsSpace);
    DropSuffixWhileNone(w, IsUrlSeparator);
  }

  /** So `clean_url` is not idempotent: `"abc /"` cleans to `"abc "`, which
      cleans to `"abc"`. */
  lemma CleanUrlNotIdempotent(w: string, c: char)
    requires '<' !in w && w != [] && !IsSpace(w[0])
    requires !IsSpace(w[|w| - 1]) && !IsUrlSeparator(w[|w| - 1])
    requires IsUrlSeparator(c)
    ensures CleanUrl(CleanUrl(w + [' '] + [c])) != CleanUrl(w + [' '] + [c])
  {
    SpaceBeforeSeparatorSurvives(w, c);
    TrailingSpaceStripped(w);
  }
}
