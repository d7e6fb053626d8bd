/** `is_html_or_text` of scraper/utils.py: a URL is kept unless its lowercased
    form contains one of a fixed list of asset patterns. */
module AssetFilter {
  import opened Strings

  /** Image extensions, the CDN challenge path and bibliography files. */
  const EXCLUDED_PATTERNS: seq<string> := [".png", ".jpg", ".jpeg", ".gif", ".svg", "/cdn-cgi/", ".bib"]

  /** `any(pattern.lower() in text for pattern in patterns)`. */
  function AnyPatternIn(patterns: seq<string>, text: string): (b: bool)
    ensures b <==> exists k :: 0 <= k < |patterns| && Contains(text, Lower(patterns[k]))
  {
    if patterns == [] then false
    else if Contains(text, Lower(patterns[0])) then true
    else
      assert forall k :: 1 <= k < |patterns| ==> patterns[k] == patterns[1..][k - 1];
      AnyPatternIn(patterns[1..], text)
  }

  /** `is_html_or_text(url)`. */
  predicate IsHtmlOrText(url: string)
  {
    !AnyPatternIn(EXCLUDED_PATTERNS, Lower(url))
  }

  /** Every pattern is already in lower case, so lowercasing it is the identity. */
  lemma PatternsAreLowerCase()
    ensures forall k :: 0 <= k < |EXCLUDED_PATTERNS| ==> Lower(EXCLUDED_PATTERNS[k]) == EXCLUDED_PATTERNS[k]
  {
  }

  /** The URL is rejected exactly when some excluded pattern occurs, at some
      position, in its lower-case form. */
  lemma IsHtmlOrTextSpec(url: string)
    ensures !IsHtmlOrText(url) <==>
      exists k, i: nat :: 0 <= k < |EXCLUDED_PATTERNS| && OccursAt(Lower(url), EXCLUDED_PATTERNS[k], i)
  {
    PatternsAreLowerCase();
    if !IsHtmlOrText(url) {
      var k :| 0 <= k < |EXCLUDED_PATTERNS| && Contains(Lower(url), Lower(EXCLUDED_PATTERNS[k]));
      var i: nat :| OccursAt(Lower(url), EXCLUDED_PATTERNS[k], i);
    }
    if exists k, i: nat :: 0 <= k < |EXCLUDED_PATTERNS| && OccursAt(Lower(url), EXCLUDED_PATTERNS[k], i) {
      var k, i: nat :| 0 <= k < |EXCLUDED_PATTERNS| && OccursAt(Lower(url), EXCLUDED_PATTERNS[k], i);
      assert Contains(Lower(url), Lower(EXCLUDED_PATTERNS[k]));
    }
  }

  /** The filter ignores letter case. */
  lemma IsHtmlOrTextCaseInsensitive(url: string)
    ensures IsHtmlOrText(url) == IsHtmlOrText(Lower(url))
  {
    LowerIdempotent(url);
  }

  /** Any URL holding an excluded pattern, in any letter case, is rejected
      whatever surrounds it: `https://example.com/img/logo.png` and
      `.../LOGO.PNG` alike. */
  lemma PatternRejects(before: string, middle: string, after: string, k: nat)
    requires k < |EXCLUDED_PATTERNS|
    requires Lower(middle) == EXCLUDED_PATTERNS[k]
    ensures !IsHtmlOrText(before + middle + after)
  {
    var url := before + middle + after;
    LowerConcat(before + middle, after);
    LowerConcat(before, middle);
    var low := Lower(url);
    assert low[|before|..|before| + |middle|] == Lower(middle);
    assert OccursAt(low, EXCLUDED_PATTERNS[k], |before|);
    IsHtmlOrTextSpec(url);
  }

  /** Extending a rejected URL on either side never makes it acceptable. */
  lemma RejectionSurvivesExtension(a: string, b: string)
    ensures !IsHtmlOrText(a) || !IsHtmlOrText(b) ==> !IsHtmlOrText(a + b)
  {
    LowerConcat(a, b);
    if !IsHtmlOrText(a) {
      IsHtmlOrTextSpec(a);
      var k, i: nat :| 0 <= k < |EXCLUDED_PATTERNS| && OccursAt(Lower(a), EXCLUDED_PATTERNS[k], i);
      OccursInPrefix(Lower(a), Lower(b), EXCLUDED_PATTERNS[k], i);
      IsHtmlOrTextSpec(a + b);
    }
    if !IsHtmlOrText(b) {
      IsHtmlOrTextSpec(b);
      var k, i: nat :| 0 <= k < |EXCLUDED_PATTERNS| && OccursAt(Lower(b), EXCLUDED_PATTERNS[k], i);
      OccursInSuffix(Lower(a), Lower(b), EXCLUDED_PATTERNS[k], i);
      IsHtmlOrTextSpec(a + b);
    }
  }

  /** An image URL is rejected whatever its letter case. */
  lemma ImageUrlRejected()
    ensures !IsHtmlOrText("https://example.com/img/logo.png")
    ensures !IsHtmlOrText("https://example.com/IMG/LOGO.PNG")
  {
    assert "https://example.com/img/logo.png" == "https://example.com/img/logo" + ".png" + "";
    PatternRejects("https://example.com/img/logo", ".png", "", 0);
    assert "https://example.com/IMG/LOGO.PNG" == "https://example.com/IMG/LOGO" + ".PNG" + "";
    assert Lower(".PNG") == ".png";
    PatternRejects("https://example.com/IMG/LOGO", ".PNG", "", 0);
  }
}
