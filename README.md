# URL helpers of the scraper, in Dafny

This project models the three URL helpers in `scraper/utils.py`. Within that file, `fetch_content` (scraper/utils.py:51) calls `clean_url` on every URL before loading it:

- `clean_url` normalises a discovered URL in three steps. First it deletes every match of the regular expression `<[^>]+>` in one left-to-right pass. Then it strips the surrounding whitespace. Last, it deletes the trailing run of `:`, `/` and `;`.
- `is_same_domain` decides whether a link belongs to the root URL's site. A relative link (no scheme and no network location) always belongs. Any other link belongs when the last two `.`-separated labels of the two network locations are equal.
- `is_html_or_text` rejects asset URLs. It returns false exactly when the lowercased URL contains one of seven fixed patterns: `.png`, `.jpg`, `.jpeg`, `.gif`, `.svg`, `/cdn-cgi/` and `.bib`.

All three are pure string functions, so the model is made of Dafny functions and lemmas. There are four modules:

- `Strings` (`strings.dfy`) restates the Python `str` operations the helpers use: `isspace`, `lower`, the substring test `in`, `split` and `join`. It also defines the subsequence relation.
- `UrlCleaning` (`url_cleaning.dfy`) models `clean_url`.
- `DomainScope` (`domain_scope.dfy`) models `is_same_domain`.
- `AssetFilter` (`asset_filter.dfy`) models `is_html_or_text`.

Each operation is paired with an independent statement of what it means, and a lemma connects the two:

- **Tag removal.** `StripTags` is the one-pass substitution. It is paired with `HasTag`, a direct statement of "a `<`, then at least one character other than `>`, then a `>`". The lemmas prove that no match survives the pass, and that the pass changes its input exactly when the input holds a match.
- **Strip and trailing deletion.** `Strip` and `DropSuffixWhile` are paired with `LeadingRun`, `TrailingRun` and the slice relation `SliceBetween`. `Strip`'s contract pins its result down: the slice of the input that starts after the leading whitespace, is followed by whitespace only, and neither starts nor ends with whitespace.
- **Whole cleaning.** `CleanUrl` is paired with the subsequence relation and with `IsCleanForm`. `CleanUrlIsSliceOfStripped` says exactly what is kept of the tag-free string: a slice with only whitespace in front of it, and only a run of `:`, `/`, `;` followed by whitespace behind it. The lemmas prove that the result is obtained by deleting characters, and that `CleanUrl` leaves a URL unchanged exactly when the URL is in clean form. Because the strip runs before the trailing separators are deleted, whitespace in front of those separators survives. So `CleanUrl` is not idempotent: for every suitable `w`, `w + " /"` becomes `w + " "`, and a second pass gives `w` (`"abc /"`, `"abc "`, `"abc"`). The model proves that a second pass changes nothing whenever the first result does not end in whitespace.
- **Registrable domain.** `RegistrableDomain` (split, keep the last two labels, join) is paired with `RegistrableSuffix`. That definition never splits: while the host holds two or more dots, it drops the first label. The lemmas prove the two agree on every host. The port behaviour of `IsSameDomain` is derived through `RegistrableSuffix`. The subdomain and top-level-domain behaviour is proved directly from how `split` treats a dot-free first label (`SplitCons`).
- **Asset filter.** `IsHtmlOrText` is paired with a statement that uses explicit positions: "some excluded pattern occurs at some position of the lowercased URL". The lemmas prove the filter ignores letter case, and that extending a rejected URL never makes it acceptable.

The code splits the raw `netloc`, which keeps any port and userinfo, so `PortSeparatesSites` proves that `example.com:8080` is not on `example.com`'s site.

## Model

| member | source | states |
|---|---|---|
| `UrlCleaning.CleanUrl` | scraper/utils.py:20-25 | The cleaned URL never starts with whitespace and never ends with `:`, `/` or `;`. |
| `UrlCleaning.StripTags` | scraper/utils.py:22 | One left-to-right pass of `re.sub(r'<[^>]+>', '', url)`. Specified position by position by `StripTagsKeepsOther`, `StripTagsKeepsOpenFree`, `StripTagsDeletesMatch` and `StripTagsKeepsUnmatchedOpen`, which together fix its result on every input. `StripTagsTagFree`, `StripTagsUnchanged` and `StripTagsSubsequence` state its overall effect. |
| `UrlCleaning.StripTagsKeepsOther` | scraper/utils.py:22 | A character other than `<` at the scan position is kept, and the scan goes on after it. |
| `UrlCleaning.StripTagsKeepsOpenFree` | scraper/utils.py:22 | Text without `<` is copied unchanged, in front of whatever the pass makes of the rest: `StripTags(a + b) == a + StripTags(b)`. |
| `UrlCleaning.StripTagsDeletesMatch` | scraper/utils.py:22 | A match `s[0..j + 1]` at the scan position is deleted whole, and the scan resumes right after its `>`. |
| `UrlCleaning.StripTagsKeepsUnmatchedOpen` | scraper/utils.py:22 | A `<` at the scan position that starts no match is kept, and the scan goes on after it. |
| `UrlCleaning.StripTagsTagFree` | scraper/utils.py:22 | After the `<[^>]+>` substitution, no `<`, one or more non-`>` characters, `>` remains anywhere in the string. |
| `UrlCleaning.StripTagsUnchanged` | scraper/utils.py:22 | The substitution returns its input unchanged exactly when the input holds no match. |
| `UrlCleaning.StripTagsNoMatch` | scraper/utils.py:22 | Without a match the substitution returns its input. |
| `UrlCleaning.StripTagsShortens` | scraper/utils.py:22 | With a match the substitution deletes at least one character. |
| `UrlCleaning.StripTagsSubsequence` | scraper/utils.py:22 | The substitution only deletes characters: its result is a subsequence of its input. |
| `UrlCleaning.TagAtStart` | scraper/utils.py:22 | A match that starts at a `<` ends at the first `>` after it, so the scan deletes exactly that match. |
| `UrlCleaning.LeadingCloseKept` | scraper/utils.py:22 | A `>` at the scan position never starts a match and is kept. |
| `UrlCleaning.NoOpenNoTag` | scraper/utils.py:22 | A string without `<` holds no match of `<[^>]+>`. |
| `UrlCleaning.LeadingRun` | scraper/utils.py:23 | The length of the longest prefix whose characters all satisfy the predicate: all of them do, and the next character, if any, does not. |
| `UrlCleaning.TrailingRun` | scraper/utils.py:23-24 | The length of the longest suffix whose characters all satisfy the predicate: all of them do, and the character before it, if any, does not. |
| `UrlCleaning.DropPrefixWhile` | scraper/utils.py:23 | Deletes the longest prefix of characters that satisfy the predicate. The result is a suffix of the input, every deleted character satisfies the predicate, and the first kept character does not. |
| `UrlCleaning.DropSuffixWhile` | scraper/utils.py:24 | Deletes the longest suffix of characters that satisfy the predicate. The result is a prefix of the input, every deleted character satisfies the predicate, and the last kept character does not. This is the effect of `[:/;]+$` on a stripped string. |
| `UrlCleaning.Trim` | scraper/utils.py:23 | The result is the slice of the input that starts after its leading run, is followed only by characters that satisfy the predicate, and has no such character at either end. |
| `UrlCleaning.IsUrlSeparator` | scraper/utils.py:24 | Exactly the three characters of the class `[:/;]`. |
| `UrlCleaning.Strip` | scraper/utils.py:23 | `strip()` returns the slice of the input that starts after the leading whitespace and is followed by whitespace only. The slice has no whitespace at either end. A string without surrounding whitespace is returned unchanged. |
| `Strings.IsSpace` | scraper/utils.py:23 | The characters `str.isspace` accepts. `Strip` is specified in terms of it. |
| `UrlCleaning.TrimmedSlice` | scraper/utils.py:23-24 | The strip and the trailing deletion keep a slice `t[lo..hi]`. Only whitespace comes before it. Behind it come separators up to `end`, then only whitespace. |
| `UrlCleaning.CleanUrlIsSliceOfStripped` | scraper/utils.py:22-24 | `clean_url` keeps a slice of the tag-free string. Everything in front of the slice is whitespace. Everything behind it is a run of `:`, `/` and `;` followed by whitespace. |
| `UrlCleaning.CleanUrlSubsequence` | scraper/utils.py:20-25 | `clean_url` only deletes characters. Its output is a subsequence of its input and is never longer. |
| `UrlCleaning.CleanUrlTagFree` | scraper/utils.py:22-25 | The output of `clean_url` holds no `<`, one or more non-`>` characters, `>`. |
| `UrlCleaning.CleanFormUnchanged` | scraper/utils.py:22-25 | A URL with no tag match, no whitespace at either end and no trailing `:`, `/` or `;` is returned unchanged. |
| `UrlCleaning.UnchangedIsCleanForm` | scraper/utils.py:22-25 | A URL that `clean_url` returns unchanged has no tag match, no whitespace at either end and no trailing separator. |
| `UrlCleaning.CleanUrlUnchanged` | scraper/utils.py:22-25 | Some inputs are returned unchanged, and exactly these: no tag match, no whitespace at either end, and no trailing `:`, `/` or `;`. |
| `UrlCleaning.CleanUrlIdempotentWithoutTrailingSpace` | scraper/utils.py:22-25 | If the first result does not end in whitespace, cleaning it again changes nothing. |
| `UrlCleaning.CleanUrlWithoutOpen` | scraper/utils.py:22 | On a URL without `<` the tag step changes nothing. |
| `UrlCleaning.CleanUrlDropsLastSeparator` | scraper/utils.py:22-24 | A URL without `<`, leading whitespace or trailing separator, followed by one `:`, `/` or `;`, cleans to itself without that separator. |
| `UrlCleaning.SpaceBeforeSeparatorSurvives` | scraper/utils.py:23-24 | `w + " /"` (any one of `:`, `/`, `;` at the end) cleans to `w + " "`: the space in front of the deleted separator survives. |
| `UrlCleaning.TrailingSpaceStripped` | scraper/utils.py:23-24 | `w + " "` cleans to `w`. |
| `UrlCleaning.CleanUrlNotIdempotent` | scraper/utils.py:22-25 | Cleaning `w + " /"` twice gives a different result from cleaning it once, so `clean_url` is not idempotent. |
| `UrlCleaning.SliceTagFree` | scraper/utils.py:23-24 | Trimming the ends of a tag-free string cannot create a tag match. |
| `Strings.Split` | scraper/utils.py:33-34 | `split('.')` yields at least one piece, and no piece contains the separator. |
| `Strings.Join` | scraper/utils.py:33-34 | `'.'.join(parts)`. Specified by `JoinSplit` and `SplitJoin`. |
| `Strings.SplitAtFirst` | scraper/utils.py:33-34 | When the separator occurs, the first piece is the text before its first occurrence, and the rest is split again after it. |
| `Strings.JoinSplit` | scraper/utils.py:33-34 | Joining the pieces of a split with the same separator gives back the original string. |
| `Strings.SplitJoin` | scraper/utils.py:33-34 | Splitting the join of separator-free pieces gives back the pieces. |
| `Strings.SplitCons` | scraper/utils.py:33-34 | A host `x.d` whose first label `x` holds no dot splits into `x` followed by the pieces of `d`. |
| `Strings.IndexOf` | scraper/utils.py:33 | The position of the first separator, or the length when there is none. Every earlier character differs from the separator. |
| `DomainScope.IsRelative` | scraper/utils.py:30 | A link without scheme and without network location. Specified by `RelativeLinkAccepted`. |
| `DomainScope.LastTwo` | scraper/utils.py:33-34 | `xs[-2:]` keeps the last two elements, or all of them when there are fewer. |
| `DomainScope.RegistrableDomain` | scraper/utils.py:33-34 | `'.'.join(netloc.split('.')[-2:])`. Specified by `RegistrableDomainIsSuffix`. |
| `DomainScope.IsSameDomain` | scraper/utils.py:27-35 | `is_same_domain` on parsed URLs. Specified by `RelativeLinkAccepted` and `AbsoluteLinkSameDomain`. |
| `DomainScope.RegistrableSuffix` | scraper/utils.py:33-34 | The reference definition of the registrable domain, without `split` or `join`: while the host holds two or more dots, drop its first label. Specified by `RegistrableSuffixIsSuffix`, and tied to the code by `RegistrableDomainIsSuffix`. |
| `DomainScope.RegistrableSuffixIsSuffix` | scraper/utils.py:33-34 | The reference definition is always a suffix of the network location. |
| `DomainScope.RegistrableDomainIsSuffix` | scraper/utils.py:33-34 | For every network location, `'.'.join(netloc.split('.')[-2:])` equals the reference definition: drop the first label while two or more dots remain. |
| `DomainScope.SubdomainRegistrableDomain` | scraper/utils.py:33-34 | Putting a label in front of a host that already has a dot leaves its registrable domain unchanged. |
| `DomainScope.FewLabelsRegistrableDomain` | scraper/utils.py:33-34 | A host with at most two labels is its own registrable domain. |
| `DomainScope.OneDotRegistrableDomain` | scraper/utils.py:33-34 | A host `name.tld` is its own registrable domain. |
| `DomainScope.AppendRegistrableSuffix` | scraper/utils.py:33-34 | Dot-free text appended to a host, such as a port, is appended to its registrable suffix. |
| `DomainScope.RelativeLinkAccepted` | scraper/utils.py:30-31 | A link with neither scheme nor network location is on the root's site, whatever the root is. |
| `DomainScope.AbsoluteLinkSameDomain` | scraper/utils.py:30-35 | Take a link with a scheme or a network location. It is on the root's site exactly when the two network locations reduce to the same registrable suffix. |
| `DomainScope.SameDomainSymmetric` | scraper/utils.py:33-35 | Between two absolute URLs the relation is symmetric. |
| `DomainScope.SameDomainReflexive` | scraper/utils.py:27-35 | Every URL is on its own site. |
| `DomainScope.SubdomainAccepted` | scraper/utils.py:33-35 | A subdomain link is on the root's site. |
| `DomainScope.SubdomainExample` | scraper/utils.py:33-35 | `blog.example.com` is on `example.com`'s site. |
| `DomainScope.TopLevelDomainSeparatesSites` | scraper/utils.py:33-35 | `name.tld1` and `name.tld2` with different last labels are different sites, as `example.org` and `example.com` are. |
| `DomainScope.PortSeparatesSites` | scraper/utils.py:27-35 | A port on the link but not on the root puts the two on different sites, because the raw `netloc` is compared. |
| `Strings.Lower` | scraper/utils.py:46 | `lower()` keeps the length and lowercases each character in place. |
| `Strings.Contains` | scraper/utils.py:47 | The substring test `pattern in text` holds exactly when the pattern occurs at some position of the text. |
| `AssetFilter.AnyPatternIn` | scraper/utils.py:47 | The `any(...)` over the pattern list holds exactly when some pattern, lowercased, occurs in the text. |
| `AssetFilter.EXCLUDED_PATTERNS` | scraper/utils.py:42-45 | The seven excluded patterns, in the source's order: `.png`, `.jpg`, `.jpeg`, `.gif`, `.svg`, `/cdn-cgi/`, `.bib`. |
| `AssetFilter.IsHtmlOrText` | scraper/utils.py:37-47 | `is_html_or_text(url)`. Specified by `IsHtmlOrTextSpec`. |
| `AssetFilter.PatternsAreLowerCase` | scraper/utils.py:42-47 | Every excluded pattern is already lower case, so `pattern.lower()` returns the pattern unchanged. |
| `AssetFilter.IsHtmlOrTextSpec` | scraper/utils.py:42-47 | A URL is rejected exactly when one of the seven excluded patterns occurs at some position of the lowercased URL. |
| `AssetFilter.IsHtmlOrTextCaseInsensitive` | scraper/utils.py:46-47 | `is_html_or_text(u) == is_html_or_text(lower(u))`. |
| `AssetFilter.PatternRejects` | scraper/utils.py:42-47 | A URL that contains an excluded pattern in any letter case is rejected, whatever surrounds it. |
| `AssetFilter.RejectionSurvivesExtension` | scraper/utils.py:42-47 | Adding text before or after a rejected URL never makes it acceptable. |
| `AssetFilter.ImageUrlRejected` | scraper/utils.py:42-47 | `https://example.com/img/logo.png` is rejected, and so is its upper-case form. |

## Left out

- `fetch_content` (scraper/utils.py:49-100) is not modelled. It drives a headless browser, picks a random user agent, goes over the network, evaluates JavaScript in the page and closes the browser context. All of that is I/O and calls into foreign code.
- The user-agent list and the stylesheet, DOCTYPE and HTML-wrapper regular expressions (scraper/utils.py:9-18) are not modelled. No function modelled here uses them.
- `urllib.parse.urlparse` is a library that is not part of this model. `IsSameDomain` receives its result as a `ParsedUrl(scheme, netloc)` record rather than parsing the URL strings itself.
- `IsSameDomain` has no error case. `urlparse` raises `ValueError` on a malformed bracketed host such as `http://[::1`, so `is_same_domain` raises for such a URL. The record-based model cannot express that input.
- `Lower` lowercases ASCII letters only. Python's `str.lower()` also maps non-ASCII characters. `IsSpace` is the fixed list of code points CPython treats as whitespace, and no other Unicode handling is modelled.
- `fetch_sitemap`, `fetch_sitemap_with_custom_location` and `get_page_content_size` are not part of this model: scraper/views.py imports them, but they are not defined in scraper/utils.py.
- scraper/views.py (asynchronous request handlers, JSON decoding, database writes), scraper/models.py (a database schema) and scraper/urls.py (a route table) contain no modelled logic.
