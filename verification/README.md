# pyfolio: asset index, static export, configuration and carousel in Dafny

This project models the core of pyfolio, a small Flask portfolio site.

- **Elements** (`portfolio_element.dfy`). A portfolio element is an asset path relative to the portfolio folder. Its identifier is that path with the extension removed by Python's `posixpath.splitext`. Its caption is the `<identifier>.md` document.
- **PortfolioIndex** (`portfolio.dfy`). The portfolio index is built once from the non-recursive listing of the portfolio folder, in listing order.
  - It skips directories and files ending in `.md` or `.txt`.
  - As written, every file enters the index, even when two files share an identifier (see Findings). The model's index keeps the first file listed for each identifier, as the code evidently intends. `ScanAsWritten` is the discovery as written.
  - The index serves identifier lookup and before/after navigation.
  - The class `Portfolio` holds the first-wins index.
- **BakeWebsite** (`bake_website.dfy`). The static export lists every page to render: home, gallery, one page per custom `.md` page, and one page per element. It rewrites the links of each rendered page so that the site works from the file system.
  - As written, only one link per page is rewritten, and the export stops at the first page without a link, after writing the pages before it (see Findings). `BakeSiteAsWritten` models that.
  - `BakeSite` is the corrected export, which rewrites every link of every page.
  - The `href="…"`/`src="…"` scan follows the regular expression at `src/bake_website.py:60`.
  - Each rewrite follows `src/bake_website.py:66-80`.
  - Replacements use Python's `str.replace` semantics.
- **ConfigManager** (`config_manager.dfy`). After the TOML file is read, link targets in `top_link` and `footer_link` are resolved: `[home]`, `[gallery]`, absolute URLs, and `.md` paths. The `style` section is normalised. The class `Config` holds the parts of the configuration dictionary that these steps change.
- **Carousel** (`carousel.dfy`). The image carousel is modelled as a class `Slider` whose `currentIndex` the prev/next handlers update. JavaScript's truncating `%` and its NaN on a zero divisor are modelled explicitly.

`wrappers.dfy` holds `Option` and `Result`. `strings.dfy` holds the string helpers: prefix, suffix, occurrence, last index and `str.replace`.

The model follows the code: discovery is not recursive, it runs in listing order, and the ignored-extension test is case-sensitive.

The findings below record where the code does not do what it evidently intends. In each case the model keeps the code as written next to the corrected definition. The classes and `BakeSite` are built on the corrected definitions; `BakeSiteAsWritten` is built on the as-written link fix.

## Model

| member | source | states |
|---|---|---|
| Elements.SplitExt | src/portfolio_element.py:16 | `posixpath.splitext`; its contract is stated by SplitExtShape and ExtensionIff |
| Elements.Element.Identifier | src/portfolio_element.py:14-16 | the asset path without its extension; stated by IdentifierRoundTrip and NoExtensionIsOwnRoot |
| Elements.SplitExtShape | src/portfolio_element.py:16 | root followed by extension is the path; the extension is empty or a `.` followed by no `.` and no `/` |
| Elements.ExtensionIff | src/portfolio_element.py:16 | the extension is non-empty exactly when the last path component has a `.` preceded by a non-dot character |
| Elements.NoExtensionIsOwnRoot | src/portfolio_element.py:16 | a path without an extension (including dot-files) is its own identifier |
| Elements.IdentifierRoundTrip | src/portfolio_element.py:14-16 | the identifier is a prefix of the asset path; appending the extension gives the path back; it equals the path iff there is no extension |
| Elements.IdentifierDropsLastExtension | src/portfolio_element.py:16 | `photo.jpg` gives `photo`; `archive.tar.gz` gives `archive.tar` (only the last extension goes) |
| Elements.IdentifierKeepsDotFile | src/portfolio_element.py:16 | `.hidden` keeps its name; `dir/.x.png` gives `dir/.x` |
| Elements.IdentifierIgnoresDirectoryDot | src/portfolio_element.py:16 | a `.` in a directory name is not an extension (`a.b/c`) |
| Elements.Element.CaptionPath | src/portfolio_element.py:23 | the caption path ends in `.md` and removing that suffix gives the identifier |
| Elements.Element.AssetText | src/portfolio_element.py:21-28 | the caption file's contents when it exists, the empty string otherwise |
| PortfolioIndex.Lookup | src/portfolio.py:115-120 | no result iff no element has the identifier; a result is an element of the index with that identifier |
| PortfolioIndex.LookupIsFirst | src/portfolio.py:117-119 | the element found is the first one with the identifier |
| PortfolioIndex.FindByIdentifier | src/portfolio.py:117-120 | the linear scan returns exactly the first match, or none |
| PortfolioIndex.Discover | src/portfolio.py:48-53 | a missing portfolio folder gives an empty index |
| PortfolioIndex.Accept | src/portfolio.py:68-77 | one step of the first-wins discovery; stated through Scan's lemmas |
| PortfolioIndex.Scan | src/portfolio.py:56-88 | the first-wins discovery of a listing; stated by ScanIsKeptEntries, ScanIdentifiers, ScanUnique and ScanOnlyAssets |
| PortfolioIndex.ScanIdentifiers | src/portfolio.py:56-88 | an identifier is in the index iff some regular, non-ignored file of the listing has it |
| PortfolioIndex.ScanIsKeptEntries | src/portfolio.py:56-88 | the index is, in listing order, exactly the first candidate file of each identifier |
| PortfolioIndex.ScanUnique | src/portfolio.py:68-77 | identifiers in the index are pairwise distinct |
| PortfolioIndex.ScanOnlyAssets | src/portfolio.py:59-62 | every element comes from a regular file of the listing not ending in `.md` or `.txt` |
| PortfolioIndex.DiscoverElements | src/portfolio.py:45-89 | the discovery loop (filter, then collision scan per file) yields the first-wins index of the listing |
| PortfolioIndex.IndexOf | src/portfolio.py:96 | `list.index`: a position holding the element with no earlier occurrence |
| PortfolioIndex.Portfolio.constructor | src/portfolio.py:35-36 | the index is discovered once from the listing; it has unique identifiers and no ignored files |
| PortfolioIndex.Portfolio.GetElements | src/portfolio.py:91-92 | the elements, in order, with unique identifiers and no ignored files |
| PortfolioIndex.Portfolio.GetElementBefore | src/portfolio.py:94-99 | none iff the element is the first; otherwise the element just before its first occurrence |
| PortfolioIndex.Portfolio.GetElementAfter | src/portfolio.py:101-106 | none iff the element's first occurrence is the last position; otherwise the element just after it |
| PortfolioIndex.Portfolio.AfterOfBefore | src/portfolio.py:94-106 | in a valid index, after(before(e)) is e |
| PortfolioIndex.Portfolio.BeforeOfAfter | src/portfolio.py:94-106 | in a valid index, before(after(e)) is e |
| PortfolioIndex.Portfolio.GetElementByIdentifier | src/portfolio.py:115-120 | the first element with the identifier, or none |
| PortfolioIndex.Portfolio.GetElementByAssetPath | src/portfolio.py:108-113 | compares the argument with identifiers, so it answers as the identifier lookup |
| PortfolioIndex.LookupFindsElement | src/portfolio.py:115-120 | in an index with unique identifiers, looking up an element's identifier finds that element |
| PortfolioIndex.ScanAsWritten | src/portfolio.py:56-88 | the discovery as written, whose collision check never fires; stated by ScanAsWrittenAgrees and CollidingPair |
| PortfolioIndex.ScanAsWrittenAgrees | src/portfolio.py:69 | without colliding identifiers, the discovery as written gives the first-wins index |
| PortfolioIndex.CollidingPair | src/portfolio.py:68-77 | for any two candidate files with the same identifier, the scan as written keeps both, first-wins keeps the first |
| PortfolioIndex.CollisionAsWritten | src/portfolio.py:69 | as written, `photo.jpg` and `photo.png` both enter the index under the identifier `photo`; first-wins keeps `photo.jpg` only |
| BakeWebsite.IsLinkValue | src/bake_website.py:60 | the value group of the link regex; stated by LinkValueHasNoQuoteOrDot and NotLinkValueExamples |
| BakeWebsite.ProcessMatch | src/bake_website.py:66-80 | the four string steps applied to a whole match; stated by ProcessMatchRewritesValue, ProcessRoot, ProcessAbsolute and ProcessRelative |
| BakeWebsite.LinkValueHasNoQuoteOrDot | src/bake_website.py:60 | a candidate value contains neither `"` nor `.` |
| BakeWebsite.NotLinkValueExamples | src/bake_website.py:60 | `https://example.com` (a `:`), `#section`, `./about` and `photo.jpg` (a `.`) are not candidates |
| BakeWebsite.RewriteValue | src/bake_website.py:66-80 | every rewritten value starts with `./`, ends with `.html`, and is not a candidate |
| BakeWebsite.HomeStepOnRoot | src/bake_website.py:68-70 | the value `/` becomes `./index.html` |
| BakeWebsite.ExtensionStepOnValue | src/bake_website.py:71-73 | a match with no `.` gets `.html` before its closing quote |
| BakeWebsite.RootStepAfterName | src/bake_website.py:75-77 | a leading `/` of the value becomes `./` |
| BakeWebsite.DotSlashStepAfterName | src/bake_website.py:79-80 | a value not starting with `#`, `?` or `.` is prefixed with `./` |
| BakeWebsite.ProcessRoot | src/bake_website.py:66-80 | the processed match of value `/` is `./index.html` |
| BakeWebsite.ProcessAbsolute | src/bake_website.py:66-80 | the processed match of `/x` is `./x.html` |
| BakeWebsite.ProcessRelative | src/bake_website.py:66-80 | the processed match of a relative `x` is `./x.html` |
| BakeWebsite.ProcessMatchRewritesValue | src/bake_website.py:66-80 | the string steps applied to a whole match rewrite only its value, as `RewriteValue` |
| BakeWebsite.RewriteRootExample | src/bake_website.py:68-70 | the value `/` becomes `./index.html` |
| BakeWebsite.RewriteGalleryExample | src/bake_website.py:71-77 | `/gallery` is a candidate and becomes `./gallery.html` |
| BakeWebsite.RewriteAbsoluteLiteral | src/bake_website.py:71-77 | any root-relative candidate `/path` becomes `./path.html` |
| BakeWebsite.RewriteNestedExample | src/bake_website.py:71-77 | `/portfolio/photo1` becomes `./portfolio/photo1.html` |
| BakeWebsite.NextQuoteSpec | src/bake_website.py:60 | `NextQuote` gives the first `"` at or after the start, if any |
| BakeWebsite.MatchAt | src/bake_website.py:60 | the regex tried at one position; stated by MatchAtSound |
| BakeWebsite.FindAll | src/bake_website.py:60 | `re.findall` from a position; stated by FindAllLinkValues, FindAllShift and FindAllFull |
| BakeWebsite.MatchAtSound | src/bake_website.py:60 | a match found at a position is a candidate value and its attribute text occurs there |
| BakeWebsite.FindAllLinkValues | src/bake_website.py:60 | `re.findall`: every match found is a candidate value |
| BakeWebsite.FindAllShift | src/bake_website.py:60 | the scan from a position does not depend on the text before it |
| BakeWebsite.FindAllFull | src/bake_website.py:60 | a text starting with a matching attribute yields that match first |
| BakeWebsite.Dedupe | src/bake_website.py:63 | `list(set(...))`: the same matches, each once |
| BakeWebsite.FixAsWritten | src/bake_website.py:62-84 | the value of `fix_relative_links` as written for a given set order; stated by FixRelativeLinksAsWritten, FixAsWrittenKeepsOnlyLast and FixAsWrittenOnNoMatch |
| BakeWebsite.RewriteLinks | src/bake_website.py:62-84 | the corrected `fix_relative_links`; stated by FixRelativeLinks, NoMatchUnchanged, RewriteSingleAttribute and RewriteLinksRewritesBoth |
| BakeWebsite.FixRelativeLinksAsWritten | src/bake_website.py:53-84 | as written: only the last match's replacement is returned; no match gives the unbound-local error |
| BakeWebsite.SetOrderEmpty | src/bake_website.py:62-84 | an order that walks each match once is empty iff the page has no match, so the unbound-local error arises exactly on pages without links |
| BakeWebsite.FixRelativeLinks | src/bake_website.py:53-84 | corrected loop: each distinct match is replaced, one after the other, in the text produced so far |
| BakeWebsite.RewrittenHasNoMatch | src/bake_website.py:60 | a rewritten attribute contains no candidate match |
| BakeWebsite.NoMatchUnchanged | src/bake_website.py:82-84 | a page without candidates is returned unchanged |
| BakeWebsite.RewriteSingleAttribute | src/bake_website.py:65-82 | a one-attribute page is rewritten to its processed form |
| BakeWebsite.RewriteIdempotentOnAttribute | src/bake_website.py:60-82 | rewriting a one-attribute page twice is the same as rewriting it once |
| BakeWebsite.TwoLinksFound | src/bake_website.py:60 | an `href` link followed by a `src` link gives both matches, in order |
| BakeWebsite.FixAsWrittenKeepsOnlyLast | src/bake_website.py:82 | as written, for either set order, only the link handled last is rewritten |
| BakeWebsite.RewriteLinksRewritesBoth | src/bake_website.py:62-82 | the corrected loop rewrites both links |
| BakeWebsite.FixAsWrittenDiffers | src/bake_website.py:82 | both as-written results differ from the corrected one |
| BakeWebsite.FixAsWrittenOnNoMatch | src/bake_website.py:84 | on a page without candidates the as-written function fails with the unbound-local error, while the corrected rewrite returns the page |
| BakeWebsite.Stem | src/bake_website.py:33 | `split(".")[0]`: a prefix of the name without `.`, followed in the name by `.` if shorter |
| BakeWebsite.MarkdownFiles | src/bake_website.py:29 | exactly the listed names ending in `.md` |
| BakeWebsite.ElementPages | src/bake_website.py:39-42 | one page per element, in index order, from `portfolio/<id>` to `portfolio/<id>.html` |
| BakeWebsite.CustomPagesAreMarkdown | src/bake_website.py:29-35 | one custom page per `.md` file, in listing order, from `/<stem>` to `<stem>.html` |
| BakeWebsite.CustomPages | src/bake_website.py:29-35 | the custom pages; stated by CustomPagesAreMarkdown |
| BakeWebsite.Pages | src/bake_website.py:23-42 | every page the export renders; stated by PagesLayout and PagesExample |
| BakeWebsite.PagesLayout | src/bake_website.py:23-42 | home, gallery, then custom pages, then element pages; the count is 2 + custom pages + elements |
| BakeWebsite.PagesAreHtml | src/bake_website.py:24-42 | every saved file name ends in `.html` |
| BakeWebsite.CustomRouteResolves | src/bake_website.py:31-35 | a candidate link to a custom page's route `/<stem>` is rewritten to `./<stem>.html`, the file that page is saved to |
| BakeWebsite.ElementRouteResolves | src/bake_website.py:39-42 | a link to an element page's route `portfolio/<id>` is rewritten to `./portfolio/<id>.html`, the file that page is saved to |
| BakeWebsite.RouteLinkResolvesAt | src/bake_website.py:23-42 | the page at any position of the list (home, gallery, custom or element) is reached by its rewritten route |
| BakeWebsite.RouteLinksResolve | src/bake_website.py:23-42 | a link to any baked route, once rewritten, points at the file that route is saved to |
| BakeWebsite.PagesExample | src/bake_website.py:23-42 | no custom pages and elements `photo1`, `video1` give index, gallery and the two element pages |
| BakeWebsite.ProcessAndSaveFile | src/bake_website.py:45-50 | the page is saved under its path with its links fixed |
| BakeWebsite.Saved | src/bake_website.py:45-50 | one saved file per page, with the rendered and link-fixed content |
| BakeWebsite.SaveCustomPages | src/bake_website.py:29-35 | the loop saves, in listing order, one rendered and link-fixed page per `.md` file, right after home and gallery |
| BakeWebsite.SaveElementPages | src/bake_website.py:39-42 | the loop saves one page per element, in index order, which completes the saved list of every page |
| BakeWebsite.BakeSite | src/bake_website.py:12-42 | the saved files are exactly the pages in order, each with its rendered, link-fixed content |
| BakeWebsite.FixLinksAsWritten | src/bake_website.py:45-84 | `fix_relative_links` as `process_and_save_file` calls it, where `order` gives each page's iteration order over its set of matches; stated by FixLinksAsWrittenErrIff and FixLinksAsWrittenOneLink |
| BakeWebsite.FixLinksAsWrittenErrIff | src/bake_website.py:53-84 | as written, for any order that walks the set of matches, fixing a page's links raises iff the page has no candidate link |
| BakeWebsite.FixLinksAsWrittenOneLink | src/bake_website.py:62-82 | on a page with exactly one distinct link, the as-written fix equals the corrected rewrite, whatever the set order |
| BakeWebsite.SetOrderOfOne | src/bake_website.py:63 | when the set of matches has one element, any order over it ends with that element |
| BakeWebsite.FixAsWrittenEndsWith | src/bake_website.py:80-84 | as written, the result depends only on the match handled last: the page with that match replaced |
| BakeWebsite.RewriteLinksOne | src/bake_website.py:62-84 | with one distinct link, the corrected rewrite replaces just that link |
| BakeWebsite.ProcessAndSaveFileAsWritten | src/bake_website.py:45-50 | for the page's iteration order over its set of matches: raises iff that order is empty; otherwise saves the page under its path, with the as-written fix |
| BakeWebsite.SaveAll | src/bake_website.py:12-42 | an export that fixes and writes each page in turn with a given fix; at the first refusal it stops, keeping the files already written, and carries the error; stated by SaveAllWritten, SaveAllErrIff, SaveAllStops and SaveAllAgrees |
| BakeWebsite.SaveAllErrIff | src/bake_website.py:12-42 | an export carries an error iff its fix refuses some page |
| BakeWebsite.SaveAllWritten | src/bake_website.py:12-50 | every file written is the next page's, in order, under the page's file name, with the fixed rendering; without an error every page is written; with one, the pages before the first refused page are written and that page is refused |
| BakeWebsite.SaveAllStops | src/bake_website.py:22-42 | once a prefix of the pages ends in an error, the later pages change nothing: they are never written |
| BakeWebsite.SaveAllAgrees | src/bake_website.py:12-50 | a fix that agrees with the corrected rewrite on every page saves what `BakeSite` saves, with no error |
| BakeWebsite.SavedAsWrittenErrIff | src/bake_website.py:12-50 | for any set orders, the export as written raises iff some page is rendered without a link; it raises at the first such page, after writing every page before it |
| BakeWebsite.SavedAsWrittenAgrees | src/bake_website.py:12-50 | where every page has exactly one distinct link, the export as written saves what the corrected one saves, whatever the set orders |
| BakeWebsite.SavePagesAsWritten | src/bake_website.py:22-42 | the page loop as written, for given set orders: the export with the as-written fix, which writes pages until the first page without a link and returns what it wrote with the error |
| BakeWebsite.BakeSiteAsWritten | src/bake_website.py:12-42 | `bake_site` as written, for given set orders: the export with the as-written fix over home, gallery, custom pages and element pages, keeping the files written before a failure |
| ConfigManager.ResolveTarget | src/config_manager.py:72-91 | the new value of one link target, or the error it raises; stated by ResolveTargetAccepts and ResolveTargetResult |
| ConfigManager.ResolveLink | src/config_manager.py:66-91 | one link with its target resolved; stated by ResolveLinkOnlyTarget |
| ConfigManager.ResolveTargetAccepts | src/config_manager.py:72-91 | a target is accepted iff it is `[home]`, `[gallery]`, or unbracketed and an absolute URL or a `.md` path; bracketed refusals and other refusals raise different errors |
| ConfigManager.ResolveTargetResult | src/config_manager.py:72-88 | `[home]` gives `/`; `[gallery]` gives `/gallery`; URLs are unchanged; a `.md` path loses exactly its last three characters |
| ConfigManager.BracketedUrlRefused | src/config_manager.py:72-83 | the bracket test comes first: `[…://]` is refused |
| ConfigManager.MarkdownTargetExample | src/config_manager.py:84-88 | `about.md` gives `about`; `notes.md.md` gives `notes.md` |
| ConfigManager.ResolveLinkOnlyTarget | src/config_manager.py:66-88 | resolving a link changes its `target` only |
| ConfigManager.ResolveLinks | src/config_manager.py:65-91 | resolving keeps the number of links |
| ConfigManager.ResolveLinksAllResolved | src/config_manager.py:65-91 | without an error, every link is resolved |
| ConfigManager.FirstFailure | src/config_manager.py:65-91 | the position of the first link whose target raises: every link before it resolves, and it raises (or it is the end of the list) |
| ConfigManager.ResolveLinksPrefix | src/config_manager.py:65-91 | the links before the first failing one are replaced by their resolved form |
| ConfigManager.ResolveLinksFailure | src/config_manager.py:65-91 | an error is reported iff some link raises; it is the first failing link's error, and that link and the rest are unchanged |
| ConfigManager.ResolveLinksIs | src/config_manager.py:65-91 | the outcome of the loop is the resolved prefix followed by the untouched rest, with the first failing link's error |
| ConfigManager.ResolveLinksAppend | src/config_manager.py:65 | top links are resolved first; footer links are resolved only if no top link raised |
| ConfigManager.ResolveEach | src/config_manager.py:65-91 | the loop over the joined list gives the resolved links and the first error |
| ConfigManager.Config.constructor | src/config_manager.py:23 | the configuration as read from the file |
| ConfigManager.Config.ResolveConfigLinkTargets | src/config_manager.py:59-91 | a missing link list raises; otherwise both lists are replaced by their resolved parts and the first error is reported |
| ConfigManager.Normalise | src/config_manager.py:49-52 | per key: non-override values become None, others kept, order kept |
| ConfigManager.NormaliseIdempotent | src/config_manager.py:49-52 | a normalised table has no non-override value; normalising again changes nothing |
| ConfigManager.StyleAsWritten | src/config_manager.py:46-56 | the style section left by the code as written; stated by ParseStyleConfigsAsWritten, StyleAsWrittenDropsOverrides and StyleAgreesWithoutNonOverrides |
| ConfigManager.StyleNormalised | src/config_manager.py:46-56 | the corrected style section; stated by Normalise, NormaliseIdempotent and StyleAgreesWithoutNonOverrides |
| ConfigManager.StyleAsWrittenDropsOverrides | src/config_manager.py:52 | as written, one `"default"` value discards the other overrides; the corrected normalisation keeps them |
| ConfigManager.StyleAgreesWithoutNonOverrides | src/config_manager.py:48-56 | both versions agree on tables without non-override values and on an absent section |
| ConfigManager.Config.ParseStyleConfigsAsWritten | src/config_manager.py:42-56 | the section becomes None if any value is `""` or `"default"`; an absent section becomes an empty table |
| ConfigManager.Config.ParseStyleConfigs | src/config_manager.py:48-56 | corrected: each non-override value becomes None; an absent section becomes an empty table |
| Carousel.Rem | src/static/js/carousel.js:18 | JS `%`: NaN iff an operand is NaN or the divisor is zero; otherwise the sign follows the dividend and the result is below the divisor in magnitude |
| Carousel.RemSmall | src/static/js/carousel.js:18 | on a dividend below twice the divisor, the remainder wraps at most once |
| Carousel.RemTruncates | src/static/js/carousel.js:18 | `-1 % 3` is `-1`; `7 % 0` is NaN |
| Carousel.NextIndex | src/static/js/carousel.js:23 | the next handler's new index; stated by StepsStayInRange, PrevNextInverse and FullTurn |
| Carousel.PrevIndex | src/static/js/carousel.js:18 | the prev handler's new index; stated by StepsStayInRange and PrevNextInverse |
| Carousel.AfterClicks | src/static/js/carousel.js:16-25 | the index after a run of clicks; stated by ClicksStayInRange, NoButtonsNoMove and NextClicksAdvance |
| Carousel.StepsStayInRange | src/static/js/carousel.js:17-25 | with n > 0, next moves one forward and wraps to 0; prev moves one back and wraps to n-1; both stay in [0, n) |
| Carousel.PrevNextInverse | src/static/js/carousel.js:18-23 | prev after next, and next after prev, restore the index |
| Carousel.NoSlidesGiveNaN | src/static/js/carousel.js:18-23 | with no slides, a click makes the index NaN and it stays NaN |
| Carousel.ClicksStayInRange | src/static/js/carousel.js:16-25 | with n > 0, any run of clicks keeps the index in [0, n) |
| Carousel.NoButtonsNoMove | src/static/js/carousel.js:16-28 | with a button missing, clicks never move the index |
| Carousel.NextClicksAdvance | src/static/js/carousel.js:22-25 | k ≤ n next clicks move k slides forward, wrapping at most once |
| Carousel.FullTurn | src/static/js/carousel.js:22-25 | n next clicks return to the starting slide |
| Carousel.Slider.constructor | src/static/js/carousel.js:6 | the index starts at 0 |
| Carousel.Slider.ClickPrev | src/static/js/carousel.js:17-20 | the index becomes `(i - 1 + n) % n` if the buttons exist, and stays the same otherwise |
| Carousel.Slider.ClickNext | src/static/js/carousel.js:22-25 | the index becomes `(i + 1) % n` if the buttons exist, and stays the same otherwise |

## Left out

- Flask, the test-client rendering, logging and the markdown library are not modelled. Rendering is a parameter `render: string -> string` of `BakeSite`.
- File-system effects are not modelled:
  - The folder listings are inputs. `os.listdir` becomes an optional sequence of (name, is-file) entries, and the custom-pages listing becomes a sequence of names. Unlike the portfolio listing, `os.listdir` of the custom-pages folder (src/bake_website.py:28) is not guarded, so a missing folder raises `FileNotFoundError` after `index.html` and `gallery.html` are written. That error path is not modelled.
  - `save_to_output_folder` and its directory creation are left out; `BakeSite` returns the (path, content) pairs it would write.
  - `get_asset_text` reads from a map of existing files.
- `asyncio.gather` in the discovery is modelled as a sequential, order-preserving map followed by a filter. The singleton machinery (`get_instance`, `__new__`) is not modelled.
- The interface between the two element files does not line up. `src/portfolio.py` passes an absolute path and calls `get_identifier`. `src/portfolio_element.py` stores the path as given and defines `get_asset_identifier`. As written, the call `PortfolioElement(absolute_asset_path=...)` at src/portfolio.py:66 does not match `__init__(self, asset_path)`, so the discovery raises `TypeError` at the first asset file, before line 69 runs. The model uses one identifier function on paths relative to the portfolio folder. ScanAsWritten and the src/portfolio.py:69 finding describe the discovery once that call is reconciled.
- Elements are compared by value, not by object identity. The two agree because the names in a directory listing are distinct, so no two entries of the index are the same element value.
- `get_asset_type` is not part of this model: its definition is not in the repository files this model covers.
- `load_configs` is not modelled: the TOML parsing, the file open and the Flask context processor. Only string values are modelled, in the link tables and in the `style` section. Non-string TOML values (numbers, booleans, arrays) are not; in the `style` section both the code as written and the corrected normalisation would keep them unchanged.
- The carousel's DOM queries, the `style.transform` updates, the listener wiring and the console message are not modelled. The slide count and the presence of both buttons are fixed when the page loads.
- BakeWebsite.RewriteLinks: it fixes the iteration order to first occurrence. In another order the corrected loop can give a different page when one match's text occurs inside another's. On the page `src="xhref="a" href="a"` the matches are `src="xhref="` and `href="a"`. First-occurrence order gives `src="./xhref=.html"a" href="./a.html"`. The reverse order also replaces the `href="a"` inside the first rewrite and gives `src="./xhref=.html"./a.html" href="./a.html"`. Independence of the order is not proved for any class of pages.
- BakeWebsite.RewriteIdempotentOnAttribute: idempotence of the corrected rewrite is proved only for a page made of one attribute. For other pages it would need a description of matches that span a replaced attribute and the text around it, and the model gives none.
- BakeWebsite.RouteLinksResolve: a custom page with an empty stem (such as `.md`) is rendered from `/` but saved as `.html`, so the lemma excludes it. Routes that are not rewrite candidates are excluded as well, for instance an identifier containing a `.`.
- BakeWebsite.FixAsWrittenKeepsOnlyLast: the discrepancy is shown for an `href` link followed by a `src` link whose values contain no `=`, not for every page.
- BakeWebsite.FixRelativeLinksAsWritten: the iteration order is a parameter that the method does not require to walk the set of matches; SetOrderEmpty states what such an order implies.
- ConfigManager.Config.ParseStyleConfigsAsWritten: a section that is already None (after an earlier call cleared it) stays None. The source would raise `AttributeError` on `None.items()` there, and the model does not represent that error.
- BakeWebsite.ProcessAndSaveFile: it composes the corrected `fix_relative_links`. As written, the program keeps one rewritten link per page and raises on a page without links; ProcessAndSaveFileAsWritten models that.
- BakeWebsite.Saved: it describes the corrected export, where every page gets the corrected rewrite. SaveAll with FixLinksAsWritten describes the program as written.
- BakeWebsite.SaveCustomPages: it saves pages with the corrected rewrite. As written, each page keeps only one rewritten link, and a page without links ends the export (SavePagesAsWritten).
- BakeWebsite.SaveElementPages: it saves pages with the corrected rewrite. As written, each page keeps only one rewritten link, and a page without links ends the export (SavePagesAsWritten).
- BakeWebsite.BakeSite: the corrected export never fails and rewrites every link. `bake_site` as written aborts at the first page without a link and rewrites one link per page; BakeSiteAsWritten models that.
- BakeWebsite.BakeSiteAsWritten: the source's three loops (home and gallery, custom pages, elements) are one loop over the page list; PagesLayout shows that this list has the source's order.
- PortfolioIndex.Portfolio.constructor: it builds the first-wins index, with unique identifiers. As written, the program keeps every colliding file (ScanAsWritten, CollidingPair).
- PortfolioIndex.Portfolio.GetElements: it promises the unique identifiers of the first-wins index. As written, the list may hold several elements with one identifier.
- The order of `list(set(...))` is not fixed in Python. The corrected rewrite (RewriteLinks, FixRelativeLinks) takes first-occurrence order, one of the orders the corrected loop may take. FixRelativeLinksAsWritten takes the iteration order as a sequence. The as-written export (FixLinksAsWritten, SavePagesAsWritten, BakeSiteAsWritten) takes a function from a page's content to its iteration order; IsSetOrder and SetOrders say that each such order lists the set of matches, each once.

## Findings

| source | as written | input that shows it | evidently intended | confidence | as-written member | corrected member |
|---|---|---|---|---|---|---|
| src/portfolio.py:69 | the collision scan reads `elements`, which is still the empty list bound at line 45 while files are processed, so it never finds a collision | listing `photo.jpg`, `photo.png` (both files) | keep the first file of each identifier and drop the later one with a warning | high, not executed | PortfolioIndex.CollisionAsWritten | PortfolioIndex.ScanUnique |
| src/bake_website.py:82 | every iteration replaces into the original `content`, so only the last match's rewrite is returned | page `href="about"src="logo"` | rewrite every distinct match | high, not executed | BakeWebsite.FixAsWrittenKeepsOnlyLast | BakeWebsite.RewriteLinksRewritesBoth |
| src/bake_website.py:84 | with no match, `content_with_fixed_links` is never assigned, so the return raises `UnboundLocalError` | a page with no `href`/`src` link | return the page unchanged | high, not executed | BakeWebsite.FixRelativeLinksAsWritten | BakeWebsite.NoMatchUnchanged |
| src/config_manager.py:52 | one `""` or `"default"` value sets the whole `style` section to None | style `accent = "default"`, `font = "Serif"` | only that key becomes None, as the comment at line 49 says | medium, not executed | ConfigManager.StyleAsWrittenDropsOverrides | ConfigManager.Normalise |
