# wxr-to-pdf, modelled in Dafny

`wxr-to-pdf.py` turns a WordPress export (WXR) into a PDF archive of a blog. This project
models the deterministic text and list logic at its centre and proves what it does:

- **Content normaliser** (`content.dfy`, module `Content`). This is `preprocess_content` and its three rewrites, in their fixed order.
  - `replace_shortcode_captions` turns each `[caption id=".." align=".." width=".."]…[/caption]` shortcode into a `<figure>`.
  - `replace_urls` rewrites the site's `wp-content/uploads/` prefix to `./content/`.
  - `convert_to_paragraphs` wraps each `"\n\n"`-separated block in `<p>`.

  Each fixed regular expression is written out as a scanner with the leftmost, non-overlapping, lazy behaviour of `re.sub`. The caption pattern's lazy groups with backtracking are proved to be the chain of earliest closing literals (`LazyGroupsSound`, `LazyGroupsFound`, `LazyGroupsComplete`). Python's `$`, which also matches before a final newline, is modelled.
- **Comment renderer** (`comments.dfy`, module `Comments`). `preprocess_comments` writes a count header and one `<div class="comment">` per comment. It has a special case for Facebook "like" comments, and it removes `<[^<]+?>` tags from bodies. It is modelled as the loop the source runs, proved against a specification function.
- **Item filter** (`wxr.dfy`, module `Wxr`). This is the part of `parse_wxr` that runs after the XML has been read.
  - It builds the author map.
  - It keeps published posts and pages.
  - It keeps approved comments.
  - It partitions items into posts and pages in document order.
- **Writer state** (`document.dfy`, module `Document`).
  - The `PDF` object's page counter, link identifiers and table of contents form a class with the methods `create_pdf` and `add_content` call.
  - The fixed-width contents lines of `generate_toc` are modelled.
  - So is the HTML body handed to the library for each item.
- **String vocabulary** (`text.dfy`, module `Text`) holds Python's `strip`, `split`, `join`, `find`, `s[:n]`, `c * n` and `str(n)`. `wrappers.dfy` holds the `Option` type.

## Model

| member | source | states |
|---|---|---|
| Text.Strip | wxr-to-pdf.py:269 | `str.strip()` yields a text no longer than its input that neither begins nor ends with whitespace (the `str.isspace` set) |
| Text.StripInfix | wxr-to-pdf.py:269 | what `strip` removes from either end is whitespace only, and what it keeps is an infix of the input |
| Text.StripTrimmed | wxr-to-pdf.py:246-247 | a text that neither begins nor ends with whitespace is left unchanged by `strip` |
| Text.Split | wxr-to-pdf.py:267 | `split("\n\n")` gives at least one piece, the pieces joined by the separator give back the text, and no piece contains the separator |
| Text.SplitUnique | wxr-to-pdf.py:267 | any cutting into separator-free pieces, each cut at the first separator after it, is exactly what `split` returns |
| Text.NatToString | wxr-to-pdf.py:287 | `str(n)` is a non-empty run of decimal digits with no leading zero unless `n` is 0 |
| Text.ParseNatToString | wxr-to-pdf.py:115 | the decimal page number written by `str(n)` reads back as `n` |
| Text.FindFrom | wxr-to-pdf.py:232 | the literal search every pattern scan is built on: the first occurrence of a literal at or after a position, or none; `Text.FindFromSpec` states it |
| Text.FindFromSpec | wxr-to-pdf.py:232 | the search reports an occurrence at or after the start with none before it, and reports none only when the literal occurs nowhere from there |
| Text.Join | wxr-to-pdf.py:271 | `"\n".join(parts)`; `Text.Split` states that joining the pieces gives back the text, and `Content.ParagraphsOfBlocks` what the joined paragraphs are |
| Text.Take | wxr-to-pdf.py:114 | `title[:60]` is the prefix of length `min(60, len(title))`: the first 60 characters of a longer title, and the whole of a title no longer than 60 |
| Text.Repeat | wxr-to-pdf.py:115 | `'.' * n` is exactly `n` dots |
| Content.LazyGroups | wxr-to-pdf.py:232 | the lazy groups `(.*?)` of the caption pattern, each ended by the first occurrence of its closing literal; `Content.LazyGroupsSound`, `Content.LazyGroupsFound` and `Content.LazyGroupsComplete` state that this is what backtracking chooses |
| Content.MatchCaptionAt | wxr-to-pdf.py:232-260 | the caption pattern tried at one position: the opener there, then the lazy groups; `Content.CaptionsExpand`, `Content.CaptionsCopyFirst` and `Content.CaptionsWithoutMatch` state how `sub` uses it |
| Content.LazyGroupsSound | wxr-to-pdf.py:232 | the shortcode scanner's groups are placed in order, each closed by the first occurrence of its closing literal |
| Content.LazyGroupsFound | wxr-to-pdf.py:232 | the placement with the earliest closing literals is exactly what the scanner reports |
| Content.LazyGroupsComplete | wxr-to-pdf.py:232 | whenever the caption pattern can match in any backtracking choice, the scanner finds a match |
| Content.PlacedText | wxr-to-pdf.py:232 | a placement spans its groups and literals in order, inside the text |
| Content.WeaveFound | wxr-to-pdf.py:232 | groups written out with their closing literals, none containing an earlier closing literal, are found again as those same groups |
| Content.EndAnchor | wxr-to-pdf.py:242 | `$` matches at or after the search start, within the text |
| Content.EndAnchorStripped | wxr-to-pdf.py:242-243 | in a stripped inner block, `$` matches only at the very end |
| Content.SplitImageSpec | wxr-to-pdf.py:242-243 | the inner pattern matches exactly when the block starts with `<img` and has a `/>` after it; the tag then ends at the first such `/>` and the caption runs to where `$` matches, before a final newline when one follows the tag |
| Content.SplitImage | wxr-to-pdf.py:242-243 | the inner pattern `(<img.*?\/>)(.*?)$` on the stripped block; `Content.SplitImageSpec` states when it matches and what its two groups are |
| Content.CaptionsCopyFirst | wxr-to-pdf.py:260 | where no shortcode starts, the first character is copied and the scan moves on by one |
| Content.ReplaceCaptions | wxr-to-pdf.py:230-262 | `pattern.sub(replace_caption, content)`, the leftmost non-overlapping scan; its behaviour is stated by `Content.CaptionsCopyFirst`, `Content.CaptionsCopyPrefix`, `Content.CaptionsExpand`, `Content.CaptionsWithoutMatch` and `Content.CaptionsWithoutShortcode` |
| Content.CaptionsWithoutMatch | wxr-to-pdf.py:230-262 | text in which the caption pattern matches at no position (a missing `[/caption]`, attributes in another order) comes back unchanged |
| Content.CaptionsWithoutShortcode | wxr-to-pdf.py:230-262 | text containing no `[caption id="` comes back unchanged |
| Content.CaptionsCopyPrefix | wxr-to-pdf.py:260 | a prefix in which no shortcode starts is copied verbatim ahead of the rewritten rest |
| Content.CaptionsExpand | wxr-to-pdf.py:235-260 | a shortcode at the front is replaced by `replace_caption`'s result, and the scan resumes after `[/caption]` |
| Content.ExpandShortcode | wxr-to-pdf.py:235-257 | `replace_caption`: a figure when the stripped inner block splits into tag and caption, else the shortcode text; stated over all inputs by `Content.FitShortcodeFigure` and `Content.UnfitShortcodeKept`, which with `Content.SplitImageSpec` cover every case |
| Content.UnfitShortcodeKept | wxr-to-pdf.py:242-257 | a shortcode whose stripped inner block does not start with `<img`, or has no `/>` after it, is kept verbatim (`match.group(0)`) |
| Content.ImageSplit | wxr-to-pdf.py:242-247 | an image tag ending at its first `/>`, followed by a caption not ending in a newline, splits into exactly that tag and caption |
| Content.FitShortcodeFigure | wxr-to-pdf.py:242-255 | a shortcode whose inner block, once stripped, is an image tag and a caption becomes the `<figure id class style>`, image, `<figcaption>` fragment with that tag and the stripped caption |
| Content.TagCaptionTrimmed | wxr-to-pdf.py:246-247 | a tag followed by a caption not ending in whitespace is already stripped, as is the tag alone |
| Content.FigurePassesThrough | wxr-to-pdf.py:245-260 | a figure built from fields holding no `[` is copied unchanged by a second caption pass, which rewrites only the text after it |
| Content.UploadMatch | wxr-to-pdf.py:219 | a match of `url/?wp-content/uploads/` covers at least the URL and the uploads path and stays inside the text |
| Content.UploadMatchAtSite | wxr-to-pdf.py:219 | every upload match begins with the site URL |
| Content.ReplaceUrls | wxr-to-pdf.py:214-222 | `re.sub` of `url/?wp-content/uploads/` by `./content/`; stated by `Content.UrlsWithoutSite`, `Content.UrlsCopyPrefix` and `Content.UrlsRewriteUpload` |
| Content.UrlsWithoutSite | wxr-to-pdf.py:214-222 | text that never mentions the site URL comes back unchanged |
| Content.UrlsCopyPrefix | wxr-to-pdf.py:218-222 | a prefix in which no upload URL starts is copied verbatim |
| Content.UrlsRewriteUpload | wxr-to-pdf.py:218-222 | an upload URL at the front, with or without the `/`, becomes `./content/`, and the rest is rewritten in turn |
| Content.UrlRun | wxr-to-pdf.py:224 | `[A-Za-z0-9/-]*` takes the longest run of path characters |
| Content.FoundUrl | wxr-to-pdf.py:224 | `re.search(url + '[A-Za-z0-9/-]*', content)`; `Content.FoundUrlSpec` states its result |
| Content.FoundUrlSpec | wxr-to-pdf.py:224-226 | the diagnostic search finds nothing exactly when the site URL is not mentioned; otherwise it finds the first mention with its longest path run |
| Content.ConvertToParagraphs | wxr-to-pdf.py:265-271 | split on `"\n\n"`, wrap each stripped block in `<p>`, join with `"\n"`; stated by `Content.WrapAll`, `Content.ParagraphsOfBlocks` and `Content.ParagraphsOfEmpty` |
| Content.WrapAll | wxr-to-pdf.py:269 | one `<p>`+strip+`</p>` per block, in order |
| Content.ParagraphsOfBlocks | wxr-to-pdf.py:265-271 | blocks with no blank line inside (and, but for the last, no trailing newline) joined by `"\n\n"` become exactly one paragraph each, joined by `"\n"` |
| Content.ParagraphsOfEmpty | wxr-to-pdf.py:265-271 | the empty body still yields one empty paragraph `<p></p>` |
| Content.PreprocessContent | wxr-to-pdf.py:274-283 | captions, then URLs, then paragraphs, in that order; `Content.PreprocessPlain` states the result on a plain body |
| Content.PreprocessPlain | wxr-to-pdf.py:274-283 | a body with no shortcode, no site URL and no blank line passes all three rewrites as a single stripped paragraph |
| Comments.PyStr | wxr-to-pdf.py:291-295 | an element text renders as itself, and a missing one as `None` |
| Comments.CloseFrom | wxr-to-pdf.py:295 | the lazy `[^<]+?>` tail of the tag pattern: the first `>` from a position, if no `<` comes first, within the text; `Comments.CloseFromSpec` states it |
| Comments.TagEnd | wxr-to-pdf.py:295 | where a tag `<[^<]+?>` starting at the front of the text ends, within the text; `Comments.TagEndSpec` states it |
| Comments.CloseFromSpec | wxr-to-pdf.py:295 | the tag scanner stops at the first `>` that comes before any `<`, and finds none only when a `<` comes before every `>` |
| Comments.TagEndSpec | wxr-to-pdf.py:295 | the scanner finds the shortest `<[^<]+?>` at the start of the text, and finds one whenever there is one |
| Comments.StripTags | wxr-to-pdf.py:295 | removing tags never lengthens the body |
| Comments.StripTagsPlainPrefix | wxr-to-pdf.py:295 | text before which no tag can start is kept verbatim |
| Comments.StripTagsNoOpen | wxr-to-pdf.py:295 | a body with no `<` appears verbatim |
| Comments.StripTagsDropsTag | wxr-to-pdf.py:295 | a whole tag `<t>` is removed, and scanning resumes right after it |
| Comments.StripTagsKeepsEmptyBrackets | wxr-to-pdf.py:295 | `<>` is not a tag: it is kept when no later `>` can close it |
| Comments.RenderComment | wxr-to-pdf.py:289-295 | one comment's `<div>`: author only for a Facebook like, else author, date and tag-stripped body; stated by `Comments.LikeHidesBody`, `Comments.PlainBodyVerbatim` and `Comments.EmptyBodyShowsNone` |
| Comments.RenderAll | wxr-to-pdf.py:289-296 | each comment's block in list order; stated by `Comments.RenderAllAppend` and `Comments.RenderAllOne` |
| Comments.CommentsHtml | wxr-to-pdf.py:286-298 | the specification of `preprocess_comments`; stated by `Comments.CommentsEmpty`, `Comments.CommentsOrder`, `Comments.RenderAllAppend` and `Comments.RenderAllOne` |
| Comments.PreprocessComments | wxr-to-pdf.py:286-298 | the loop returns `""` for no comments, else the `<h3>Comments (n)</h3>` header followed by each comment's `<div>` in order |
| Comments.RenderAllAppend | wxr-to-pdf.py:289-295 | rendering a list renders its two parts one after the other, so input order is kept |
| Comments.RenderAllOne | wxr-to-pdf.py:289-295 | a single comment renders as exactly its own block |
| Comments.CommentsEmpty | wxr-to-pdf.py:287-298 | the comment block is empty exactly when there are no comments |
| Comments.CommentsOrder | wxr-to-pdf.py:286-296 | comments appended to a list are rendered after the earlier ones, under the header for the new count |
| Comments.LikeHidesBody | wxr-to-pdf.py:291-292 | a Facebook like renders the same whatever its body and date: only the author shows |
| Comments.PlainBodyVerbatim | wxr-to-pdf.py:293-295 | a body that is not a like and has no `<` is shown verbatim after the author and date |
| Comments.EmptyBodyShowsNone | wxr-to-pdf.py:291-295 | an empty comment element renders its body through `str(None)`, as `None` |
| Wxr.AuthorMapOf | wxr-to-pdf.py:130-134 | the author dictionary; `Wxr.AuthorMapSpec` states which logins it maps and to what |
| Wxr.BuildAuthorMap | wxr-to-pdf.py:130-134 | the author loop builds the map in which later records overwrite earlier ones |
| Wxr.AuthorMapSpec | wxr-to-pdf.py:130-134 | a login is mapped exactly when some record has it, and then to the display name of its last record |
| Wxr.ResolveAuthorSpec | wxr-to-pdf.py:161-163 | an item's author is its login's last display name, or `Unknown Author` when there is no creator or no such login |
| Wxr.ResolveAuthor | wxr-to-pdf.py:161-163 | `author_map.get(creator, 'Unknown Author')`; `Wxr.ResolveAuthorSpec` states it |
| Wxr.ApprovedComments | wxr-to-pdf.py:186-203 | the approved comments of an item; stated by `Wxr.ApprovedAppend` and `Wxr.ApprovedMember` |
| Wxr.CollectComments | wxr-to-pdf.py:186-203 | the comment loop keeps the approved comments, in document order |
| Wxr.ApprovedAppend | wxr-to-pdf.py:186-203 | the comments kept from two runs of records are those of the first run, then those of the second |
| Wxr.ApprovedMember | wxr-to-pdf.py:196-203 | a comment is kept exactly when it comes from a record whose approval is `'1'` |
| Wxr.ToEntry | wxr-to-pdf.py:158-184 | a missing title becomes `No Title`, and a missing body becomes the empty string |
| Wxr.Kept | wxr-to-pdf.py:142-156 | an item is kept when it has a type and a status, the type is `post` or `page`, and the status is `publish`; used by `Wxr.SelectedMember` and `Wxr.PartitionCount` |
| Wxr.Selected | wxr-to-pdf.py:140-208 | the kept items of one type, in document order; stated by `Wxr.SelectedAppend`, `Wxr.SelectedMember` and `Wxr.SelectedKind` |
| Wxr.ParseItems | wxr-to-pdf.py:136-208 | the item loop returns, in document order, the kept posts and the kept pages |
| Wxr.PartitionCount | wxr-to-pdf.py:140-208 | every kept item goes to exactly one of the two lists: \|posts\| + \|pages\| is the number of kept items |
| Wxr.SelectedAppend | wxr-to-pdf.py:140-208 | the entries from two runs of items are those of the first run, then those of the second (order kept) |
| Wxr.SelectedMember | wxr-to-pdf.py:142-208 | an entry is listed exactly when it is built from a published item of that type |
| Wxr.SelectedKind | wxr-to-pdf.py:205-208 | the posts list holds only posts, and the pages list only pages |
| Document.Pdf.constructor | wxr-to-pdf.py:65-71 | a new writer has no page, no link and an empty contents, and satisfies its invariant |
| Document.Pdf.AddPage | wxr-to-pdf.py:339 | `add_page` advances the page counter by one, changes nothing else and keeps the invariant |
| Document.Pdf.BreakPages | wxr-to-pdf.py:356-360 | pages the library adds while laying out a body advance the counter, change nothing else and keep the invariant |
| Document.Pdf.AddLink | wxr-to-pdf.py:341 | `add_link` hands out a fresh identifier, one past the last, and keeps the invariant |
| Document.Pdf.AddTocEntry | wxr-to-pdf.py:107-108 | `add_toc_entry` only appends its tuple: earlier entries, the counter and the links are unchanged |
| Document.Pdf.GenerateToc | wxr-to-pdf.py:110-116 | one contents line per entry, in order, each the entry's `TocLine` |
| Document.TocLine | wxr-to-pdf.py:113-115 | one contents line; `Document.TocLineLayout` states its layout |
| Document.TocLineLayout | wxr-to-pdf.py:113-116 | a line is `title[:60]`, then at least 10 dots filling it to column 70, then the page number in decimal, which reads back |
| Document.Pdf.AddItem | wxr-to-pdf.py:339-345 | one item adds a page, a link and an entry titled `Page: ` + title for pages, at the new page and link, and keeps the invariant |
| Document.Pdf.AddContent | wxr-to-pdf.py:330-361 | the loop appends exactly the entries of its items, in order, moves the counter and the links by what they used, and keeps the invariant |
| Document.Registered | wxr-to-pdf.py:330-345 | the contents entries one `add_content` call appends; stated by `Document.RegisteredShape` and `Document.ContentsTitles` |
| Document.RegisteredShape | wxr-to-pdf.py:330-345 | one entry per item in order under its label, with consecutive links and strictly increasing pages inside the span used |
| Document.Contents | wxr-to-pdf.py:363-378 | the table of contents `create_pdf` builds: the posts' entries, then past the divider page the pages'; stated by `Document.ContentsTitles`, `Document.ContentsOrder`, `Document.ContentsBounds` and `Document.CreatePdf` |
| Document.ContentsTitles | wxr-to-pdf.py:363-378 | the contents are one entry per post under its title, then one per page under `Page: ` and its title, and nothing else: the "Pages" divider is not registered |
| Document.ContentsOrder | wxr-to-pdf.py:363-378 | pages and links strictly increase down the whole contents, and the divider page lies between the last post and the first page |
| Document.ContentsBounds | wxr-to-pdf.py:363-378 | every entry points after the contents pages, to no page past the last one, and to a link already made |
| Document.ContentsValid | wxr-to-pdf.py:363-378 | the posts' entries and then the pages' entries make the whole contents, which satisfies the writer invariant |
| Document.CreatePdf | wxr-to-pdf.py:301-378 | title page, contents pages, posts, divider page, pages: the resulting contents, final page count and invariant |
| Document.FullContent | wxr-to-pdf.py:335-337 | `content + comments_html`, which `Document.RenderItem` computes; the lemmas on `Content.PreprocessContent` and `Comments.CommentsHtml` state its two parts |
| Document.RenderItem | wxr-to-pdf.py:335-337 | an item's HTML is its normalised body followed by its comment block |
| Document.RenderBodies | wxr-to-pdf.py:330-337 | the loop yields one body per item, in order, the body at each position being that item's `FullContent` |

## Left out

- XML parsing (wxr-to-pdf.py:120-134, 140-143, 161, 174, 186-190). Authors, items and comments enter as records that have already been read.
  - The title, type, status, creator and body of an item are `None` when the element is absent.
  - An element that is present but empty (text `None`) is not modelled for items; the model reads it as absent. For comments it is modelled, because `str(None)` shows in the output. For items the program behaves as follows:
    - an empty `post_type` or `status` is skipped (148-157), as an absent one is;
    - an empty `dc:creator` gives `author_map.get(None, 'Unknown Author')` (162). That is `Unknown Author`, as for an absent creator, only when every author record has a login; otherwise see the author records below;
    - an empty `content:encoded` gives `None`, and `pattern.sub` raises a `TypeError` at line 260 (reached through line 335), so `create_pdf` stops, while the model continues with the empty string;
    - an empty `title` gives `None` rather than `No Title`, and the model writes `No Title` in its place. For a page the contents entry is `f"Page: {title}"` (342-343), which reads `Page: None` where the model has `Page: No Title`. For a post, `None` is handed to the PDF library's `cell` at line 348, and then to `title[:60]` at line 114, which raises, if the run gets that far.
  - Author records (130-134) whose `author_login` or `author_display_name` element is empty are not modelled: `Wxr.Author` holds two strings. The program stores such a record under the key `None`, or with the display name `None`. An item whose creator element is empty then resolves through `.get(None, ...)` at line 162 to that record's display name, not to `Unknown Author`, and a `None` display name shows as `None` in the item's byline.
- Channel title, description and site URL extraction (wxr-to-pdf.py:124-127). The site URL is a parameter of the normaliser.
- Dates (wxr-to-pdf.py:165-172, 192-194, 210, 351). Publication dates, the date range, time zones and `strftime` are not modelled. A comment's date enters as its formatted string. The errors that dates raise are not modelled either, so `Wxr.ParseItems` and `Document.CreatePdf` complete normally where the program stops:
  - an item with no `pubDate` keeps `pub_date = None` (165-166), is registered in the contents (343-345), and then `pub_date.strftime` raises at line 351, so `create_pdf` never finishes;
  - an empty or malformed `pubDate` raises in `strptime` at line 170;
  - because the source formats comment dates before the approval check, a malformed date in an unapproved comment also stops the program.
- The PDF library (wxr-to-pdf.py:63-105, 303-316, 347-361, 371-375, 380): fonts, header and footer, the title page text, cells and `write_html`.
  - Only the page counter, the link identifiers and the contents list are modelled.
  - The pages that `insert_toc_placeholder(pages=3)` reserves, and the automatic page breaks while a body is laid out, enter as the page counts `reserved` and `breaks[i]`.
  - Link identifiers count up from 1.
- The deferred rendering of the contents (wxr-to-pdf.py:110-116). `Document.Pdf.GenerateToc` models the line text only; font changes and the link on each cell are left out.
- Document.RenderBodies: the HTML of each item is modelled apart from the contents loop (`Document.Pdf.AddContent`). The bodies do not depend on the writer's state, so the interleaving of the two in `add_content` is not captured.
- The `print` diagnostics (wxr-to-pdf.py:154-155, 226). `Content.FoundUrl` models the search whose result is printed; the rewrite never uses it, so it cannot change the output.
- Content.ReplaceCaptions: a second pass over already-rewritten text is not the identity in general, so no idempotence lemma is stated. On `[caption id="a" align="b" width="1"]<img/>x [caption id="c" align="d" width="2"]<img/>y[/caption] z [caption id="e" align="f" width="3"]no image[/caption]` the first pass puts the second opener inside a `<figcaption>` and keeps the last shortcode as written (257); the second pass then matches from that opener to the last `[/caption]` and builds a new figure. What does hold is `Content.FigurePassesThrough`: a figure whose fields hold no `[` passes through a second pass unchanged.
- The command line and `__main__` (wxr-to-pdf.py:383-400).
- Content.ParagraphsOfBlocks: the count "number of separators + 1 paragraphs" is stated through `Text.Split` and `Text.SplitUnique`, not as an explicit count of separators.
