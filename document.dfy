/**
 * The PDF writer's own state: the page counter, the link identifiers and the table of
 * contents that `create_pdf` fills while it lays out posts, then pages, and the fixed-width
 * lines `generate_toc` prints for it. Rendering itself belongs to the PDF library; what
 * the library does to the page counter on its own (automatic page breaks, the pages the
 * contents placeholder reserves) enters as explicit page counts.
 */
module Document {
  import opened Text
  import opened Content
  import opened Comments
  import opened Wxr

  /** One `(title, page_number, link)` tuple of `PDF.toc`. */
  datatype TocEntry = TocEntry(title: string, page: nat, link: nat)

  /** Entries further down the contents point to later pages and to later links. */
  predicate Increasing(toc: seq<TocEntry>) {
    forall i, j :: 0 <= i < j < |toc| ==> toc[i].page < toc[j].page && toc[i].link < toc[j].link
  }

  /** The contents line of an entry: the title cut to 60 characters, dots to column 70, the page. */
  function TocLine(e: TocEntry): string {
    var t := Take(e.title, 60);
    t + Repeat('.', 70 - |t|) + NatToString(e.page)
  }

  /** Increasing entries, each pointing at a page up to `page` and at a link below `nextLink`. */
  predicate Fits(toc: seq<TocEntry>, page: nat, nextLink: nat) {
    Increasing(toc) && forall i :: 0 <= i < |toc| ==> toc[i].page <= page && toc[i].link < nextLink
  }

  class Pdf {
    /** `page_no()`: the number of the current (last added) page. */
    var page: nat
    /** The identifier the next `add_link` hands out. */
    var nextLink: nat
    /** The table of contents, in registration order. */
    var toc: seq<TocEntry>

    /** Everything registered so far points at a page already added and at a link already made. */
    predicate Valid()
      reads this
    {
      Fits(toc, page, nextLink)
    }

    constructor ()
      ensures page == 0 && nextLink == 1 && toc == [] && Valid()
    {
      page := 0;
      nextLink := 1;
      toc := [];
    }

    method AddPage()
      modifies this
      ensures page == old(page) + 1 && nextLink == old(nextLink) && toc == old(toc)
      ensures old(Valid()) ==> Valid()
    {
      page := page + 1;
    }

    /** Pages the library adds by itself while it lays out text. */
    method BreakPages(n: nat)
      modifies this
      ensures page == old(page) + n && nextLink == old(nextLink) && toc == old(toc)
      ensures old(Valid()) ==> Valid()
    {
      page := page + n;
    }

    method AddLink() returns (link: nat)
      modifies this
      ensures link == old(nextLink) && nextLink == old(nextLink) + 1
      ensures page == old(page) && toc == old(toc)
      ensures old(Valid()) ==> Valid()
    {
      link := nextLink;
      nextLink := nextLink + 1;
    }

    /** `add_toc_entry`: it only appends; earlier entries stay as they were. */
    method AddTocEntry(title: string, pageNumber: nat, link: nat)
      modifies this
      ensures toc == old(toc) + [TocEntry(title, pageNumber, link)]
      ensures page == old(page) && nextLink == old(nextLink)
    {
      toc := toc + [TocEntry(title, pageNumber, link)];
    }

    /** The text of `generate_toc`: one line per entry, in order. */
    method GenerateToc() returns (lines: seq<string>)
      ensures |lines| == |toc|
      ensures forall i :: 0 <= i < |toc| ==> lines[i] == TocLine(toc[i])
    {
      lines := [];
      for i := 0 to |toc|
        invariant |lines| == i
        invariant forall k :: 0 <= k < i ==> lines[k] == TocLine(toc[k])
      {
        var title, pageNumber := toc[i].title, toc[i].page;
        var tocText := Take(title, 60);
        lines := lines + [tocText + Repeat('.', 70 - |tocText|) + NatToString(pageNumber)];
      }
    }

    /**
     * The contents side of one round of `add_content`'s loop: a new page, a link and a
     * contents entry (titled "Page: ..." for pages); the item's body then runs over `extra`
     * further pages. Registering the entry keeps the contents increasing.
     */
    method AddItem(item: Entry, isPage: bool, extra: nat)
      modifies this
      ensures toc == old(toc) + [TocEntry(Label(item, isPage), old(page) + 1, old(nextLink))]
      ensures page == old(page) + 1 + extra && nextLink == old(nextLink) + 1
      ensures old(Valid()) ==> Valid()
    {
      AddPage();
      var pageNumber := page;
      var link := AddLink();
      if isPage {
        AddTocEntry("Page: " + item.title, pageNumber, link);
      } else {
        AddTocEntry(item.title, pageNumber, link);
      }
      BreakPages(extra);
    }

    /**
     * The contents side of `add_content`: every item in order, item `i`'s body running
     * over `breaks[i]` extra pages.
     */
    method AddContent(items: seq<Entry>, isPage: bool, breaks: seq<nat>)
      requires |breaks| == |items|
      modifies this
      ensures toc == old(toc) + Registered(items, isPage, old(page), old(nextLink), breaks)
      ensures page == old(page) + Span(breaks) && nextLink == old(nextLink) + |items|
      ensures old(Valid()) ==> Valid()
    {
      ghost var toc0, page0, link0, valid0 := toc, page, nextLink, Valid();
      for i := 0 to |items|
        invariant toc == toc0 + Registered(items[..i], isPage, page0, link0, breaks[..i])
        invariant page == page0 + Span(breaks[..i]) && nextLink == link0 + i
        invariant valid0 ==> Valid()
      {
        AddItem(items[i], isPage, breaks[i]);
        RegisteredSnoc(toc0, items, isPage, page0, link0, breaks, i);
      }
      assert items[..|items|] == items && breaks[..|breaks|] == breaks;
    }
  }

  // ------------------------------------------------------------------
  // The HTML handed to the library
  // ------------------------------------------------------------------

  /** The HTML handed to the library for one item: its normalised body, then its comments. */
  function FullContent(item: Entry, url: string): string {
    PreprocessContent(item.content, url) + CommentsHtml(item.comments)
  }

  /** `content + comments_html` for one item. */
  method RenderItem(item: Entry, url: string) returns (body: string)
    ensures body == FullContent(item, url)
  {
    var content := PreprocessContent(item.content, url);
    var commentsHtml := PreprocessComments(item.comments);
    body := content + commentsHtml;
  }

  /** The items' bodies, in order: `MapSeq` states one body per item, each that item's HTML. */
  function Bodies(items: seq<Entry>, url: string): seq<string> {
    MapSeq(item => FullContent(item, url), items)
  }

  /** Rendering one more item appends its body. */
  lemma BodiesStep(items: seq<Entry>, url: string, i: nat, before: seq<string>, body: string)
    requires i < |items|
    requires before == Bodies(items[..i], url) && body == FullContent(items[i], url)
    ensures before + [body] == Bodies(items[..i + 1], url)
  {
    MapSeqSnoc(item => FullContent(item, url), items, i);
  }

  /**
   * The HTML side of `add_content`: the body of every item, in order. The bodies do not
   * depend on the writer's state, so they are gathered apart from the contents.
   */
  method RenderBodies(items: seq<Entry>, url: string) returns (bodies: seq<string>)
    ensures bodies == Bodies(items, url)
  {
    bodies := [];
    for i := 0 to |items|
      invariant bodies == Bodies(items[..i], url)
    {
      var body := RenderItem(items[i], url);
      BodiesStep(items, url, i, bodies, body);
      bodies := bodies + [body];
    }
    assert items[..|items|] == items;
  }

  // ------------------------------------------------------------------
  // Contents entries
  // ------------------------------------------------------------------

  /** The title an item is registered under. */
  function Label(item: Entry, isPage: bool): string {
    if isPage then "Page: " + item.title else item.title
  }

  /** How far the page counter moves for items whose bodies run over `breaks` extra pages. */
  function Span(breaks: seq<nat>): nat {
    if breaks == [] then 0 else Span(breaks[..|breaks| - 1]) + 1 + breaks[|breaks| - 1]
  }

  /** The contents entries `add_content` registers, starting from page `page0` and link `link0`. */
  function Registered(items: seq<Entry>, isPage: bool, page0: nat, link0: nat, breaks: seq<nat>): seq<TocEntry>
    requires |breaks| == |items|
  {
    if items == [] then []
    else
      var n := |items| - 1;
      Registered(items[..n], isPage, page0, link0, breaks[..n])
      + [TocEntry(Label(items[n], isPage), page0 + Span(breaks[..n]) + 1, link0 + n)]
  }

  /** Registering one more item appends its entry after those of the items before it. */
  lemma RegisteredSnoc(toc0: seq<TocEntry>, items: seq<Entry>, isPage: bool, page0: nat, link0: nat,
                       breaks: seq<nat>, i: nat)
    requires |breaks| == |items| && i < |items|
    ensures toc0 + Registered(items[..i + 1], isPage, page0, link0, breaks[..i + 1])
         == (toc0 + Registered(items[..i], isPage, page0, link0, breaks[..i]))
            + [TocEntry(Label(items[i], isPage), page0 + Span(breaks[..i]) + 1, link0 + i)]
    ensures Span(breaks[..i + 1]) == Span(breaks[..i]) + 1 + breaks[i]
  {
    assert items[..i + 1][..i] == items[..i] && breaks[..i + 1][..i] == breaks[..i];
    var r := Registered(items[..i], isPage, page0, link0, breaks[..i]);
    var e := TocEntry(Label(items[i], isPage), page0 + Span(breaks[..i]) + 1, link0 + i);
    assert (toc0 + r) + [e] == toc0 + (r + [e]);
  }

  /**
   * One entry per item, in order, under its label, with consecutive links and strictly
   * increasing pages, all after `page0` and none past the counter's final value.
   */
  lemma {:induction false} RegisteredShape(items: seq<Entry>, isPage: bool, page0: nat, link0: nat, breaks: seq<nat>)
    requires |breaks| == |items|
    ensures var r := Registered(items, isPage, page0, link0, breaks);
      && |r| == |items|
      && (forall i :: 0 <= i < |r| ==>
            r[i].title == Label(items[i], isPage) && r[i].link == link0 + i
            && page0 < r[i].page <= page0 + Span(breaks))
      && Increasing(r)
  {
    if items != [] {
      var n := |items| - 1;
      RegisteredShape(items[..n], isPage, page0, link0, breaks[..n]);
      var r := Registered(items, isPage, page0, link0, breaks);
      var r' := Registered(items[..n], isPage, page0, link0, breaks[..n]);
      assert r == r' + [r[n]];
      forall i | 0 <= i < n
        ensures r[i].title == Label(items[i], isPage) && r[i].link == link0 + i
        ensures page0 < r[i].page <= page0 + Span(breaks[..n])
      {
        assert r[i] == r'[i] && items[..n][i] == items[i];
      }
    }
  }

  /** The page and link facts of `RegisteredShape` on their own. */
  lemma RegisteredSpan(items: seq<Entry>, isPage: bool, page0: nat, link0: nat, breaks: seq<nat>)
    requires |breaks| == |items|
    ensures var r := Registered(items, isPage, page0, link0, breaks);
      && |r| == |items| && Increasing(r)
      && forall i :: 0 <= i < |r| ==>
           page0 < r[i].page <= page0 + Span(breaks) && link0 <= r[i].link < link0 + |items|
  {
    RegisteredShape(items, isPage, page0, link0, breaks);
  }

  /** Two runs of entries, the second entirely later, make one increasing run. */
  lemma IncreasingConcat(a: seq<TocEntry>, b: seq<TocEntry>)
    requires Increasing(a) && Increasing(b)
    requires forall i, j :: 0 <= i < |a| && 0 <= j < |b| ==> a[i].page < b[j].page && a[i].link < b[j].link
    ensures Increasing(a + b)
  {
    forall i, j | 0 <= i < j < |a + b|
      ensures (a + b)[i].page < (a + b)[j].page && (a + b)[i].link < (a + b)[j].link
    {
      if j < |a| {
        assert (a + b)[i] == a[i] && (a + b)[j] == a[j];
      } else if i < |a| {
        assert (a + b)[i] == a[i] && (a + b)[j] == b[j - |a|];
      } else {
        assert (a + b)[i] == b[i - |a|] && (a + b)[j] == b[j - |a|];
      }
    }
  }

  /**
   * A contents line is the title (cut to 60 characters) and at least ten dots filling it to
   * column 70, after which the page number is written, and can be read back, in decimal.
   */
  lemma TocLineLayout(e: TocEntry)
    ensures var line, t := TocLine(e), Take(e.title, 60);
      && |line| > 70 && line[..|t|] == t && 70 - |t| >= 10
      && (forall k :: |t| <= k < 70 ==> line[k] == '.')
      && AllDigits(line[70..]) && ParseNat(line[70..]) == e.page
      && (|e.title| <= 60 ==> t == e.title)
  {
    var t := Take(e.title, 60);
    var dots := Repeat('.', 70 - |t|);
    var line := TocLine(e);
    assert line == (t + dots) + NatToString(e.page);
    assert |t + dots| == 70;
    assert line[70..] == NatToString(e.page);
    ParseNatToString(e.page);
    forall k | |t| <= k < 70 ensures line[k] == '.' {
      assert line[k] == dots[k - |t|];
    }
  }

  /** The whole contents: the posts' entries from page `start` on, then, past the divider page, the pages'. */
  function Contents(posts: seq<Entry>, pages: seq<Entry>, start: nat, postBreaks: seq<nat>, pageBreaks: seq<nat>)
    : seq<TocEntry>
    requires |postBreaks| == |posts| && |pageBreaks| == |pages|
  {
    Registered(posts, false, start, 1, postBreaks)
    + Registered(pages, true, start + Span(postBreaks) + 1, 1 + |posts|, pageBreaks)
  }

  /**
   * One entry per post, under its title, then one per page, under "Page: " and its title,
   * and nothing else: the "Pages" divider is not registered.
   */
  lemma ContentsTitles(posts: seq<Entry>, pages: seq<Entry>, start: nat, postBreaks: seq<nat>, pageBreaks: seq<nat>)
    requires |postBreaks| == |posts| && |pageBreaks| == |pages|
    ensures var toc := Contents(posts, pages, start, postBreaks, pageBreaks);
      && |toc| == |posts| + |pages|
      && (forall i :: 0 <= i < |posts| ==> toc[i].title == posts[i].title)
      && (forall i :: 0 <= i < |pages| ==> toc[|posts| + i].title == "Page: " + pages[i].title)
  {
    var a := Registered(posts, false, start, 1, postBreaks);
    var b := Registered(pages, true, start + Span(postBreaks) + 1, 1 + |posts|, pageBreaks);
    var toc := a + b;
    RegisteredShape(posts, false, start, 1, postBreaks);
    RegisteredShape(pages, true, start + Span(postBreaks) + 1, 1 + |posts|, pageBreaks);
    forall i | 0 <= i < |posts| ensures toc[i].title == posts[i].title {
      assert toc[i] == a[i];
    }
    forall i | 0 <= i < |pages| ensures toc[|posts| + i].title == "Page: " + pages[i].title {
      assert toc[|posts| + i] == b[i];
    }
  }

  /**
   * Pages and links strictly increase down the whole contents, and the divider page lies
   * between the last post's page and the first page's.
   */
  lemma ContentsOrder(posts: seq<Entry>, pages: seq<Entry>, start: nat, postBreaks: seq<nat>, pageBreaks: seq<nat>)
    requires |postBreaks| == |posts| && |pageBreaks| == |pages|
    ensures var toc := Contents(posts, pages, start, postBreaks, pageBreaks);
      && Increasing(toc)
      && (forall i, j :: 0 <= i < |posts| <= j < |toc| ==> toc[i].page + 1 < toc[j].page)
  {
    var a := Registered(posts, false, start, 1, postBreaks);
    var b := Registered(pages, true, start + Span(postBreaks) + 1, 1 + |posts|, pageBreaks);
    var toc := a + b;
    var pa := start + Span(postBreaks);
    RegisteredSpan(posts, false, start, 1, postBreaks);
    RegisteredSpan(pages, true, pa + 1, 1 + |posts|, pageBreaks);
    assert forall i :: 0 <= i < |a| ==> a[i].page <= pa && a[i].link < 1 + |posts|;
    assert forall j :: 0 <= j < |b| ==> pa + 1 < b[j].page && 1 + |posts| <= b[j].link;
    IncreasingConcat(a, b);
    forall i, j | 0 <= i < |posts| <= j < |toc| ensures toc[i].page + 1 < toc[j].page {
      assert toc[i] == a[i] && toc[j] == b[j - |posts|];
    }
  }

  /** Every entry points after the starting page, to no page past the last, and to a link already made. */
  lemma ContentsBounds(posts: seq<Entry>, pages: seq<Entry>, start: nat, postBreaks: seq<nat>, pageBreaks: seq<nat>)
    requires |postBreaks| == |posts| && |pageBreaks| == |pages|
    ensures var toc := Contents(posts, pages, start, postBreaks, pageBreaks);
      |toc| == |posts| + |pages| &&
      forall i :: 0 <= i < |toc| ==>
        start < toc[i].page <= start + Span(postBreaks) + 1 + Span(pageBreaks) && 1 <= toc[i].link <= |toc|
  {
    var a := Registered(posts, false, start, 1, postBreaks);
    var b := Registered(pages, true, start + Span(postBreaks) + 1, 1 + |posts|, pageBreaks);
    var toc := a + b;
    RegisteredSpan(posts, false, start, 1, postBreaks);
    RegisteredSpan(pages, true, start + Span(postBreaks) + 1, 1 + |posts|, pageBreaks);
    forall i | 0 <= i < |toc|
      ensures start < toc[i].page <= start + Span(postBreaks) + 1 + Span(pageBreaks) && 1 <= toc[i].link <= |toc|
    {
      if i < |posts| {
        assert toc[i] == a[i];
      } else {
        assert toc[i] == b[i - |posts|];
      }
    }
  }

  /**
   * The posts' entries registered on an empty contents, then the pages' entries, make the
   * whole contents, which fits the counters as they stand after the last page.
   */
  lemma ContentsValid(posts: seq<Entry>, pages: seq<Entry>, start: nat, postBreaks: seq<nat>, pageBreaks: seq<nat>)
    requires |postBreaks| == |posts| && |pageBreaks| == |pages|
    ensures ([] + Registered(posts, false, start, 1, postBreaks))
            + Registered(pages, true, start + Span(postBreaks) + 1, 1 + |posts|, pageBreaks)
         == Contents(posts, pages, start, postBreaks, pageBreaks)
    ensures Fits(Contents(posts, pages, start, postBreaks, pageBreaks),
                 start + Span(postBreaks) + 1 + Span(pageBreaks), 1 + |posts| + |pages|)
  {
    assert [] + Registered(posts, false, start, 1, postBreaks) == Registered(posts, false, start, 1, postBreaks);
    ContentsOrder(posts, pages, start, postBreaks, pageBreaks);
    ContentsBounds(posts, pages, start, postBreaks, pageBreaks);
  }

  /**
   * `create_pdf` up to the output, on the writer's side: the title page, the contents page
   * with the `reserved` pages its placeholder adds, the posts, the "Pages" divider page,
   * then the pages.
   */
  method CreatePdf(posts: seq<Entry>, pages: seq<Entry>, reserved: nat,
                   postBreaks: seq<nat>, pageBreaks: seq<nat>)
    returns (pdf: Pdf)
    requires |postBreaks| == |posts| && |pageBreaks| == |pages|
    ensures fresh(pdf)
    ensures pdf.toc == Contents(posts, pages, 2 + reserved, postBreaks, pageBreaks)
    ensures pdf.page == 3 + reserved + Span(postBreaks) + Span(pageBreaks)
    ensures pdf.Valid()
  {
    pdf := new Pdf();
    pdf.AddPage();
    pdf.AddPage();
    pdf.BreakPages(reserved);
    pdf.AddContent(posts, false, postBreaks);
    pdf.AddPage();
    pdf.AddContent(pages, true, pageBreaks);
    ContentsValid(posts, pages, 2 + reserved, postBreaks, pageBreaks);
  }
}
