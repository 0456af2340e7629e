/**
 * The item filter of `parse_wxr`: the export's authors and items, already read out of the
 * XML, become the author map and the two ordered lists of published posts and pages,
 * each carrying its approved comments.
 */
module Wxr {
  import opened Wrappers
  import opened Comments

  /** A `<wp:author>` entry: its login and display name. */
  datatype Author = Author(login: string, displayName: string)

  /** A `<wp:comment>`: author and body texts (None when empty), formatted date, approval flag. */
  datatype RawComment = RawComment(
    author: Option<string>, content: Option<string>, date: string, approved: Option<string>)

  /**
   * An `<item>`. Each Option field is None when the element is absent and otherwise
   * holds its text.
   */
  datatype RawItem = RawItem(
    title: Option<string>, postType: Option<string>, status: Option<string>,
    creator: Option<string>, content: Option<string>, comments: seq<RawComment>)

  datatype Kind = Post | Page

  /** The record handed to the PDF writer. */
  datatype Entry = Entry(title: string, author: string, content: string, kind: Kind, comments: seq<Comment>)

  const UnknownAuthor := "Unknown Author"

  // ------------------------------------------------------------------
  // Author map
  // ------------------------------------------------------------------

  /** The dictionary after every author was stored in order: a later login overwrites an earlier one. */
  function AuthorMapOf(authors: seq<Author>): map<string, string> {
    if authors == [] then map[]
    else
      var last := authors[|authors| - 1];
      AuthorMapOf(authors[..|authors| - 1])[last.login := last.displayName]
  }

  /** The author loop of `parse_wxr`. */
  method BuildAuthorMap(authors: seq<Author>) returns (m: map<string, string>)
    ensures m == AuthorMapOf(authors)
  {
    m := map[];
    for i := 0 to |authors|
      invariant m == AuthorMapOf(authors[..i])
    {
      assert authors[..i + 1][..i] == authors[..i];
      m := m[authors[i].login := authors[i].displayName];
    }
    assert authors[..|authors|] == authors;
  }

  /** `i` is the last author record with this login. */
  predicate LastWithLogin(authors: seq<Author>, login: string, i: int) {
    0 <= i < |authors| && authors[i].login == login
    && forall j :: i < j < |authors| ==> authors[j].login != login
  }

  /** A login is mapped exactly when some record has it, and then to its last record's display name. */
  lemma {:induction false} AuthorMapSpec(authors: seq<Author>, login: string)
    ensures login in AuthorMapOf(authors) <==> exists i :: 0 <= i < |authors| && authors[i].login == login
    ensures login in AuthorMapOf(authors) ==>
      exists i :: LastWithLogin(authors, login, i) && AuthorMapOf(authors)[login] == authors[i].displayName
  {
    if authors != [] {
      var n := |authors| - 1;
      var prefix := authors[..n];
      AuthorMapSpec(prefix, login);
      if authors[n].login == login {
        assert LastWithLogin(authors, login, n);
      } else if login in AuthorMapOf(prefix) {
        var i :| LastWithLogin(prefix, login, i) && AuthorMapOf(prefix)[login] == prefix[i].displayName;
        assert LastWithLogin(authors, login, i);
      } else {
        forall i | 0 <= i < |authors| ensures authors[i].login != login {
          if i < n {
            assert authors[i] == prefix[i];
          }
        }
      }
    }
  }

  /** `author_map.get(creator, 'Unknown Author')`, or the fallback when the item has no creator. */
  function ResolveAuthor(m: map<string, string>, creator: Option<string>): string {
    match creator
    case None => UnknownAuthor
    case Some(login) => if login in m then m[login] else UnknownAuthor
  }

  /** The item's author is its login's last display name, or "Unknown Author" when there is none. */
  lemma ResolveAuthorSpec(authors: seq<Author>, creator: Option<string>)
    ensures creator.Some? && (exists i :: 0 <= i < |authors| && authors[i].login == creator.value) ==>
      exists i :: LastWithLogin(authors, creator.value, i)
        && ResolveAuthor(AuthorMapOf(authors), creator) == authors[i].displayName
    ensures creator.None? || (forall i :: 0 <= i < |authors| ==> authors[i].login != creator.value) ==>
      ResolveAuthor(AuthorMapOf(authors), creator) == UnknownAuthor
  {
    if creator.Some? {
      AuthorMapSpec(authors, creator.value);
    }
  }

  // ------------------------------------------------------------------
  // Comments of one item
  // ------------------------------------------------------------------

  predicate Approved(c: RawComment) {
    c.approved == Some("1")
  }

  function ToComment(c: RawComment): Comment {
    Comment(c.author, c.content, c.date)
  }

  /** The approved comments, in document order. */
  function ApprovedComments(raw: seq<RawComment>): seq<Comment> {
    if raw == [] then []
    else
      var last := raw[|raw| - 1];
      ApprovedComments(raw[..|raw| - 1]) + (if Approved(last) then [ToComment(last)] else [])
  }

  /** The comment loop of `parse_wxr`: it appends each approved comment to the item's list. */
  method CollectComments(raw: seq<RawComment>) returns (cs: seq<Comment>)
    ensures cs == ApprovedComments(raw)
  {
    cs := [];
    for i := 0 to |raw|
      invariant cs == ApprovedComments(raw[..i])
    {
      assert raw[..i + 1][..i] == raw[..i];
      if raw[i].approved == Some("1") {
        cs := cs + [Comment(raw[i].author, raw[i].content, raw[i].date)];
      }
    }
    assert raw[..|raw|] == raw;
  }

  /** Comments of a document split in two are those of the first part, then those of the second. */
  lemma {:induction false} ApprovedAppend(a: seq<RawComment>, b: seq<RawComment>)
    ensures ApprovedComments(a + b) == ApprovedComments(a) + ApprovedComments(b)
    decreases |b|
  {
    if b == [] {
      assert a + b == a;
    } else {
      var b' := b[..|b| - 1];
      assert (a + b)[..|a + b| - 1] == a + b' && (a + b)[|a + b| - 1] == b[|b| - 1];
      ApprovedAppend(a, b');
    }
  }

  /** A comment is kept exactly when it comes from an approved one. */
  lemma {:induction false} ApprovedMember(raw: seq<RawComment>, c: Comment)
    ensures c in ApprovedComments(raw) <==>
      exists i :: 0 <= i < |raw| && Approved(raw[i]) && c == ToComment(raw[i])
  {
    if raw != [] {
      var n := |raw| - 1;
      ApprovedMember(raw[..n], c);
      if c in ApprovedComments(raw[..n]) {
        var i :| 0 <= i < n && Approved(raw[..n][i]) && c == ToComment(raw[..n][i]);
        assert raw[i] == raw[..n][i];
      }
      if exists i :: 0 <= i < |raw| && Approved(raw[i]) && c == ToComment(raw[i]) {
        var i :| 0 <= i < |raw| && Approved(raw[i]) && c == ToComment(raw[i]);
        if i < n {
          assert raw[..n][i] == raw[i];
        }
      }
    }
  }

  // ------------------------------------------------------------------
  // Items
  // ------------------------------------------------------------------

  /** The item has a type and a status, is a post or a page, and is published. */
  predicate Kept(it: RawItem) {
    it.postType.Some? && it.status.Some?
    && (it.postType.value == "post" || it.postType.value == "page")
    && it.status.value == "publish"
  }

  function KindOf(postType: string): Kind {
    if postType == "post" then Post else Page
  }

  predicate OfKind(it: RawItem, k: Kind) {
    Kept(it) && KindOf(it.postType.value) == k
  }

  /** The record built for a kept item, with its fallbacks for a missing title, creator or body. */
  function ToEntry(it: RawItem, m: map<string, string>): (e: Entry)
    requires Kept(it)
    ensures it.title.None? ==> e.title == "No Title"
    ensures it.content.None? ==> e.content == ""
  {
    Entry(it.title.GetOr("No Title"), ResolveAuthor(m, it.creator), it.content.GetOr(""),
          KindOf(it.postType.value), ApprovedComments(it.comments))
  }

  /** The kept items of kind `k`, as entries, in document order. */
  function Selected(items: seq<RawItem>, m: map<string, string>, k: Kind): seq<Entry> {
    if items == [] then []
    else
      var last := items[|items| - 1];
      Selected(items[..|items| - 1], m, k) + (if OfKind(last, k) then [ToEntry(last, m)] else [])
  }

  /** How many items the filter keeps. */
  function KeptCount(items: seq<RawItem>): nat {
    if items == [] then 0
    else KeptCount(items[..|items| - 1]) + (if Kept(items[|items| - 1]) then 1 else 0)
  }

  /** The whole item stage of `parse_wxr`: author map first, then every item in document order. */
  method ParseItems(authors: seq<Author>, items: seq<RawItem>) returns (posts: seq<Entry>, pages: seq<Entry>)
    ensures posts == Selected(items, AuthorMapOf(authors), Post)
    ensures pages == Selected(items, AuthorMapOf(authors), Page)
  {
    var authorMap := BuildAuthorMap(authors);
    posts, pages := [], [];
    for i := 0 to |items|
      invariant posts == Selected(items[..i], authorMap, Post)
      invariant pages == Selected(items[..i], authorMap, Page)
    {
      var item := items[i];
      assert items[..i + 1][..i] == items[..i];
      if item.postType.None? || item.status.None? {
        continue;
      }
      var postType := item.postType.value;
      if postType != "post" && postType != "page" {
        continue;
      }
      if item.status.value != "publish" {
        continue;
      }
      var title := item.title.GetOr("No Title");
      var author := ResolveAuthor(authorMap, item.creator);
      var content := item.content.GetOr("");
      var comments := CollectComments(item.comments);
      var entry := Entry(title, author, content, KindOf(postType), comments);
      if postType == "post" {
        posts := posts + [entry];
      } else if postType == "page" {
        pages := pages + [entry];
      }
    }
    assert items[..|items|] == items;
  }

  // ------------------------------------------------------------------
  // Properties of the partition
  // ------------------------------------------------------------------

  /** Every kept item lands in exactly one of the two lists. */
  lemma {:induction false} PartitionCount(items: seq<RawItem>, m: map<string, string>)
    ensures |Selected(items, m, Post)| + |Selected(items, m, Page)| == KeptCount(items)
  {
    if items != [] {
      PartitionCount(items[..|items| - 1], m);
    }
  }

  /** Entries of a document split in two are those of the first part, then those of the second. */
  lemma {:induction false} SelectedAppend(a: seq<RawItem>, b: seq<RawItem>, m: map<string, string>, k: Kind)
    ensures Selected(a + b, m, k) == Selected(a, m, k) + Selected(b, m, k)
    decreases |b|
  {
    if b == [] {
      assert a + b == a;
    } else {
      var b' := b[..|b| - 1];
      assert (a + b)[..|a + b| - 1] == a + b' && (a + b)[|a + b| - 1] == b[|b| - 1];
      SelectedAppend(a, b', m, k);
    }
  }

  /** An entry is listed exactly when it is built from a kept item of that kind. */
  lemma {:induction false} SelectedMember(items: seq<RawItem>, m: map<string, string>, k: Kind, e: Entry)
    ensures e in Selected(items, m, k) <==>
      exists i :: 0 <= i < |items| && OfKind(items[i], k) && e == ToEntry(items[i], m)
  {
    if items != [] {
      var n := |items| - 1;
      SelectedMember(items[..n], m, k, e);
      if e in Selected(items[..n], m, k) {
        var i :| 0 <= i < n && OfKind(items[..n][i], k) && e == ToEntry(items[..n][i], m);
        assert items[i] == items[..n][i];
      }
      if exists i :: 0 <= i < |items| && OfKind(items[i], k) && e == ToEntry(items[i], m) {
        var i :| 0 <= i < |items| && OfKind(items[i], k) && e == ToEntry(items[i], m);
        if i < n {
          assert items[..n][i] == items[i];
        }
      }
    }
  }

  /** The posts list holds only posts and the pages list only pages. */
  lemma {:induction false} SelectedKind(items: seq<RawItem>, m: map<string, string>, k: Kind)
    ensures forall j :: 0 <= j < |Selected(items, m, k)| ==> Selected(items, m, k)[j].kind == k
  {
    if items != [] {
      SelectedKind(items[..|items| - 1], m, k);
    }
  }
}
