/**
 * The comment renderer `preprocess_comments`: the HTML block appended to a post's body,
 * a count header and one `<div class="comment">` per approved comment, in order.
 */
module Comments {
  import opened Wrappers
  import opened Text

  /**
   * An approved comment as the item filter hands it over. Author and body are element
   * texts, which are None for an empty element; the date is already formatted.
   */
  datatype Comment = Comment(author: Option<string>, content: Option<string>, date: string)

  /** Python's `str(x)` (and f-string rendering) of an element text that may be None. */
  function PyStr(t: Option<string>): (r: string)
    ensures t.Some? ==> r == t.value
    ensures t.None? ==> r == "None"
  {
    match t
    case None => "None"
    case Some(s) => s
  }

  // ------------------------------------------------------------------
  // Tag stripping: `re.sub("<[^<]+?>", "", body)`. A tag is '<', at least
  // one character other than '<', then the first '>' that follows.
  // ------------------------------------------------------------------

  /** `s[..e + 1]` is matched by `<[^<]+?>` (ignoring laziness). */
  predicate IsTag(s: string, e: int) {
    2 <= e < |s| && s[0] == '<' && s[e] == '>' && forall k :: 1 <= k < e ==> s[k] != '<'
  }

  /** The first '>' at or after `j`, unless a '<' comes first. */
  function CloseFrom(s: string, j: nat): (e: Option<nat>)
    ensures e.Some? ==> j <= e.value < |s|
    decreases |s| - j
  {
    if j >= |s| then None
    else if s[j] == '>' then Some(j)
    else if s[j] == '<' then None
    else CloseFrom(s, j + 1)
  }

  /** Where the tag at the start of `s` ends, if one starts there. */
  function TagEnd(s: string): (e: Option<nat>)
    ensures e.Some? ==> e.value < |s|
  {
    if 2 <= |s| && s[0] == '<' && s[1] != '<' then CloseFrom(s, 2) else None
  }

  lemma {:induction false} CloseFromSpec(s: string, j: nat)
    ensures CloseFrom(s, j).Some? ==>
      var e := CloseFrom(s, j).value;
      s[e] == '>' && forall k :: j <= k < e ==> s[k] != '<' && s[k] != '>'
    ensures CloseFrom(s, j).None? ==>
      forall e :: j <= e < |s| && s[e] == '>' ==> exists k :: j <= k < e && s[k] == '<'
    decreases |s| - j
  {
    if j < |s| && s[j] != '>' && s[j] != '<' {
      CloseFromSpec(s, j + 1);
    }
  }

  /** The tag scanner finds the shortest tag at the start of `s`, and finds one whenever there is one. */
  lemma TagEndSpec(s: string)
    ensures TagEnd(s).Some? ==>
      IsTag(s, TagEnd(s).value) && forall e :: 0 <= e < TagEnd(s).value ==> !IsTag(s, e)
    ensures TagEnd(s).None? ==> forall e :: !IsTag(s, e)
  {
    if 2 <= |s| && s[0] == '<' && s[1] != '<' {
      CloseFromSpec(s, 2);
    }
  }

  /** The tag-stripped body: every leftmost shortest tag removed, everything else kept. */
  function StripTags(s: string): (r: string)
    ensures |r| <= |s|
    decreases |s|
  {
    if s == [] then []
    else match TagEnd(s)
      case Some(e) => StripTags(s[e + 1..])
      case None => [s[0]] + StripTags(s[1..])
  }

  /** Text before which no tag can start is kept as it is. */
  lemma {:induction false} StripTagsPlainPrefix(a: string, b: string)
    requires forall k :: 0 <= k < |a| ==> a[k] != '<'
    ensures StripTags(a + b) == a + StripTags(b)
  {
    if a != [] {
      assert (a + b)[0] == a[0] && TagEnd(a + b).None?;
      assert (a + b)[1..] == a[1..] + b;
      assert StripTags(a + b) == [a[0]] + StripTags(a[1..] + b);
      StripTagsPlainPrefix(a[1..], b);
      ConsConcat(a[0], a[1..], StripTags(b));
      assert a == [a[0]] + a[1..];
    } else {
      assert a + b == b;
    }
  }

  /** A body with no '<' appears verbatim. */
  lemma StripTagsNoOpen(s: string)
    requires forall k :: 0 <= k < |s| ==> s[k] != '<'
    ensures StripTags(s) == s
  {
    StripTagsPlainPrefix(s, []);
    assert s + [] == s;
  }

  /** A whole tag `<t>` is removed and scanning resumes right after it. */
  lemma StripTagsDropsTag(t: string, rest: string)
    requires t != []
    requires forall k :: 0 <= k < |t| ==> t[k] != '<' && t[k] != '>'
    ensures StripTags("<" + t + ">" + rest) == StripTags(rest)
  {
    var s := "<" + t + ">" + rest;
    var e := |t| + 1;
    assert s[e] == '>';
    forall k | 1 <= k < e ensures s[k] != '<' && s[k] != '>' {
      assert s[k] == t[k - 1];
    }
    assert IsTag(s, e);
    TagEndSpec(s);
    assert s[e + 1..] == rest;
  }

  /**
   * A tag needs a character between its brackets: `<>` is kept when no further '>'
   * can close it (the next character, if any, is a '<').
   */
  lemma StripTagsKeepsEmptyBrackets(rest: string)
    requires rest == [] || rest[0] == '<'
    ensures StripTags("<>" + rest) == "<>" + StripTags(rest)
  {
    var s := "<>" + rest;
    assert s[0] == '<' && s[1] == '>' && (|s| == 2 || s[2] == '<');
    assert TagEnd(s).None?;
    assert s[1..] == ">" + rest;
    assert StripTags(s) == "<" + StripTags(">" + rest);
    StripTagsPlainPrefix(">", rest);
    ConsConcat('<', ">", StripTags(rest));
    assert "<" + ">" == "<>";
  }

  // ------------------------------------------------------------------
  // Rendering
  // ------------------------------------------------------------------

  const FacebookLike := "liked this on Facebook."

  /** `re.search(r'liked this on Facebook\.', str(content))`. */
  predicate IsFacebookLike(c: Comment) {
    Contains(PyStr(c.content), FacebookLike)
  }

  const CommentOpen := "<div class=\"comment\"><p><strong>"
  const LikeTail := "</strong> give this a <strong>LIKE</strong> on Facebook!</p></div>"

  /** The `<div>` of an ordinary comment showing `body`. */
  function PlainComment(author: string, date: string, body: string): string {
    CommentOpen + author + "</strong> on " + date + ":</p>" + ("<p>" + body + "</p></div>")
  }

  /** One comment's `<div>`: the LIKE notice, or the author, date and tag-stripped body. */
  function RenderComment(c: Comment): string {
    if IsFacebookLike(c) then CommentOpen + PyStr(c.author) + LikeTail
    else PlainComment(PyStr(c.author), c.date, StripTags(PyStr(c.content)))
  }

  /** All comments rendered one after another, in list order. */
  function RenderAll(cs: seq<Comment>): string {
    if cs == [] then "" else RenderAll(cs[..|cs| - 1]) + RenderComment(cs[|cs| - 1])
  }

  function CommentsHeader(n: nat): string {
    "<h3>Comments (" + NatToString(n) + ")</h3>"
  }

  /** `preprocess_comments`: nothing for no comments, else the count header then every comment. */
  function CommentsHtml(cs: seq<Comment>): string {
    if |cs| == 0 then "" else CommentsHeader(|cs|) + RenderAll(cs)
  }

  /** The two pieces an ordinary comment is written in make up its `<div>`. */
  lemma PlainPieces(before: string, c: Comment, head: string, body: string)
    requires !IsFacebookLike(c)
    requires head == CommentOpen + PyStr(c.author) + "</strong> on " + c.date + ":</p>"
    requires body == "<p>" + StripTags(PyStr(c.content)) + "</p></div>"
    ensures (before + head) + body == before + RenderComment(c)
  {
    ConcatAssoc(before, head, body);
  }

  /** Appending the next comment's `<div>` extends the rendered prefix by one comment. */
  lemma RenderStep(comments: seq<Comment>, i: nat, before: string, after: string)
    requires i < |comments|
    requires before == CommentsHeader(|comments|) + RenderAll(comments[..i])
    requires after == before + RenderComment(comments[i])
    ensures after == CommentsHeader(|comments|) + RenderAll(comments[..i + 1])
  {
    RenderAllSnoc(comments, i);
    ConcatAssoc(CommentsHeader(|comments|), RenderAll(comments[..i]), RenderComment(comments[i]));
  }

  lemma RenderAllSnoc(comments: seq<Comment>, i: nat)
    requires i < |comments|
    ensures RenderAll(comments[..i + 1]) == RenderAll(comments[..i]) + RenderComment(comments[i])
  {
    assert comments[..i + 1][..i] == comments[..i];
  }

  /** The renderer as written: it grows the HTML one comment at a time. */
  method PreprocessComments(comments: seq<Comment>) returns (html: string)
    ensures html == CommentsHtml(comments)
  {
    html := CommentsHeader(|comments|);
    if |comments| == 0 {
      return "";
    }
    for i := 0 to |comments|
      invariant html == CommentsHeader(|comments|) + RenderAll(comments[..i])
    {
      var c := comments[i];
      ghost var before := html;
      if Contains(PyStr(c.content), FacebookLike) {
        html := html + (CommentOpen + PyStr(c.author) + LikeTail);
      } else {
        var head := CommentOpen + PyStr(c.author) + "</strong> on " + c.date + ":</p>";
        var body := "<p>" + StripTags(PyStr(c.content)) + "</p></div>";
        html := html + head;
        html := html + body;
        PlainPieces(before, c, head, body);
      }
      RenderStep(comments, i, before, html);
    }
    assert comments[..|comments|] == comments;
  }

  // ------------------------------------------------------------------
  // Properties
  // ------------------------------------------------------------------

  /** Rendering a list is rendering its parts one after the other: input order is kept. */
  lemma {:induction false} RenderAllAppend(a: seq<Comment>, b: seq<Comment>)
    ensures RenderAll(a + b) == RenderAll(a) + RenderAll(b)
    decreases |b|
  {
    if b == [] {
      assert a + b == a;
    } else {
      var b' := b[..|b| - 1];
      var last := b[|b| - 1];
      assert (a + b)[..|a + b| - 1] == a + b' && (a + b)[|a + b| - 1] == last;
      RenderAllAppend(a, b');
      ConcatAssoc(RenderAll(a), RenderAll(b'), RenderComment(last));
    }
  }

  /** One `<div class="comment">` per comment: a single comment renders as its own block. */
  lemma RenderAllOne(c: Comment)
    ensures RenderAll([c]) == RenderComment(c)
  {
    assert [c][..0] == [];
  }

  /** The block is empty exactly when there are no comments. */
  lemma CommentsEmpty(cs: seq<Comment>)
    ensures CommentsHtml(cs) == "" <==> cs == []
  {
    if cs != [] {
      assert |CommentsHeader(|cs|)| > 0;
    }
  }

  /** Comments added at the end are rendered after the earlier ones, under the new count. */
  lemma CommentsOrder(a: seq<Comment>, b: seq<Comment>)
    requires a + b != []
    ensures CommentsHtml(a + b) == CommentsHeader(|a| + |b|) + RenderAll(a) + RenderAll(b)
  {
    assert |a + b| == |a| + |b|;
    var h := CommentsHeader(|a| + |b|);
    var x, y, z := RenderAll(a + b), RenderAll(a), RenderAll(b);
    assert CommentsHtml(a + b) == h + x;
    RenderAllAppend(a, b);
    ConcatAssoc(h, y, z);
  }

  /** The LIKE notice shows only the author: neither the body nor the date reaches the output. */
  lemma LikeHidesBody(c: Comment, d: Comment)
    requires IsFacebookLike(c) && IsFacebookLike(d) && c.author == d.author
    ensures RenderComment(c) == RenderComment(d)
  {
  }

  /** A body that is not a LIKE and has no '<' is shown as it is, after the author and date. */
  lemma PlainBodyVerbatim(c: Comment, body: string)
    requires c.content == Some(body) && !Contains(body, FacebookLike)
    requires forall k :: 0 <= k < |body| ==> body[k] != '<'
    ensures RenderComment(c) == PlainComment(PyStr(c.author), c.date, body)
  {
    StripTagsNoOpen(body);
  }

  /** An empty comment element is rendered through `str(None)`: its body reads "None". */
  lemma EmptyBodyShowsNone(c: Comment)
    requires c.content.None?
    ensures RenderComment(c) == PlainComment(PyStr(c.author), c.date, "None")
  {
    assert !Contains("None", FacebookLike);
    StripTagsNoOpen("None");
  }
}
