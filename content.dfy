/**
 * The content normaliser: the three rewrites `preprocess_content` applies, in a fixed
 * order, to the HTML body of a post or page. Each fixed regular expression of the
 * converter is written out as a scanner with the same leftmost, non-overlapping,
 * non-greedy behaviour as Python's `re.sub`.
 */
module Content {
  import opened Wrappers
  import opened Text

  // ------------------------------------------------------------------
  // Lazy groups closed by literals. The caption pattern is a literal
  // followed by four groups `(.*?)`, each closed by a literal; a lazy group
  // stops at the first occurrence of its closing literal.
  // ------------------------------------------------------------------

  /**
   * Lazy groups from `from` on, group `i` closed by `lits[i]`: where each closing
   * literal starts, or None when one of them does not occur.
   */
  function LazyGroups(s: string, from: nat, lits: seq<string>): Option<seq<nat>>
    decreases |lits|
  {
    if lits == [] then Some([])
    else match FindFrom(s, lits[0], from)
      case None => None
      case Some(b) =>
        match LazyGroups(s, b + |lits[0]|, lits[1..])
        case None => None
        case Some(bs) => Some([b] + bs)
  }

  /**
   * Literal `lits[i]` occurs at `bs[i]`, at or after the end of the previous literal
   * (or `from`): the places the groups can end at in any of the pattern's backtracking choices.
   */
  predicate Placed(s: string, from: nat, lits: seq<string>, bs: seq<nat>)
    decreases |lits|
  {
    && |bs| == |lits| && from <= |s|
    && (lits != [] ==>
          && from <= bs[0] && OccursAt(s, lits[0], bs[0])
          && Placed(s, bs[0] + |lits[0]|, lits[1..], bs[1..]))
  }

  /** No group contains an occurrence of the literal that closes it. */
  predicate Earliest(s: string, from: nat, lits: seq<string>, bs: seq<nat>)
    requires |bs| == |lits|
    decreases |lits|
  {
    lits != [] ==>
      && (forall k :: from <= k < bs[0] ==> !OccursAt(s, lits[0], k))
      && Earliest(s, bs[0] + |lits[0]|, lits[1..], bs[1..])
  }

  /** Where the last literal ends. */
  function End(from: nat, lits: seq<string>, bs: seq<nat>): nat
    requires |bs| == |lits|
    decreases |lits|
  {
    if lits == [] then from else End(bs[0] + |lits[0]|, lits[1..], bs[1..])
  }

  /** The text of each group. */
  function GroupsOf(s: string, from: nat, lits: seq<string>, bs: seq<nat>): (g: seq<string>)
    requires Placed(s, from, lits, bs)
    ensures |g| == |lits|
    decreases |lits|
  {
    if lits == [] then []
    else [s[from..bs[0]]] + GroupsOf(s, bs[0] + |lits[0]|, lits[1..], bs[1..])
  }

  /** Each group followed by its closing literal. */
  function Weave(groups: seq<string>, lits: seq<string>): string
    requires |groups| == |lits|
    decreases |lits|
  {
    if lits == [] then [] else groups[0] + (lits[0] + Weave(groups[1..], lits[1..]))
  }

  /** What the scanner reports is placed, each group ending at the first occurrence of its literal. */
  lemma {:induction false} LazyGroupsSound(s: string, from: nat, lits: seq<string>)
    requires from <= |s| && LazyGroups(s, from, lits).Some?
    ensures Placed(s, from, lits, LazyGroups(s, from, lits).value)
    ensures Earliest(s, from, lits, LazyGroups(s, from, lits).value)
    decreases |lits|
  {
    if lits != [] {
      var b := FindFrom(s, lits[0], from).value;
      FindFromFound(s, lits[0], from);
      FindFromFirst(s, lits[0], from);
      LazyGroupsSound(s, b + |lits[0]|, lits[1..]);
      var bs := LazyGroups(s, from, lits).value;
      assert bs[0] == b && bs[1..] == LazyGroups(s, b + |lits[0]|, lits[1..]).value;
    }
  }

  /** Conversely the placement with the earliest literals is what the scanner reports. */
  lemma {:induction false} LazyGroupsFound(s: string, from: nat, lits: seq<string>, bs: seq<nat>)
    requires Placed(s, from, lits, bs) && Earliest(s, from, lits, bs)
    ensures LazyGroups(s, from, lits) == Some(bs)
    decreases |lits|
  {
    if lits != [] {
      FindFromAt(s, lits[0], from, bs[0]);
      LazyGroupsFound(s, bs[0] + |lits[0]|, lits[1..], bs[1..]);
      assert bs == [bs[0]] + bs[1..];
    }
  }

  /**
   * Whenever the pattern can match in any way, the scanner finds a match: an earlier
   * occurrence of a literal leaves at least as much room for the groups after it.
   */
  lemma {:induction false} LazyGroupsComplete(s: string, from: nat, lits: seq<string>, bs: seq<nat>)
    requires Placed(s, from, lits, bs)
    ensures LazyGroups(s, from, lits).Some?
    decreases |lits|
  {
    if lits != [] {
      FindFromBefore(s, lits[0], from, bs[0]);
      var b := FindFrom(s, lits[0], from).value;
      assert Placed(s, b + |lits[0]|, lits[1..], bs[1..]);
      LazyGroupsComplete(s, b + |lits[0]|, lits[1..], bs[1..]);
    }
  }

  /** A placement spans the groups and literals it places, in order. */
  lemma {:induction false} PlacedText(s: string, from: nat, lits: seq<string>, bs: seq<nat>)
    requires Placed(s, from, lits, bs)
    ensures from <= End(from, lits, bs) <= |s|
    ensures s[from..End(from, lits, bs)] == Weave(GroupsOf(s, from, lits, bs), lits)
    decreases |lits|
  {
    if lits != [] {
      var b, l := bs[0], lits[0];
      var next := b + |l|;
      var e := End(from, lits, bs);
      var g := GroupsOf(s, from, lits, bs);
      PlacedText(s, next, lits[1..], bs[1..]);
      var w := Weave(GroupsOf(s, next, lits[1..], bs[1..]), lits[1..]);
      assert g[0] == s[from..b] && g[1..] == GroupsOf(s, next, lits[1..], bs[1..]);
      OccursAtSlice(s, l, b);
      SliceConcat(s, b, next, e, l, w);
      SliceConcat(s, from, b, e, s[from..b], l + w);
    }
  }

  /** Peels the first piece `x` off the text that starts at `base`. */
  lemma Peel(s: string, base: nat, x: string, y: string, rest: string)
    requires base <= |s| && s[base..] == (x + y) + rest
    ensures base + |x| <= |s| && s[base..base + |x|] == x && s[base + |x|..] == y + rest
  {
    assert (x + y) + rest == x + (y + rest);
    assert s[base..base + |x|] == s[base..][..|x|];
  }

  /** A group `x` free of an earlier occurrence of the literal `sep` after it holds no occurrence of `sep`. */
  lemma GroupFreeOfLiteral(s: string, base: nat, x: string, sep: string)
    requires base + |x| + |sep| <= |s| && s[base..base + |x| + |sep|] == x + sep
    requires EndsAtSeparator(x, sep)
    ensures forall k :: base <= k < base + |x| ==> !OccursAt(s, sep, k)
  {
    forall k | base <= k < base + |x| ensures !OccursAt(s, sep, k) {
      if OccursAt(s, sep, k) {
        OccursInSlice(s, sep, base, base + |x| + |sep|, k);
      }
    }
  }

  /** Where the literals start when `groups` are written out with them from `from` on. */
  function WeaveBounds(from: nat, groups: seq<string>, lits: seq<string>): (bs: seq<nat>)
    requires |groups| == |lits|
    ensures |bs| == |lits|
    decreases |lits|
  {
    if lits == [] then []
    else [from + |groups[0]|] + WeaveBounds(from + |groups[0]| + |lits[0]|, groups[1..], lits[1..])
  }

  /** Groups written out with their literals are placed where `WeaveBounds` says, and read back. */
  lemma {:induction false} WeavePlaced(s: string, from: nat, groups: seq<string>, lits: seq<string>, rest: string)
    requires |groups| == |lits| && from <= |s| && s[from..] == Weave(groups, lits) + rest
    ensures var bs := WeaveBounds(from, groups, lits);
      && Placed(s, from, lits, bs) && GroupsOf(s, from, lits, bs) == groups
      && End(from, lits, bs) == from + |Weave(groups, lits)|
    decreases |lits|
  {
    if lits != [] {
      var g, l := groups[0], lits[0];
      var w := Weave(groups[1..], lits[1..]);
      var b := from + |g|;
      Peel(s, from, g, l + w, rest);
      Peel(s, b, l, w, rest);
      OccursAtSlice(s, l, b);
      WeavePlaced(s, b + |l|, groups[1..], lits[1..], rest);
      var bs := WeaveBounds(from, groups, lits);
      var bs' := WeaveBounds(b + |l|, groups[1..], lits[1..]);
      assert bs[0] == b && bs[1..] == bs';
      assert Placed(s, from, lits, bs);
      assert GroupsOf(s, from, lits, bs) == [g] + GroupsOf(s, b + |l|, lits[1..], bs');
      assert groups == [g] + groups[1..];
      assert End(from, lits, bs) == End(b + |l|, lits[1..], bs');
      assert |Weave(groups, lits)| == |g| + |l| + |w|;
    }
  }

  /** ... and when no group holds an earlier occurrence of its literal, that placement is the earliest. */
  lemma {:induction false} WeaveEarliest(s: string, from: nat, groups: seq<string>, lits: seq<string>, rest: string)
    requires |groups| == |lits| && from <= |s| && s[from..] == Weave(groups, lits) + rest
    requires forall i :: 0 <= i < |lits| ==> EndsAtSeparator(groups[i], lits[i])
    ensures Earliest(s, from, lits, WeaveBounds(from, groups, lits))
    decreases |lits|
  {
    if lits != [] {
      var g, l := groups[0], lits[0];
      var w := Weave(groups[1..], lits[1..]);
      var b := from + |g|;
      Peel(s, from, g, l + w, rest);
      Peel(s, b, l, w, rest);
      SliceConcat(s, from, b, b + |l|, g, l);
      assert EndsAtSeparator(g, l);
      GroupFreeOfLiteral(s, from, g, l);
      forall i | 0 <= i < |lits| - 1 ensures EndsAtSeparator(groups[1..][i], lits[1..][i]) {
        assert groups[1..][i] == groups[i + 1] && lits[1..][i] == lits[i + 1];
      }
      WeaveEarliest(s, b + |l|, groups[1..], lits[1..], rest);
    }
  }

  /**
   * Groups written out with their literals, none holding an earlier occurrence of the
   * literal that closes it, are exactly what the scanner finds again.
   */
  lemma WeaveFound(s: string, from: nat, groups: seq<string>, lits: seq<string>, rest: string)
    requires |groups| == |lits| && from <= |s| && s[from..] == Weave(groups, lits) + rest
    requires forall i :: 0 <= i < |lits| ==> EndsAtSeparator(groups[i], lits[i])
    ensures LazyGroups(s, from, lits) == Some(WeaveBounds(from, groups, lits))
    ensures var bs := WeaveBounds(from, groups, lits);
      && Placed(s, from, lits, bs) && GroupsOf(s, from, lits, bs) == groups
      && End(from, lits, bs) == from + |Weave(groups, lits)|
  {
    WeavePlaced(s, from, groups, lits, rest);
    WeaveEarliest(s, from, groups, lits, rest);
    LazyGroupsFound(s, from, lits, WeaveBounds(from, groups, lits));
  }

  // ------------------------------------------------------------------
  // Caption shortcodes:
  //   \[caption id="(.*?)" align="(.*?)" width="(.*?)"\](.*?)\[\/caption\]   (DOTALL)
  // ------------------------------------------------------------------

  const CaptionOpen := "[caption id=\""
  /** The literals closing the `id`, `align`, `width` and inner groups. */
  const CaptionCloses: seq<string> := ["\" align=\"", "\" width=\"", "\"]", "[/caption]"]

  /** The four groups of a caption shortcode. */
  datatype Shortcode = Shortcode(id: string, align: string, width: string, inner: string) {
    function Fields(): seq<string> {
      [id, align, width, inner]
    }
  }

  function ShortcodeOf(g: seq<string>): Shortcode
    requires |g| == 4
  {
    Shortcode(g[0], g[1], g[2], g[3])
  }

  /** The shortcode text whose groups are `m` (the regex's `match.group(0)`). */
  function ShortcodeText(m: Shortcode): string {
    CaptionOpen + Weave(m.Fields(), CaptionCloses)
  }

  /** The caption pattern matched at `p`: the literal opening, then the four lazy groups. */
  function MatchCaptionAt(s: string, p: nat): Option<seq<nat>> {
    if OccursAt(s, CaptionOpen, p) then LazyGroups(s, p + |CaptionOpen|, CaptionCloses) else None
  }

  /**
   * Where `$` first matches at or after `from`: just before a final newline if there is
   * one at or after `from`, otherwise at the end of `t`.
   */
  function EndAnchor(t: string, from: nat): (e: nat)
    requires from <= |t|
    ensures from <= e <= |t|
  {
    if from < |t| && t[|t| - 1] == '\n' then |t| - 1 else |t|
  }

  /** In a stripped text `$` matches only at the very end. */
  lemma EndAnchorStripped(x: string, from: nat)
    requires from <= |Strip(x)|
    ensures EndAnchor(Strip(x), from) == |Strip(x)|
  {
    var t := Strip(x);
    assert IsSpace('\n');
  }

  /**
   * `re.match(r'(<img.*?\/>)(.*?)$', t, re.DOTALL)`: the image tag up to the first `/>`
   * after `<img`, and the caption text after it up to where `$` matches.
   */
  function SplitImage(t: string): Option<(string, string)> {
    if !StartsWith(t, "<img") then None
    else
      match FindFrom(t, "/>", 4)
      case None => None
      case Some(j) =>
        FindFromFound(t, "/>", 4);
        var e := EndAnchor(t, j + 2);
        Some((t[..j + 2], t[j + 2..e]))
  }

  /**
   * The split succeeds exactly when `t` begins with `<img` and has a `/>` after that; the
   * image tag then ends at the first such `/>`, and the caption runs from there to the
   * end of `t`, stopping before a final newline when one follows the tag.
   */
  lemma SplitImageSpec(t: string)
    ensures var r := SplitImage(t);
      && (r.Some? ==>
        && StartsWith(t, "<img") && |r.value.0| >= 6
        && OccursAt(r.value.0, "/>", |r.value.0| - 2)
        && (forall k :: 4 <= k < |r.value.0| - 2 ==> !OccursAt(t, "/>", k))
        && (t == r.value.0 + r.value.1 || t == r.value.0 + r.value.1 + "\n")
        && (|t| > |r.value.0| && t[|t| - 1] == '\n' ==> t == r.value.0 + r.value.1 + "\n"))
      && (r.None? <==> !StartsWith(t, "<img") || forall k :: 4 <= k ==> !OccursAt(t, "/>", k))
  {
    if StartsWith(t, "<img") {
      FindFromSpec(t, "/>", 4);
      if FindFrom(t, "/>", 4).Some? {
        var j := FindFrom(t, "/>", 4).value;
        var e := EndAnchor(t, j + 2);
        var img, caption := t[..j + 2], t[j + 2..e];
        assert SplitImage(t) == Some((img, caption)) && |img| == j + 2;
        assert img + caption == t[..e];
        assert img[j] == t[j] && img[j + 1] == t[j + 1];
        assert e < |t| ==> t == t[..e] + "\n";
        assert |t| > j + 2 && t[|t| - 1] == '\n' ==> e == |t| - 1;
      }
    }
  }

  /** The HTML that replaces a caption shortcode whose inner block is an image and a caption. */
  function Figure(id: string, align: string, width: string, img: string, caption: string): string {
    "<figure id=\"" + id + "\" class=\"" + align + "\" style=\"width:" + width + "px\">\n"
    + "  " + img + "\n"
    + "  <figcaption>" + caption + "</figcaption>\n"
    + "</figure>\n"
  }

  /**
   * A figure whose fields hold no `[` contains no shortcode opener, so a second caption pass
   * copies it as it is and rewrites only what follows.
   */
  lemma FigurePassesThrough(id: string, align: string, width: string, img: string, caption: string, rest: string)
    requires '[' !in id && '[' !in align && '[' !in width && '[' !in img && '[' !in caption
    ensures var f := Figure(id, align, width, img, caption);
      ReplaceCaptions(f + rest) == f + ReplaceCaptions(rest)
  {
    var f := Figure(id, align, width, img, caption);
    assert '[' !in f;
    forall i | 0 <= i < |f| ensures !OccursAt(f + rest, CaptionOpen, i) {
      assert (f + rest)[i] == f[i] != CaptionOpen[0];
    }
    CaptionsCopyPrefix(f, rest);
  }

  /** `replace_caption`: a figure when the stripped inner block is `<img .../>` then text, else the shortcode unchanged. */
  function ExpandShortcode(m: Shortcode): string {
    match SplitImage(Strip(m.inner))
    case Some((img, caption)) => Figure(m.id, m.align, m.width, Strip(img), Strip(caption))
    case None => ShortcodeText(m)
  }


  /** `replace_shortcode_captions`: every caption shortcode, leftmost first, expanded. */
  function ReplaceCaptions(s: string): string
    decreases |s|
  {
    if s == [] then []
    else match MatchCaptionAt(s, 0)
      case Some(bs) =>
        LazyGroupsSound(s, |CaptionOpen|, CaptionCloses);
        PlacedText(s, |CaptionOpen|, CaptionCloses, bs);
        var g := GroupsOf(s, |CaptionOpen|, CaptionCloses, bs);
        ExpandShortcode(ShortcodeOf(g)) + ReplaceCaptions(s[End(|CaptionOpen|, CaptionCloses, bs)..])
      case None => [s[0]] + ReplaceCaptions(s[1..])
  }

  /** Where no shortcode starts, the first character is copied and the scan moves on. */
  lemma CaptionsCopyFirst(s: string)
    requires s != [] && !OccursAt(s, CaptionOpen, 0)
    ensures ReplaceCaptions(s) == [s[0]] + ReplaceCaptions(s[1..])
  {
    assert MatchCaptionAt(s, 0).None?;
  }

  /** Text in which the caption pattern matches nowhere comes back unchanged. */
  lemma {:induction false} CaptionsWithoutMatch(s: string)
    requires forall i :: 0 <= i < |s| ==> MatchCaptionAt(s[i..], 0).None?
    ensures ReplaceCaptions(s) == s
    decreases |s|
  {
    if s != [] {
      assert s[0..] == s;
      assert ReplaceCaptions(s) == [s[0]] + ReplaceCaptions(s[1..]);
      forall i | 0 <= i < |s[1..]| ensures MatchCaptionAt(s[1..][i..], 0).None? {
        assert s[1..][i..] == s[i + 1..];
      }
      CaptionsWithoutMatch(s[1..]);
      assert [s[0]] + s[1..] == s;
    }
  }

  /** Text with no `[caption id="` in it comes back unchanged. */
  lemma {:induction false} CaptionsWithoutShortcode(s: string)
    requires !Contains(s, CaptionOpen)
    ensures ReplaceCaptions(s) == s
    decreases |s|
  {
    if s != [] {
      assert !OccursAt(s, CaptionOpen, 0);
      CaptionsCopyFirst(s);
      assert !Contains(s[1..], CaptionOpen) by {
        forall i | 0 <= i <= |s[1..]| - |CaptionOpen| ensures !OccursAt(s[1..], CaptionOpen, i) {
          OccursShift(s, CaptionOpen, i);
        }
      }
      CaptionsWithoutShortcode(s[1..]);
      calc {
        ReplaceCaptions(s);
        [s[0]] + ReplaceCaptions(s[1..]);
        [s[0]] + s[1..];
        s;
      }
    }
  }

  /** A prefix in which no shortcode starts is copied as it is. */
  lemma {:induction false} CaptionsCopyPrefix(a: string, b: string)
    requires forall i :: 0 <= i < |a| ==> !OccursAt(a + b, CaptionOpen, i)
    ensures ReplaceCaptions(a + b) == a + ReplaceCaptions(b)
    decreases |a|
  {
    if a == [] {
      assert a + b == b;
    } else {
      var s := a + b;
      assert !OccursAt(s, CaptionOpen, 0);
      CaptionsCopyFirst(s);
      var a' := a[1..];
      assert s[1..] == a' + b;
      forall i | 0 <= i < |a'| ensures !OccursAt(a' + b, CaptionOpen, i) {
        OccursShift(s, CaptionOpen, i);
      }
      CaptionsCopyPrefix(a', b);
      calc {
        ReplaceCaptions(s);
        [s[0]] + ReplaceCaptions(a' + b);
        [a[0]] + (a' + ReplaceCaptions(b));
        { ConsConcat(a[0], a', ReplaceCaptions(b)); }
        ([a[0]] + a') + ReplaceCaptions(b);
        { assert a == [a[0]] + a'; }
        a + ReplaceCaptions(b);
      }
    }
  }

  /**
   * A shortcode at the front of the text, each group free of an earlier occurrence of
   * the literal closing it, is expanded and the scan goes on after `[/caption]`.
   */
  lemma CaptionsExpand(m: Shortcode, rest: string)
    requires forall i :: 0 <= i < 4 ==> EndsAtSeparator(m.Fields()[i], CaptionCloses[i])
    ensures ReplaceCaptions(ShortcodeText(m) + rest) == ExpandShortcode(m) + ReplaceCaptions(rest)
  {
    var s := ShortcodeText(m) + rest;
    var o := |CaptionOpen|;
    var w := Weave(m.Fields(), CaptionCloses);
    assert s == CaptionOpen + (w + rest);
    assert s[..o] == CaptionOpen;
    OccursAtSlice(s, CaptionOpen, 0);
    assert s[o..] == w + rest;
    WeaveFound(s, o, m.Fields(), CaptionCloses, rest);
    var bs := WeaveBounds(o, m.Fields(), CaptionCloses);
    assert ShortcodeOf(GroupsOf(s, o, CaptionCloses, bs)) == m;
    assert s[End(o, CaptionCloses, bs)..] == rest;
  }

  /**
   * An inner block that, once stripped, does not begin with `<img` or has no `/>` after it
   * leaves the shortcode text as it was.
   */
  lemma UnfitShortcodeKept(m: Shortcode)
    requires !StartsWith(Strip(m.inner), "<img") || forall k :: 4 <= k ==> !OccursAt(Strip(m.inner), "/>", k)
    ensures ExpandShortcode(m) == ShortcodeText(m)
  {
    SplitImageSpec(Strip(m.inner));
  }

  /** An `<img` tag that ends at the first `/>` after `<img`. */
  predicate ImageTag(img: string) {
    StartsWith(img, "<img") && FindFrom(img, "/>", 4) == Some(|img| - 2)
  }

  /**
   * An image tag that ends at its first `/>` (after `<img`), followed by a caption that does
   * not end in a newline, splits into that tag and that caption.
   */
  lemma ImageSplit(img: string, caption: string)
    requires ImageTag(img)
    requires caption == [] || caption[|caption| - 1] != '\n'
    ensures SplitImage(img + caption) == Some((img, caption))
  {
    FindFromSpec(img, "/>", 4);
    var t := img + caption;
    var j := |img| - 2;
    assert t[..4] == img[..4];
    assert OccursAt(t, "/>", j) by {
      assert t[j] == img[j] && t[j + 1] == img[j + 1];
    }
    assert t[0..|img|] == img;
    forall k | 4 <= k < j ensures !OccursAt(t, "/>", k) {
      if OccursAt(t, "/>", k) {
        OccursInSlice(t, "/>", 0, |img|, k);
      }
    }
    FindFromAt(t, "/>", 4, j);
    assert t[..j + 2] == img;
    assert t[j + 2..|t|] == caption;
  }

  /**
   * A shortcode whose inner block, once stripped, is an image tag followed by a caption
   * becomes a figure with that tag and that caption.
   */
  lemma FitShortcodeFigure(m: Shortcode, img: string, caption: string)
    requires Strip(m.inner) == img + caption && ImageTag(img)
    ensures ExpandShortcode(m) == Figure(m.id, m.align, m.width, img, Strip(caption))
  {
    ImageTagEnds(img);
    var t := Strip(m.inner);
    if caption != [] {
      assert t[|t| - 1] == caption[|caption| - 1];
    }
    TagCaptionTrimmed(img, caption);
    ImageSplit(img, caption);
  }

  /** An image tag runs from `<` to `>`. */
  lemma ImageTagEnds(img: string)
    requires ImageTag(img)
    ensures |img| >= 6 && img[0] == '<' && img[|img| - 1] == '>'
  {
    FindFromFound(img, "/>", 4);
    assert img[0] == "<img"[0] && img[|img| - 2 + 1] == "/>"[1];
  }

  /** A tag followed by a caption that does not end in whitespace is left alone by `strip`. */
  lemma TagCaptionTrimmed(img: string, caption: string)
    requires img != [] && img[0] == '<' && img[|img| - 1] == '>'
    requires caption == [] || !IsSpace(caption[|caption| - 1])
    ensures Strip(img + caption) == img + caption && Strip(img) == img
    ensures caption == [] || caption[|caption| - 1] != '\n'
  {
    StripTrimmed(img);
    StripTrimmedConcat(img, caption);
    assert IsSpace('\n');
  }

  // ------------------------------------------------------------------
  // Upload URLs:  re.sub(re.escape(url) + '/?wp-content/uploads/', './content/', content)
  // ------------------------------------------------------------------

  const Uploads := "wp-content/uploads/"
  const LocalContent := "./content/"

  /** Length of the match of `url/?wp-content/uploads/` at `i` (the `/` taken greedily), 0 when none. */
  function UploadMatch(s: string, url: string, i: nat): (n: nat)
    ensures n > 0 ==> |url| + |Uploads| <= n && i + n <= |s|
  {
    if OccursAt(s, url + "/" + Uploads, i) then |url| + 1 + |Uploads|
    else if OccursAt(s, url + Uploads, i) then |url| + |Uploads|
    else 0
  }

  /** An upload match begins with the site URL. */
  lemma UploadMatchAtSite(s: string, url: string, i: nat)
    requires UploadMatch(s, url, i) > 0
    ensures OccursAt(s, url, i)
  {
    if OccursAt(s, url + "/" + Uploads, i) {
      assert url + "/" + Uploads == url + ("/" + Uploads);
      OccursPrefixOf(s, url, "/" + Uploads, i);
    } else {
      OccursPrefixOf(s, url, Uploads, i);
    }
  }

  /** `replace_urls`: every leftmost, non-overlapping upload prefix of the site becomes `./content/`. */
  function ReplaceUrls(s: string, url: string): string
    decreases |s|
  {
    if s == [] then []
    else
      var n := UploadMatch(s, url, 0);
      if n > 0 then LocalContent + ReplaceUrls(s[n..], url)
      else [s[0]] + ReplaceUrls(s[1..], url)
  }

  /** Text that never mentions the site URL comes back unchanged. */
  lemma {:induction false} UrlsWithoutSite(s: string, url: string)
    requires !Contains(s, url)
    ensures ReplaceUrls(s, url) == s
    decreases |s|
  {
    if s != [] {
      assert !OccursAt(s, url, 0);
      if UploadMatch(s, url, 0) > 0 {
        UploadMatchAtSite(s, url, 0);
      }
      assert !Contains(s[1..], url) by {
        forall i | 0 <= i <= |s[1..]| - |url| ensures !OccursAt(s[1..], url, i) {
          OccursShift(s, url, i);
        }
      }
      UrlsWithoutSite(s[1..], url);
    }
  }

  /** A prefix in which no upload URL starts is copied as it is. */
  lemma {:induction false} UrlsCopyPrefix(a: string, b: string, url: string)
    requires forall i :: 0 <= i < |a| ==> UploadMatch(a + b, url, i) == 0
    ensures ReplaceUrls(a + b, url) == a + ReplaceUrls(b, url)
    decreases |a|
  {
    if a != [] {
      var s := a + b;
      assert UploadMatch(s, url, 0) == 0;
      assert ReplaceUrls(s, url) == [s[0]] + ReplaceUrls(s[1..], url);
      assert s[1..] == a[1..] + b;
      forall i | 0 <= i < |a[1..]| ensures UploadMatch(a[1..] + b, url, i) == 0 {
        assert UploadMatch(s, url, i + 1) == 0;
        OccursShift(s, url + "/" + Uploads, i);
        OccursShift(s, url + Uploads, i);
      }
      UrlsCopyPrefix(a[1..], b, url);
      calc {
        ReplaceUrls(s, url);
        [a[0]] + (a[1..] + ReplaceUrls(b, url));
        { ConsConcat(a[0], a[1..], ReplaceUrls(b, url)); }
        ([a[0]] + a[1..]) + ReplaceUrls(b, url);
        { assert a == [a[0]] + a[1..]; }
        a + ReplaceUrls(b, url);
      }
    } else {
      assert a + b == b;
    }
  }

  /** An upload URL at the front, with or without the slash, becomes `./content/`. */
  lemma UrlsRewriteUpload(url: string, slash: string, rest: string)
    requires slash == "" || slash == "/"
    ensures ReplaceUrls(url + slash + Uploads + rest, url) == LocalContent + ReplaceUrls(rest, url)
  {
    var s := url + slash + Uploads + rest;
    var n := |url| + |slash| + |Uploads|;
    assert s[..n] == url + slash + Uploads;
    OccursAtSlice(s, url + slash + Uploads, 0);
    if slash == "" {
      assert s[|url|] == 'w' && (url + "/" + Uploads)[|url|] == '/';
      assert url + slash + Uploads == url + Uploads;
    }
    assert UploadMatch(s, url, 0) == n;
    assert s[n..] == rest;
  }

  predicate IsUrlChar(c: char) {
    ('A' <= c <= 'Z') || ('a' <= c <= 'z') || ('0' <= c <= '9') || c == '/' || c == '-'
  }

  /** Length of the longest prefix of `s` made of `[A-Za-z0-9/-]`. */
  function UrlRun(s: string): (n: nat)
    ensures n <= |s| && (forall k :: 0 <= k < n ==> IsUrlChar(s[k]))
    ensures n == |s| || !IsUrlChar(s[n])
  {
    if s != [] && IsUrlChar(s[0]) then 1 + UrlRun(s[1..]) else 0
  }

  /**
   * The diagnostic search `re.search(re.escape(url) + '/?[A-Za-z0-9/-]*', text)`: the first
   * mention of the site URL with the path characters after it. It is only reported.
   */
  function FoundUrl(s: string, url: string): Option<string> {
    match FindFrom(s, url, 0)
    case None => None
    case Some(i) =>
      FindFromFound(s, url, 0);
      Some(s[i..i + |url| + UrlRun(s[i + |url|..])])
  }

  /**
   * `r` is what the search reports at `i`: the first mention of `url` starts at `i`, and `r`
   * is that mention with every path character after it, up to the first that is not one.
   */
  predicate MentionAt(s: string, url: string, i: nat, r: string) {
    && (forall k :: 0 <= k < i ==> !OccursAt(s, url, k))
    && OccursAt(s, r, i) && StartsWith(r, url)
    && (forall k :: |url| <= k < |r| ==> IsUrlChar(r[k]))
    && (i + |r| == |s| || !IsUrlChar(s[i + |r|]))
  }

  /** The search finds nothing exactly when the site URL is never mentioned, else the first mention. */
  lemma FoundUrlSpec(s: string, url: string)
    ensures FoundUrl(s, url).None? <==> !Contains(s, url)
    ensures FoundUrl(s, url).Some? ==> exists i :: MentionAt(s, url, i, FoundUrl(s, url).value)
  {
    FindFromSpec(s, url, 0);
    if FindFrom(s, url, 0).Some? {
      var i := FindFrom(s, url, 0).value;
      var t := s[i + |url|..];
      var n := UrlRun(t);
      var r := s[i..i + |url| + n];
      assert r == FoundUrl(s, url).value;
      OccursAtSlice(s, r, i);
      OccursAtSlice(s, url, i);
      assert r[..|url|] == url;
      forall k | |url| <= k < |r| ensures IsUrlChar(r[k]) {
        assert r[k] == t[k - |url|];
      }
      assert i + |r| < |s| ==> s[i + |r|] == t[n];
      assert MentionAt(s, url, i, r);
    }
  }

  // ------------------------------------------------------------------
  // Paragraphs
  // ------------------------------------------------------------------

  const ParagraphBreak := "\n\n"

  function Paragraph(block: string): string {
    "<p>" + Strip(block) + "</p>"
  }

  function WrapAll(blocks: seq<string>): (r: seq<string>)
    ensures |r| == |blocks| && forall k :: 0 <= k < |blocks| ==> r[k] == Paragraph(blocks[k])
  {
    seq(|blocks|, k requires 0 <= k < |blocks| => Paragraph(blocks[k]))
  }

  /** `convert_to_paragraphs`: one `<p>` per `"\n\n"`-separated block, stripped, joined by `"\n"`. */
  function ConvertToParagraphs(text: string): string {
    Join(WrapAll(Split(text, ParagraphBreak)), "\n")
  }

  /**
   * Blocks with no blank line inside and, but for the last, no newline at the end are
   * exactly the blocks `split` recovers: each becomes its own paragraph, in order.
   */
  lemma ParagraphsOfBlocks(blocks: seq<string>)
    requires |blocks| >= 1
    requires forall k :: 0 <= k < |blocks| ==> !Contains(blocks[k], ParagraphBreak)
    requires forall k :: 0 <= k < |blocks| - 1 ==> blocks[k] == [] || blocks[k][|blocks[k]| - 1] != '\n'
    ensures ConvertToParagraphs(Join(blocks, ParagraphBreak)) == Join(WrapAll(blocks), "\n")
  {
    forall k | 0 <= k < |blocks| - 1 ensures EndsAtSeparator(blocks[k], ParagraphBreak) {
      var b := blocks[k];
      forall j | 0 <= j < |b| ensures !OccursAt(b + ParagraphBreak, ParagraphBreak, j) {
        if j + 2 <= |b| {
          assert (b + ParagraphBreak)[0..|b|] == b;
          if OccursAt(b + ParagraphBreak, ParagraphBreak, j) {
            OccursInSlice(b + ParagraphBreak, ParagraphBreak, 0, |b|, j);
          }
        } else {
          assert (b + ParagraphBreak)[j] == b[|b| - 1] && ParagraphBreak[0] == '\n';
        }
      }
    }
    SplitUnique(blocks, ParagraphBreak);
  }

  /** The empty body still yields one, empty, paragraph. */
  lemma ParagraphsOfEmpty()
    ensures ConvertToParagraphs("") == "<p></p>"
  {
    assert FindFrom("", ParagraphBreak, 0).None?;
  }

  // ------------------------------------------------------------------
  // The whole normaliser
  // ------------------------------------------------------------------

  /** `preprocess_content`: captions first, then upload URLs, then paragraphs. */
  function PreprocessContent(content: string, url: string): string {
    ConvertToParagraphs(ReplaceUrls(ReplaceCaptions(content), url))
  }

  /** A body with no shortcode, no site URL and no blank line becomes a single stripped paragraph. */
  lemma PreprocessPlain(content: string, url: string)
    requires !Contains(content, CaptionOpen) && !Contains(content, url)
    requires !Contains(content, ParagraphBreak)
    ensures PreprocessContent(content, url) == "<p>" + Strip(content) + "</p>"
  {
    CaptionsWithoutShortcode(content);
    UrlsWithoutSite(content, url);
    ParagraphsOfBlocks([content]);
  }
}
