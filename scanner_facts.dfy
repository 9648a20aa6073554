/** What the block scanner does with whole documents: text outside tags
    produces nothing, and a well-formed block or image tag produces its
    pattern and lets the scan go on right after it. */
module ScannerFacts {
  import opened Text
  import opened Patterns
  import opened Normalizer
  import opened Scanner

  /** The block alternatives from `i` on all fail, so the whole block
      pattern fails. */
  lemma {:induction false} BlockFromNone(t: string, i: nat)
    requires i <= |BlockTags|
    requires forall k :: i <= k < |BlockTags| ==> MatchElement(t, TagName(BlockTags[k])).None?
    ensures MatchBlockFrom(t, i).None?
    decreases |BlockTags| - i
  {
    if i < |BlockTags| {
      BlockFromNone(t, i + 1);
    }
  }

  /** Without a `<` at the cursor neither pattern can match. */
  lemma NoTagNoMatch(t: string)
    requires t != [] && t[0] != '<'
    ensures MatchBlock(t).None? && MatchImg(t).None?
  {
    forall k | 0 <= k < |BlockTags|
      ensures MatchElement(t, TagName(BlockTags[k])).None?
    {
      assert MatchOpenTag(t, TagName(BlockTags[k])).None?;
    }
    BlockFromNone(t, 0);
  }

  /** Whitespace at the cursor that continues into the rest is skipped in
      one step, and so is the rest's own leading whitespace. */
  lemma SkipSpace(t: string, o: Oracles)
    requires t != [] && SpaceRun(t) > 0
    ensures Convert(t, o) == Convert(t[SpaceRun(t)..], o)
  {
    ConvertStep(t, o);
    StepSpace(t, o);
  }

  /** A character that starts neither whitespace nor a tag is passed over. */
  lemma SkipOther(t: string, o: Oracles)
    requires t != [] && t[0] != '<' && SpaceRun(t) == 0
    ensures Convert(t, o) == Convert(t[1..], o)
  {
    NoTagNoMatch(t);
    ConvertStep(t, o);
    StepOther(t, o);
  }

  // Dropping part of a leading whitespace run leaves the rest of the run.
  lemma {:induction false} SpaceRunDrop(t: string, k: nat)
    requires k <= SpaceRun(t)
    ensures SpaceRun(t[k..]) == SpaceRun(t) - k
  {
    if k > 0 {
      assert t[k..] == t[1..][k - 1..];
      SpaceRunDrop(t[1..], k - 1);
    }
  }

  // Skipping into the middle of a whitespace run changes nothing.
  lemma SkipIntoSpace(t: string, k: nat, o: Oracles)
    requires 0 < k < SpaceRun(t)
    ensures Convert(t, o) == Convert(t[k..], o)
  {
    var w := SpaceRun(t);
    SkipSpace(t, o);
    SpaceRunDrop(t, k);
    var v := SpaceRun(t[k..]);
    SkipSpace(t[k..], o);
    DropTo(t, k, v, w);
  }

  lemma DropTo(s: string, a: nat, b: nat, c: nat)
    requires a + b == c <= |s|
    ensures s[a..][b..] == s[c..]
  {
  }

  // How far one step moves within `k` characters that hold no `<`.
  function SkipLength(t: string, k: nat): nat {
    if SpaceRun(t) == 0 then 1 else if SpaceRun(t) < k then SpaceRun(t) else k
  }

  // One step into the first `k` characters of `t`, which hold no `<`.
  lemma SkipStep(t: string, k: nat, o: Oracles)
    requires 0 < k <= |t| && forall i :: 0 <= i < k ==> t[i] != '<'
    ensures 0 < SkipLength(t, k) <= k && Convert(t, o) == Convert(t[SkipLength(t, k)..], o)
  {
    var w := SpaceRun(t);
    if w == 0 {
      SkipOther(t, o);
    } else if w <= k {
      SkipSpace(t, o);
    } else {
      SkipIntoSpace(t, k, o);
    }
  }

  /** The first `k` characters of `t` hold no `<`: the scan of `t` is the
      scan of what follows them. */
  lemma {:induction false} SkipPrefix(t: string, k: nat, o: Oracles)
    requires k <= |t| && forall i :: 0 <= i < k ==> t[i] != '<'
    ensures Convert(t, o) == Convert(t[k..], o)
    decreases k
  {
    if k == 0 {
      assert t[k..] == t;
    } else {
      var w := SkipLength(t, k);
      SkipStep(t, k, o);
      DropTo(t, w, k - w, k);
      SkipPrefix(t[w..], k - w, o);
    }
  }

  /** Text with no `<` in it produces nothing: the scan passes over it and
      carries on with what follows exactly as if it were not there. */
  lemma SkipText(y: string, rest: string, o: Oracles)
    requires '<' !in y
    ensures Convert(y + rest, o) == Convert(rest, o)
  {
    var t := y + rest;
    assert t[..|y|] == y && t[|y|..] == rest;
    SkipPrefix(t, |y|, o);
  }

  /** The position of a tag in the alternation. */
  function TagIndex(tag: BlockTag): (i: nat)
    ensures i < |BlockTags| && BlockTags[i] == tag
  {
    match tag
    case H1 => 0
    case H2 => 1
    case H3 => 2
    case P => 3
    case Ul => 4
    case Ol => 5
  }

  /** The alternatives are tried in order: when all those before `tag`
      fail and `tag` matches, the block is a `tag` block. */
  lemma {:induction false} BlockFromFinds(t: string, i: nat, tag: BlockTag, e: Element)
    requires i <= TagIndex(tag) && MatchElement(t, TagName(tag)) == Some(e)
    requires forall k :: i <= k < TagIndex(tag) ==> MatchElement(t, TagName(BlockTags[k])).None?
    ensures MatchBlockFrom(t, i) == Some(Block(tag, e))
    decreases TagIndex(tag) - i
  {
    if i < TagIndex(tag) {
      BlockFromFinds(t, i + 1, tag, e);
    }
  }

  /** No tag name in the alternation is a case-insensitive prefix of an
      earlier one's text: the tag's own name rules out every earlier
      alternative at the second or third character. */
  lemma EarlierMisses(t: string, tag: BlockTag, k: nat)
    requires ExactAt(t, 1, TagName(tag)) && k < TagIndex(tag)
    ensures !CiAt(t, 1, TagName(BlockTags[k]))
  {
    assert t[1 + 0] == TagName(tag)[0];
    if |TagName(tag)| == 2 {
      assert t[1 + 1] == TagName(tag)[1];
    }
  }

  lemma BlockLayout(t: string, name: string, attrs: string, inner: string)
    requires ExactAt(t, 0, OpenText(name, attrs) + inner + CloseTag(name))
    ensures var a := |OpenText(name, attrs)|;
            ExactAt(t, 1, name) && t[a..a + |inner|] == inner
  {
    var open := OpenText(name, attrs);
    ExactAtSplit(t, 0, open + inner, CloseTag(name));
    ExactAtSplit(t, 0, open, inner);
    ExactAtSlice(t, |open|, inner);
    OpenTextChars(name, attrs);
    forall j | 0 <= j < |name|
      ensures t[1 + j] == name[j]
    {
      assert t[0 + (1 + j)] == open[1 + j];
    }
  }

  /** A literal `<tag attrs>inner</tag>` at the cursor is matched as a block
      of that tag whose inner span is exactly `inner`. */
  lemma BlockAt(t: string, tag: BlockTag, attrs: string, inner: string)
    requires AttrText(attrs) && NoCloseIn(inner, TagName(tag))
    requires ExactAt(t, 0, OpenText(TagName(tag), attrs) + inner + CloseTag(TagName(tag)))
    ensures MatchBlock(t).Some?
    ensures var b := MatchBlock(t).value;
            b.tag == tag && b.elem.innerStart == |OpenText(TagName(tag), attrs)|
            && b.elem.innerEnd == b.elem.innerStart + |inner|
            && b.elem.end == b.elem.innerEnd + |CloseTag(TagName(tag))|
            && t[b.elem.innerStart..b.elem.innerEnd] == inner
  {
    var name := TagName(tag);
    var open := OpenText(name, attrs);
    var a := |open|;
    ElementAt(t, name, attrs, inner);
    var e := MatchElement(t, name).value;
    BlockLayout(t, name, attrs, inner);
    forall k | 0 <= k < TagIndex(tag)
      ensures MatchElement(t, TagName(BlockTags[k])).None?
    {
      EarlierMisses(t, tag, k);
    }
    BlockFromFinds(t, 0, tag, e);
  }

  // One step at a literal block.
  lemma StepAtBlock(t: string, tag: BlockTag, attrs: string, inner: string, o: Oracles)
    requires AttrText(attrs) && NoCloseIn(inner, TagName(tag))
    requires ExactAt(t, 0, OpenText(TagName(tag), attrs) + inner + CloseTag(TagName(tag)))
    ensures t != []
    ensures Step(t, o) == Move(|OpenText(TagName(tag), attrs) + inner + CloseTag(TagName(tag))|, BlockOut(tag, inner, o))
  {
    BlockAt(t, tag, attrs, inner);
    var b := MatchBlock(t).value;
    assert t[0] == '<' by {
      ExactAtChar(t, 0, OpenText(TagName(tag), attrs) + inner + CloseTag(TagName(tag)), 0);
    }
    StepBlock(t, o);
    Len3(OpenText(TagName(tag), attrs), inner, CloseTag(TagName(tag)));
  }

  /** A well-formed block at the cursor appends the block's pattern for its
      inner HTML, and the scan goes on right after its closing tag. */
  lemma ScanBlock(tag: BlockTag, attrs: string, inner: string, rest: string, o: Oracles)
    requires AttrText(attrs) && NoCloseIn(inner, TagName(tag))
    ensures Convert(OpenText(TagName(tag), attrs) + inner + CloseTag(TagName(tag)) + rest, o)
            == BlockOut(tag, inner, o) + Convert(rest, o)
  {
    var whole := OpenText(TagName(tag), attrs) + inner + CloseTag(TagName(tag));
    var t := whole + rest;
    assert ExactAt(t, 0, whole) by {
      ExactAtPrefix(whole, rest);
    }
    StepAtBlock(t, tag, attrs, inner, o);
    ConvertStep(t, o);
    assert t[|whole|..] == rest;
  }

  /** The `src` attribute opener the image pattern looks for. */
  const SrcAttr: string := "src=\""

  /** `<img pre src="src"post>`: an image tag whose source is `src`. */
  function ImgText(pre: string, src: string, post: string): string {
    "<img" + pre + SrcAttr + (src + "\"" + post) + ">"
  }

  /** `src="`, ignoring case, occurs nowhere in `s`. */
  predicate NoSrcAttrIn(s: string) {
    forall k :: 0 <= k <= |s| ==> !CiAt(s, k, SrcAttr)
  }

  /** The parts of an image tag the pattern reads as intended: attribute
      text that starts with a non-word character and holds no `>`, a
      non-empty source without quotes, trailing attributes without `>`, and
      no second `src="` after the source's own (where the greedy pattern
      would pick the later one). */
  predicate ImgParts(pre: string, src: string, post: string) {
    pre != [] && AttrText(pre) && src != [] && '"' !in src && '>' !in post
    && NoSrcAttrIn(src + "\"" + post)
  }

  /** Going down from `j`, the first candidate position that completes the
      pattern is `j0`. */
  lemma {:induction false} ImgSearchFinds(t: string, j: nat, j0: nat)
    requires 4 <= j0 <= j && ImgAt(t, j0).Some?
    requires forall i :: j0 < i <= j ==> ImgAt(t, i).None?
    ensures ImgSearch(t, j) == ImgAt(t, j0)
    decreases j
  {
    if j > j0 {
      ImgSearchFinds(t, j - 1, j0);
    }
  }

  // No `src="` starts in the part `s` of an image tag that follows its own
  // `src="`, nor at the closing `>` just after it.
  lemma LaterMisses(t: string, a: nat, s: string, j: nat)
    requires ExactAt(t, a, s) && NoSrcAttrIn(s)
    requires a + |s| < |t| && t[a + |s|] == '>' && a <= j <= a + |s|
    ensures !CiAt(t, j, SrcAttr)
  {
    if j + 5 > a + |s| {
      var m := a + |s| - j;
      assert '>' !in SrcAttr;
      assert !CiChar(t[j + m], SrcAttr[m]);
    } else if CiAt(t, j, SrcAttr) {
      forall m | 0 <= m < 5
        ensures CiChar(s[j - a + m], SrcAttr[m])
      {
        ExactAtChar(t, a, s, j - a + m);
      }
      assert CiAt(s, j - a, SrcAttr);
      assert false;
    }
  }

  // Where the parts of an image tag sit.
  lemma ImgLayout(t: string, pre: string, src: string, post: string)
    requires ExactAt(t, 0, ImgText(pre, src, post))
    ensures var j0 := 4 + |pre|; var q := j0 + 5 + |src|;
            ExactAt(t, 0, "<img") && ExactAt(t, 4, pre) && ExactAt(t, j0, SrcAttr)
            && ExactAt(t, j0 + 5, src + "\"" + post) && ExactAt(t, j0 + 5, src)
            && ExactAt(t, q, "\"") && ExactAt(t, q + 1, post)
            && |ImgText(pre, src, post)| == q + 2 + |post| && ExactAt(t, q + 1 + |post|, ">")
  {
    var j0 := 4 + |pre|;
    var s0 := j0 + 5;
    var tail := src + "\"" + post;
    ExactAtSplit(t, 0, "<img" + pre + SrcAttr + tail, ">");
    ExactAtSplit(t, 0, "<img" + pre + SrcAttr, tail);
    ExactAtSplit(t, 0, "<img" + pre, SrcAttr);
    ExactAtSplit(t, 0, "<img", pre);
    ExactAtSplit(t, s0, src + "\"", post);
    ExactAtSplit(t, s0, src, "\"");
  }

  // The tag name `img` at a word boundary opens the pattern.
  lemma ImgGate(t: string, pre: string)
    requires ExactAt(t, 0, "<img") && ExactAt(t, 4, pre) && pre != [] && !IsWordChar(pre[0])
    ensures |t| >= 4 && t[0] == '<' && CiAt(t, 1, "img") && Boundary(t, 4)
  {
    ExactAtChar(t, 0, "<img", 0);
    ExactAtChar(t, 0, "<img", 1);
    ExactAtChar(t, 0, "<img", 2);
    ExactAtChar(t, 0, "<img", 3);
    ExactAtChar(t, 4, pre, 0);
  }

  // The first `>` after the tag name lies at or after the source.
  lemma ImgFirstClose(t: string, pre: string, e: nat)
    requires ExactAt(t, 4, pre) && '>' !in pre && ExactAt(t, 4 + |pre|, SrcAttr)
    requires e < |t| && t[e] == '>' && 4 + |pre| <= e
    ensures FindChar(t, 4, '>').Some? && 4 + |pre| + 5 <= FindChar(t, 4, '>').value <= e
  {
    var j0 := 4 + |pre|;
    forall i | 4 <= i < j0
      ensures t[i] != '>'
    {
      ExactAtChar(t, 4, pre, i - 4);
    }
    ExactAtChar(t, j0, SrcAttr, 0);
    ExactAtChar(t, j0, SrcAttr, 1);
    ExactAtChar(t, j0, SrcAttr, 2);
    ExactAtChar(t, j0, SrcAttr, 3);
    ExactAtChar(t, j0, SrcAttr, 4);
  }

  // The tag's own `src="` completes the pattern.
  lemma ImgAtSource(t: string, j0: nat, src: string, post: string)
    requires ExactAt(t, j0, SrcAttr) && ExactAt(t, j0 + 5, src) && src != [] && '"' !in src
    requires ExactAt(t, j0 + 5 + |src|, "\"") && ExactAt(t, j0 + 6 + |src|, post) && '>' !in post
    requires ExactAt(t, j0 + 6 + |src| + |post|, ">")
    ensures ImgAt(t, j0).Some?
    ensures var m := ImgAt(t, j0).value;
            m.srcStart == j0 + 5 && m.srcEnd == j0 + 5 + |src| && m.end == j0 + 7 + |src| + |post|
  {
    var q := j0 + 5 + |src|;
    CiOfExact(t, j0, SrcAttr);
    forall i | j0 + 5 <= i < q
      ensures t[i] != '"'
    {
      ExactAtChar(t, j0 + 5, src, i - j0 - 5);
    }
    ExactAtChar(t, q, "\"", 0);
    assert FindChar(t, j0 + 5, '"') == Some(q);
    forall i | q + 1 <= i < q + 1 + |post|
      ensures t[i] != '>'
    {
      ExactAtChar(t, q + 1, post, i - q - 1);
    }
    ExactAtChar(t, q + 1 + |post|, ">", 0);
    assert FindChar(t, q + 1, '>') == Some(q + 1 + |post|);
  }

  // Between the tag's own `src="` and the first `>`, no candidate position
  // starts another `src="`.
  lemma ImgNoLater(t: string, j0: nat, tail: string, g: nat)
    requires ExactAt(t, j0, SrcAttr) && ExactAt(t, j0 + 5, tail) && NoSrcAttrIn(tail)
    requires j0 + 5 + |tail| < |t| && t[j0 + 5 + |tail|] == '>' && g <= j0 + 5 + |tail|
    ensures forall i :: j0 < i <= g ==> ImgAt(t, i).None?
  {
    forall i | j0 < i <= g
      ensures ImgAt(t, i).None?
    {
      if i < j0 + 5 {
        ExactAtChar(t, j0, SrcAttr, i - j0);
        assert !CiChar(t[i + 0], SrcAttr[0]);
      } else {
        LaterMisses(t, j0 + 5, tail, i);
      }
    }
  }

  /** The image pattern at an image tag whose parts are as intended: the
      match covers the whole tag and its source is `src`. */
  lemma ImgTagAt(t: string, pre: string, src: string, post: string)
    requires ImgParts(pre, src, post) && ExactAt(t, 0, ImgText(pre, src, post))
    ensures MatchImg(t).Some?
    ensures var m := MatchImg(t).value;
            m.end == |ImgText(pre, src, post)| && t[m.srcStart..m.srcEnd] == src
  {
    var j0 := 4 + |pre|;
    var tail := src + "\"" + post;
    var last := j0 + 6 + |src| + |post|;
    ImgLayout(t, pre, src, post);
    ImgGate(t, pre);
    ExactAtChar(t, last, ">", 0);
    ImgFirstClose(t, pre, last);
    var g := FindChar(t, 4, '>').value;
    ImgAtSource(t, j0, src, post);
    assert |tail| == |src| + 1 + |post|;
    ImgNoLater(t, j0, tail, g);
    ImgSearchFinds(t, g, j0);
    var m := MatchImg(t).value;
    assert ExactAt(t, m.srcStart, src);
    ExactAtSlice(t, m.srcStart, src);
  }

  /** No block tag name starts with `i`. */
  lemma ImgNotBlock(t: string)
    requires |t| > 1 && CiChar(t[1], 'i')
    ensures MatchBlock(t).None?
  {
    forall k | 0 <= k < |BlockTags|
      ensures MatchElement(t, TagName(BlockTags[k])).None?
    {
      assert !CiChar(t[1 + 0], TagName(BlockTags[k])[0]);
      assert MatchOpenTag(t, TagName(BlockTags[k])).None?;
    }
    BlockFromNone(t, 0);
  }

  // One step at an image tag whose parts are as intended.
  lemma StepAtImg(t: string, pre: string, src: string, post: string, o: Oracles)
    requires ImgParts(pre, src, post) && ExactAt(t, 0, ImgText(pre, src, post))
    ensures t != [] && Step(t, o) == Move(|ImgText(pre, src, post)|, ImageOut(src, o))
  {
    ImgTagAt(t, pre, src, post);
    assert t[0] == '<' && t[1] == 'i' by {
      ImgLayout(t, pre, src, post);
      ExactAtChar(t, 0, "<img", 0);
      ExactAtChar(t, 0, "<img", 1);
    }
    ImgNotBlock(t);
    StepImage(t, o);
  }

  /** An image tag at the cursor appends the image's pattern for its
      source, and the scan goes on right after the tag. */
  lemma ScanImage(pre: string, src: string, post: string, rest: string, o: Oracles)
    requires ImgParts(pre, src, post)
    ensures Convert(ImgText(pre, src, post) + rest, o) == ImageOut(src, o) + Convert(rest, o)
  {
    var whole := ImgText(pre, src, post);
    var t := whole + rest;
    ExactAtPrefix(whole, rest);
    StepAtImg(t, pre, src, post, o);
    ConvertStep(t, o);
    assert t[|whole|..] == rest;
  }

  /** A document as the converter expects it: text between tags, blocks
      and image tags. */
  datatype Piece =
    | Plain(text: string)
    | BlockPiece(tag: BlockTag, attrs: string, inner: string)
    | ImagePiece(pre: string, src: string, post: string)

  predicate WellFormed(p: Piece) {
    match p
    case Plain(text) => '<' !in text
    case BlockPiece(tag, attrs, inner) => AttrText(attrs) && NoCloseIn(inner, TagName(tag))
    case ImagePiece(pre, src, post) => ImgParts(pre, src, post)
  }

  function Render(p: Piece): string {
    match p
    case Plain(text) => text
    case BlockPiece(tag, attrs, inner) => OpenText(TagName(tag), attrs) + inner + CloseTag(TagName(tag))
    case ImagePiece(pre, src, post) => ImgText(pre, src, post)
  }

  /** The flowables a piece stands for: nothing for text, the block's or
      the image's pattern otherwise. */
  function Emit(p: Piece, o: Oracles): seq<Flowable> {
    match p
    case Plain(_) => []
    case BlockPiece(tag, _, inner) => BlockOut(tag, inner, o)
    case ImagePiece(_, src, _) => ImageOut(src, o)
  }

  function RenderAll(ps: seq<Piece>): string {
    if ps == [] then [] else Render(ps[0]) + RenderAll(ps[1..])
  }

  function EmitAll(ps: seq<Piece>, o: Oracles): seq<Flowable> {
    if ps == [] then [] else Emit(ps[0], o) + EmitAll(ps[1..], o)
  }

  // The scan of one piece followed by anything.
  lemma ScanPiece(p: Piece, rest: string, o: Oracles)
    requires WellFormed(p)
    ensures Convert(Render(p) + rest, o) == Emit(p, o) + Convert(rest, o)
  {
    match p
    case Plain(text) =>
      SkipText(text, rest, o);
    case BlockPiece(tag, attrs, inner) =>
      ScanBlock(tag, attrs, inner, rest, o);
    case ImagePiece(pre, src, post) =>
      ScanImage(pre, src, post, rest, o);
  }

  /** The converter turns a document of well-formed pieces into the
      patterns of its blocks and images, in document order. */
  lemma {:induction false} ConvertDocument(ps: seq<Piece>, o: Oracles)
    requires forall i :: 0 <= i < |ps| ==> WellFormed(ps[i])
    ensures Convert(RenderAll(ps), o) == EmitAll(ps, o)
  {
    if ps != [] {
      ScanPiece(ps[0], RenderAll(ps[1..]), o);
      ConvertDocument(ps[1..], o);
    }
  }

  /** The inside of a list: text between items, and `<li>` items. */
  datatype ListPiece = Gap(text: string) | Item(attrs: string, inner: string)

  predicate ItemWellFormed(p: ListPiece) {
    match p
    case Gap(text) => '<' !in text
    case Item(attrs, inner) => AttrText(attrs) && NoCloseIn(inner, "li")
  }

  function RenderItem(p: ListPiece): string {
    match p
    case Gap(text) => text
    case Item(attrs, inner) => OpenText("li", attrs) + inner + CloseTag("li")
  }

  function RenderItems(ps: seq<ListPiece>): string {
    if ps == [] then [] else RenderItem(ps[0]) + RenderItems(ps[1..])
  }

  /** The inner HTML of the items, in order. */
  function Inners(ps: seq<ListPiece>): seq<string> {
    if ps == [] then []
    else match ps[0]
      case Gap(_) => Inners(ps[1..])
      case Item(_, inner) => [inner] + Inners(ps[1..])
  }

  /** The item search passes over text with no `<` in it. */
  lemma {:induction false} FindSkipsText(y: string, rest: string)
    requires '<' !in y
    ensures FindItems(y + rest) == FindItems(rest)
    decreases |y|
  {
    if y == [] {
      assert y + rest == rest;
    } else {
      var t := y + rest;
      assert t[0] == y[0];
      assert MatchOpenTag(t, "li").None?;
      assert t[1..] == y[1..] + rest;
      FindSkipsText(y[1..], rest);
    }
  }

  // Where a literal item sits, as the item pattern finds it.
  lemma ItemMatch(t: string, attrs: string, inner: string)
    requires AttrText(attrs) && NoCloseIn(inner, "li")
    requires ExactAt(t, 0, OpenText("li", attrs) + inner + CloseTag("li"))
    ensures MatchElement(t, "li").Some?
    ensures var e := MatchElement(t, "li").value;
            e.innerStart == |attrs| + 4 && e.innerEnd == e.innerStart + |inner| && e.end == e.innerEnd + 5
            && t[e.innerStart..e.innerEnd] == inner
  {
    var open := OpenText("li", attrs);
    var a := |open|;
    OpenTextChars("li", attrs);
    CloseTagChars("li");
    ElementAt(t, "li", attrs, inner);
    ExactAtSplit(t, 0, open + inner, CloseTag("li"));
    ExactAtSplit(t, 0, open, inner);
    ExactAtSlice(t, a, inner);
  }

  // One item found: the search goes on after it.
  lemma FindAtItem(t: string, e: Element, inner: string)
    requires MatchElement(t, "li") == Some(e) && t[e.innerStart..e.innerEnd] == inner
    ensures FindItems(t) == [inner] + FindItems(t[e.end..])
  {
  }

  lemma Len3(a: string, b: string, c: string)
    ensures |a + b + c| == |a| + |b| + |c|
  {
  }

  /** A well-formed item is found whole, and the search resumes after it. */
  lemma FindItem(attrs: string, inner: string, rest: string)
    requires AttrText(attrs) && NoCloseIn(inner, "li")
    ensures FindItems(OpenText("li", attrs) + inner + CloseTag("li") + rest) == [inner] + FindItems(rest)
  {
    var whole := OpenText("li", attrs) + inner + CloseTag("li");
    var t := whole + rest;
    assert ExactAt(t, 0, whole) by {
      ExactAtPrefix(whole, rest);
    }
    ItemMatch(t, attrs, inner);
    var e := MatchElement(t, "li").value;
    FindAtItem(t, e, inner);
    assert |whole| == e.end by {
      OpenTextChars("li", attrs);
      Len3(OpenText("li", attrs), inner, CloseTag("li"));
    }
    assert t[e.end..] == rest;
  }

  /** The items found in a rendered list are exactly the items it was
      rendered from. */
  lemma {:induction false} FindItemsOf(ps: seq<ListPiece>)
    requires forall i :: 0 <= i < |ps| ==> ItemWellFormed(ps[i])
    ensures FindItems(RenderItems(ps)) == Inners(ps)
  {
    if ps != [] {
      FindItemsOf(ps[1..]);
      match ps[0]
      case Gap(text) =>
        FindSkipsText(text, RenderItems(ps[1..]));
      case Item(attrs, inner) =>
        FindItem(attrs, inner, RenderItems(ps[1..]));
    }
  }

  /** A `ul` or `ol` written out item by item is one bullet list of its
      cleaned items (or nothing) followed by the rest of the scan. */
  lemma ScanList(tag: BlockTag, attrs: string, ps: seq<ListPiece>, rest: string, o: Oracles)
    requires tag == Ul || tag == Ol
    requires AttrText(attrs) && NoCloseIn(RenderItems(ps), TagName(tag))
    requires forall i :: 0 <= i < |ps| ==> ItemWellFormed(ps[i])
    ensures Convert(OpenText(TagName(tag), attrs) + RenderItems(ps) + CloseTag(TagName(tag)) + rest, o)
            == ListOut(Inners(ps), o) + Convert(rest, o)
  {
    ScanBlock(tag, attrs, RenderItems(ps), rest, o);
    ListBlockOut(tag, RenderItems(ps), o);
    FindItemsOf(ps);
  }

  // Both list tags emit the list of the items found in their inner HTML.
  lemma ListBlockOut(tag: BlockTag, raw: string, o: Oracles)
    requires tag == Ul || tag == Ol
    ensures BlockOut(tag, raw, o) == ListOut(FindItems(raw), o)
  {
  }

  /** A plain-text paragraph: the paragraph of its trimmed text and its
      spacer, or nothing when the text is blank or refused. */
  lemma ScanPlainParagraph(attrs: string, text: string, rest: string, o: Oracles)
    requires AttrText(attrs) && '<' !in text && '&' !in text
    ensures var inner := Trim(text);
            Convert(OpenText("p", attrs) + text + CloseTag("p") + rest, o)
            == (if inner != [] && o.paragraphOk(inner, BodyStyle) then [Paragraph(inner, BodyStyle), Spacer(15)] else [])
               + Convert(rest, o)
  {
    assert NoCloseIn(text, "p") by {
      forall j | 0 <= j <= |text|
        ensures !CiAt(text, j, CloseTag("p"))
      {
        if j < |text| {
          assert text[j] != '<';
          assert !CiChar(text[j + 0], CloseTag("p")[0]);
        }
      }
    }
    ScanBlock(P, attrs, text, rest, o);
    CleanPlainText(text);
  }

  // A run of whitespace trims to nothing.
  lemma TrimBlank(s: string)
    requires forall i :: 0 <= i < |s| ==> IsSpace(s[i])
    ensures Trim(s) == []
  {
  }

  /** A paragraph holding only whitespace and `&nbsp;` emits nothing: the
      entity is decoded to a space before the emptiness test. */
  lemma BlankParagraph(a: string, b: string, o: Oracles)
    requires forall i :: 0 <= i < |a| ==> IsSpace(a[i])
    requires forall i :: 0 <= i < |b| ==> IsSpace(b[i])
    ensures BlockOut(P, a + "&nbsp;" + b, o) == []
  {
    SpaceNoMarkup(a);
    SpaceNoMarkup(b);
    NbspEntity();
    CleanDecodesEntity(0, a, b);
    SpacesAroundSpace(a, b);
    TrimBlank(a + [' '] + b);
  }

  lemma SpaceNoMarkup(a: string)
    requires forall i :: 0 <= i < |a| ==> IsSpace(a[i])
    ensures '<' !in a && '&' !in a
  {
  }

  lemma NbspEntity()
    ensures EntityText(Entities[0].0) == "&nbsp;" && Entities[0].1 == ' '
  {
  }

  lemma SpacesAroundSpace(a: string, b: string)
    requires forall i :: 0 <= i < |a| ==> IsSpace(a[i])
    requires forall i :: 0 <= i < |b| ==> IsSpace(b[i])
    ensures forall i :: 0 <= i < |a + [' '] + b| ==> IsSpace((a + [' '] + b)[i])
  {
  }

  // ---------------------------------------------------------------------
  // What every run produces

  /** What `clean_inner` guarantees of a text: every `&` begins a safe
      reference, and the text is trimmed. */
  predicate CleanText(s: string) {
    AmpSafe(s) && Trimmed(s)
  }

  predicate SafeFlowable(f: Flowable) {
    match f
    case Paragraph(text, _) => CleanText(text)
    case BulletList(items) => forall k :: 0 <= k < |items| ==> CleanText(items[k])
    case _ => true
  }

  predicate AllSafe(fs: seq<Flowable>) {
    forall i :: 0 <= i < |fs| ==> SafeFlowable(fs[i])
  }

  lemma CleanIsClean(s: string)
    ensures CleanText(Clean(s))
  {
    CleanIsAmpSafe(s);
  }

  lemma ListOutSafe(items: seq<string>, o: Oracles)
    ensures AllSafe(ListOut(items, o))
  {
    var cleaned := CleanAll(items);
    CleanAllLength(items);
    forall k | 0 <= k < |cleaned|
      ensures CleanText(cleaned[k])
    {
      CleanAllAt(items, k);
      CleanIsClean(items[k]);
    }
  }

  lemma BlockOutSafe(tag: BlockTag, raw: string, o: Oracles)
    ensures AllSafe(BlockOut(tag, raw, o))
  {
    if tag == Ul || tag == Ol {
      ListOutSafe(FindItems(raw), o);
    } else {
      TextBlockSafe(tag, raw, o);
    }
  }

  lemma TextBlockSafe(tag: BlockTag, raw: string, o: Oracles)
    requires tag != Ul && tag != Ol
    ensures AllSafe(BlockOut(tag, raw, o))
  {
    CleanIsClean(raw);
  }

  lemma StepSafe(t: string, o: Oracles)
    requires t != []
    ensures AllSafe(Step(t, o).out)
  {
    if SpaceRun(t) > 0 {
      StepSpace(t, o);
    } else if MatchBlock(t).Some? {
      StepBlockSafe(t, o);
    } else if MatchImg(t).Some? {
      StepImageSafe(t, o);
    } else {
      StepOther(t, o);
    }
  }

  lemma StepBlockSafe(t: string, o: Oracles)
    requires t != [] && SpaceRun(t) == 0 && MatchBlock(t).Some?
    ensures AllSafe(Step(t, o).out)
  {
    StepBlock(t, o);
    var b := MatchBlock(t).value;
    BlockOutSafe(b.tag, t[b.elem.innerStart..b.elem.innerEnd], o);
  }

  lemma StepImageSafe(t: string, o: Oracles)
    requires t != [] && SpaceRun(t) == 0 && MatchBlock(t).None? && MatchImg(t).Some?
    ensures AllSafe(Step(t, o).out)
  {
    StepImage(t, o);
  }

  lemma AllSafeConcat(a: seq<Flowable>, b: seq<Flowable>)
    requires AllSafe(a) && AllSafe(b)
    ensures AllSafe(a + b)
  {
  }

  /** Whatever the input, every paragraph and list item the converter
      emits has been through `clean_inner`: each `&` in it begins a safe
      reference, and it has no surrounding whitespace. */
  lemma {:induction false} ConvertSafe(t: string, o: Oracles)
    ensures AllSafe(Convert(t, o))
    decreases |t|
  {
    if t != [] {
      var m := Step(t, o);
      ConvertStep(t, o);
      StepSafe(t, o);
      ConvertSafe(t[m.len..], o);
      AllSafeConcat(m.out, Convert(t[m.len..], o));
    }
  }

  // ---------------------------------------------------------------------
  // Termination

  /** Every turn moves the cursor on by at least one character, so the loop
      ends after at most as many turns as the input has characters. */
  lemma {:induction false} TurnsBound(t: string, o: Oracles)
    ensures Turns(t, o) <= |t|
    decreases |t|
  {
    if t != [] {
      TurnsBound(t[Step(t, o).len..], o);
    }
  }

  // ---------------------------------------------------------------------
  // How a run ends

  /** Empty, or closed by a spacer. */
  predicate EndsWithSpacer(fs: seq<Flowable>) {
    fs == [] || fs[|fs| - 1].Spacer?
  }

  lemma EndsWithSpacerConcat(a: seq<Flowable>, b: seq<Flowable>)
    requires EndsWithSpacer(a) && EndsWithSpacer(b)
    ensures EndsWithSpacer(a + b)
  {
    if b == [] {
      assert a + b == a;
    }
  }

  lemma BlockOutEndsWithSpacer(tag: BlockTag, raw: string, o: Oracles)
    ensures EndsWithSpacer(BlockOut(tag, raw, o))
  {
    match tag
    case H1 =>
    case H2 =>
    case H3 =>
    case P =>
    case Ul =>
    case Ol =>
  }

  lemma ImageOutEndsWithSpacer(src: string, o: Oracles)
    ensures EndsWithSpacer(ImageOut(src, o))
  {
  }

  lemma StepEndsWithSpacer(t: string, o: Oracles)
    requires t != []
    ensures EndsWithSpacer(Step(t, o).out)
  {
    if SpaceRun(t) > 0 {
      StepSpace(t, o);
    } else if MatchBlock(t).Some? {
      StepBlock(t, o);
      var b := MatchBlock(t).value;
      BlockOutEndsWithSpacer(b.tag, t[b.elem.innerStart..b.elem.innerEnd], o);
    } else if MatchImg(t).Some? {
      StepImage(t, o);
      var m := MatchImg(t).value;
      ImageOutEndsWithSpacer(t[m.srcStart..m.srcEnd], o);
    } else {
      StepOther(t, o);
    }
  }

  /** Every pattern the converter appends ends with a spacer, so a
      non-empty result always ends with one. */
  lemma {:induction false} ConvertEndsWithSpacer(t: string, o: Oracles)
    ensures EndsWithSpacer(Convert(t, o))
    decreases |t|
  {
    if t != [] {
      var m := Step(t, o);
      ConvertStep(t, o);
      StepEndsWithSpacer(t, o);
      ConvertEndsWithSpacer(t[m.len..], o);
      EndsWithSpacerConcat(m.out, Convert(t[m.len..], o));
    }
  }
}
