/** The block scanner `html_to_platypus` (main.py:220-345): a cursor walks the
    HTML and turns each recognised block or image into a fixed pattern of
    flowables. ReportLab's constructors, the base64 decoder and the URL fetch
    are parameters of the model (`Oracles`). */
module Scanner {
  import opened Text
  import opened Patterns
  import opened Normalizer

  newtype byte = x: int | 0 <= x < 256

  /** The four paragraph styles the converter looks up. */
  datatype Style = H1Style | H2Style | H3Style | BodyStyle

  /** The flowables the converter appends. Spacer heights and image widths
      are in hundredths of a centimetre. */
  datatype Flowable =
    | Paragraph(text: string, style: Style)
    | Spacer(height: nat)
    | BulletList(items: seq<string>)
    | Image(data: seq<byte>, width: nat)

  /** What the converter asks of code outside it: whether ReportLab accepts
      a paragraph's markup, base64 decoding, fetching a URL, and whether
      ReportLab accepts the image bytes. A `false` or `None` answer stands
      for the exception the source catches. */
  datatype Oracles = Oracles(
    paragraphOk: (string, Style) -> bool,
    b64decode: string -> Option<seq<byte>>,
    fetch: string -> Option<seq<byte>>,
    imageOk: seq<byte> -> bool)

  /** The block tags of `<(h1|h2|h3|p|ul|ol)\b[^>]*>(.*?)</\1>`, in the
      order of the alternation. */
  datatype BlockTag = H1 | H2 | H3 | P | Ul | Ol

  const BlockTags: seq<BlockTag> := [H1, H2, H3, P, Ul, Ol]

  function TagName(tag: BlockTag): (name: string)
    ensures IsName(name)
  {
    match tag
    case H1 => "h1"
    case H2 => "h2"
    case H3 => "h3"
    case P => "p"
    case Ul => "ul"
    case Ol => "ol"
  }

  datatype Block = Block(tag: BlockTag, elem: Element)

  /** The block pattern at the start of `t`: the first alternative, in order,
      whose element matches. */
  function MatchBlockFrom(t: string, i: nat): (r: Option<Block>)
    requires i <= |BlockTags|
    decreases |BlockTags| - i
    ensures r.Some? ==> r.value.elem.innerStart <= r.value.elem.innerEnd < r.value.elem.end <= |t|
  {
    if i == |BlockTags| then None
    else match MatchElement(t, TagName(BlockTags[i]))
      case Some(e) => Some(Block(BlockTags[i], e))
      case None => MatchBlockFrom(t, i + 1)
  }

  function MatchBlock(t: string): (r: Option<Block>)
    ensures r.Some? ==> r.value.elem.innerStart <= r.value.elem.innerEnd < r.value.elem.end <= |t|
  {
    MatchBlockFrom(t, 0)
  }

  /** Where the image pattern matched: `src="` starts at `attr`, the source
      runs from `srcStart` (just after `src="`) to the closing quote at
      `srcEnd`, and the tag ends
      just before `end`. */
  datatype ImgTag = ImgTag(attr: nat, srcStart: nat, srcEnd: nat, end: nat)

  /** What a match of the tail means: `src="` in any case at `attr`, a
      source without quotes closed by a quote at `srcEnd`, and the tag's
      `>` just before `end`. */
  predicate ImgShape(t: string, m: ImgTag)
    requires m.srcStart == m.attr + 5 < m.srcEnd < m.end <= |t|
  {
    CiAt(t, m.attr, "src=\"") && t[m.srcEnd] == '"'
    && (forall k :: m.srcStart <= k < m.srcEnd ==> t[k] != '"') && t[m.end - 1] == '>'
  }

  // The tail `src="([^"]+)"[^>]*/?>` of the image pattern, tried with
  // `src="` at index `j`: a non-empty source up to the next quote, then
  // everything up to the next `>`.
  function ImgAt(t: string, j: nat): (r: Option<ImgTag>)
    ensures r.Some? ==> r.value.attr == j && r.value.srcStart == j + 5 < r.value.srcEnd < r.value.end <= |t|
    ensures r.Some? ==> ImgShape(t, r.value)
  {
    if CiAt(t, j, "src=\"") then
      match FindChar(t, j + 5, '"')
      case Some(q) =>
        if q > j + 5 then
          match FindChar(t, q + 1, '>')
          case Some(g) => Some(ImgTag(j, j + 5, q, g + 1))
          case None => None
        else None
      case None => None
    else None
  }

  /** The greedy `[^>]*` before `src="` tries the longest run first: the
      candidate positions `j, j - 1, ..., 4` in turn. */
  function ImgSearch(t: string, j: nat): (r: Option<ImgTag>)
    decreases j
    ensures r.Some? ==> 4 <= r.value.attr <= j && r.value.srcStart == r.value.attr + 5 < r.value.srcEnd < r.value.end <= |t|
    ensures r.Some? ==> ImgShape(t, r.value)
  {
    if j < 4 then None
    else match ImgAt(t, j)
      case Some(m) => Some(m)
      case None => ImgSearch(t, j - 1)
  }

  // `<img\b[^>]*src="([^"]+)"[^>]*/?>` at the start of `t`, ignoring case.
  // The run before `src="` holds no `>`, so the candidates end at the
  // first `>` after the tag name.
  function MatchImg(t: string): (r: Option<ImgTag>)
    ensures r.Some? ==> 4 <= r.value.attr && r.value.srcStart == r.value.attr + 5 < r.value.srcEnd < r.value.end <= |t|
    ensures r.Some? ==> ImgShape(t, r.value)
  {
    if |t| >= 4 && t[0] == '<' && CiAt(t, 1, "img") && Boundary(t, 4) then
      ImgSearch(t, match FindChar(t, 4, '>') case Some(g) => g case None => |t|)
    else None
  }

  /** `re.findall(r"<li\b[^>]*>(.*?)</li>", ...)`: the inner spans of the
      list items, scanning left to right and resuming after each match. */
  function FindItems(t: string): seq<string>
    decreases |t|
  {
    if t == [] then []
    else match MatchElement(t, "li")
      case Some(e) => [t[e.innerStart..e.innerEnd]] + FindItems(t[e.end..])
      case None => FindItems(t[1..])
  }

  /** Each item through `clean_inner`, in order. */
  function CleanAll(items: seq<string>): seq<string> {
    if items == [] then [] else CleanAll(items[..|items| - 1]) + [Clean(items[|items| - 1])]
  }

  /** ReportLab accepts every one of these texts as a body paragraph. */
  predicate Accepted(texts: seq<string>, o: Oracles) {
    forall k :: 0 <= k < |texts| ==> o.paragraphOk(texts[k], BodyStyle)
  }

  /** A `ul` or `ol` block: one bullet list of the cleaned items and a
      spacer, or nothing when there are no items or any item's paragraph
      is refused. */
  function ListOut(items: seq<string>, o: Oracles): seq<Flowable> {
    var cleaned := CleanAll(items);
    if |cleaned| > 0 && Accepted(cleaned, o) then [BulletList(cleaned), Spacer(20)] else []
  }

  /** What a block appends, given its tag and its raw inner HTML. A refused
      paragraph stops the block at that point; the spacer an `h2` or `h3`
      appended before it stays. */
  function BlockOut(tag: BlockTag, raw: string, o: Oracles): seq<Flowable> {
    var inner := Clean(raw);
    match tag
    case H1 =>
      if o.paragraphOk(inner, H1Style) then [Paragraph(inner, H1Style), Spacer(30)] else []
    case H2 =>
      [Spacer(40)] + if o.paragraphOk(inner, H2Style) then [Paragraph(inner, H2Style), Spacer(15)] else []
    case H3 =>
      [Spacer(20)] + if o.paragraphOk(inner, H3Style) then [Paragraph(inner, H3Style), Spacer(10)] else []
    case P =>
      if inner == [] then []
      else if o.paragraphOk(inner, BodyStyle) then [Paragraph(inner, BodyStyle), Spacer(15)] else []
    case Ul => ListOut(FindItems(raw), o)
    case Ol => ListOut(FindItems(raw), o)
  }

  predicate StartsWith(s: string, prefix: string) {
    ExactAt(s, 0, prefix)
  }

  /** The image bytes: a `data:image` source is decoded from the text after
      its first comma (no comma is a failed unpacking); any other source is
      fetched. */
  function ImageData(src: string, o: Oracles): Option<seq<byte>> {
    if StartsWith(src, "data:image") then
      match FindChar(src, 0, ',')
      case Some(c) => o.b64decode(src[c + 1..])
      case None => None
    else o.fetch(src)
  }

  /** What an image tag appends: spacer, image 14 cm wide, spacer; or
      nothing when the bytes cannot be had or are refused. */
  function ImageOut(src: string, o: Oracles): seq<Flowable> {
    match ImageData(src, o)
    case Some(data) =>
      if o.imageOk(data) then [Spacer(20), Image(data, 1400), Spacer(20)] else []
    case None => []
  }

  /** One turn of the scanner's loop on the rest of the input. */
  datatype Move = Move(len: nat, out: seq<Flowable>)

  function Step(t: string, o: Oracles): (m: Move)
    requires t != []
    ensures 0 < m.len <= |t|
  {
    var w := SpaceRun(t);
    if w > 0 then Move(w, [])
    else match MatchBlock(t)
      case Some(b) => Move(b.elem.end, BlockOut(b.tag, t[b.elem.innerStart..b.elem.innerEnd], o))
      case None =>
        match MatchImg(t)
        case Some(m) => Move(m.end, ImageOut(t[m.srcStart..m.srcEnd], o))
        case None => Move(1, [])
  }

  /** The flowables for the whole input, one step at a time. */
  function Convert(t: string, o: Oracles): seq<Flowable>
    decreases |t|
  {
    if t == [] then [] else var m := Step(t, o); m.out + Convert(t[m.len..], o)
  }

  /** The number of turns the cursor loop takes on `t`. */
  function Turns(t: string, o: Oracles): nat
    decreases |t|
  {
    if t == [] then 0 else 1 + Turns(t[Step(t, o).len..], o)
  }

  /** A run of whitespace is skipped. */
  lemma StepSpace(t: string, o: Oracles)
    requires SpaceRun(t) > 0
    ensures Step(t, o) == Move(SpaceRun(t), [])
  {
  }

  /** A block at the cursor appends its pattern and the scan resumes after
      its closing tag. */
  lemma StepBlock(t: string, o: Oracles)
    requires t != [] && SpaceRun(t) == 0 && MatchBlock(t).Some?
    ensures var b := MatchBlock(t).value;
            Step(t, o) == Move(b.elem.end, BlockOut(b.tag, t[b.elem.innerStart..b.elem.innerEnd], o))
  {
  }

  /** An image tag at the cursor appends the image's pattern and the scan
      resumes after the tag. */
  lemma StepImage(t: string, o: Oracles)
    requires t != [] && SpaceRun(t) == 0 && MatchBlock(t).None? && MatchImg(t).Some?
    ensures var m := MatchImg(t).value;
            Step(t, o) == Move(m.end, ImageOut(t[m.srcStart..m.srcEnd], o))
  {
  }

  /** Anything else moves the cursor one character on. */
  lemma StepOther(t: string, o: Oracles)
    requires t != [] && SpaceRun(t) == 0 && MatchBlock(t).None? && MatchImg(t).None?
    ensures Step(t, o) == Move(1, [])
  {
  }

  // One step's output appended and the cursor moved past it: the scan of
  // the whole input is unchanged.
  lemma Advance(t: string, done: seq<Flowable>, total: seq<Flowable>, o: Oracles)
    requires t != [] && done + Convert(t, o) == total
    ensures var m := Step(t, o); (done + m.out) + Convert(t[m.len..], o) == total
  {
    var m := Step(t, o);
    ConvertStep(t, o);
    Associative(done, m.out, Convert(t[m.len..], o));
  }

  // One turn of the loop keeps its invariant.
  lemma LoopTurn(html: string, pos: nat, flowables: seq<Flowable>, o: Oracles, result: seq<Flowable>, advance: nat)
    requires pos < |html| && flowables + Convert(html[pos..], o) == Convert(html, o)
    requires result == flowables + Step(html[pos..], o).out && advance == Step(html[pos..], o).len
    ensures 0 < advance && pos + advance <= |html| && result + Convert(html[pos + advance..], o) == Convert(html, o)
  {
    Advance(html[pos..], flowables, Convert(html, o), o);
    DropDrop(html, pos, advance);
  }

  lemma ConvertStep(t: string, o: Oracles)
    requires t != []
    ensures var m := Step(t, o); Convert(t, o) == m.out + Convert(t[m.len..], o)
  {
  }

  lemma DropDrop(s: string, a: nat, b: nat)
    requires a + b <= |s|
    ensures s[a..][b..] == s[a + b..]
  {
  }

  lemma Associative(a: seq<Flowable>, b: seq<Flowable>, c: seq<Flowable>)
    ensures a + (b + c) == (a + b) + c
  {
  }

  /** The cursor loop of the source, appending to `flowables` in place. */
  method HtmlToPlatypus(html: string, o: Oracles) returns (flowables: seq<Flowable>, ghost turns: nat)
    ensures flowables == Convert(html, o)
    ensures turns == Turns(html, o) && turns <= |html|
  {
    flowables := [];
    turns := 0;
    var pos := 0;
    LoopStart(html, o);
    while pos < |html|
      invariant pos <= |html| && turns <= pos
      invariant flowables + Convert(html[pos..], o) == Convert(html, o)
      invariant turns + Turns(html[pos..], o) == Turns(html, o)
      decreases |html| - pos
    {
      var advance;
      flowables, advance, turns := ScanAt(html, pos, flowables, turns, o);
      pos := pos + advance;
    }
    NoTurnsLeft(html, pos, o);
  }

  // Before the first turn nothing has been appended or counted.
  lemma LoopStart(html: string, o: Oracles)
    ensures [] + Convert(html[0..], o) == Convert(html, o)
    ensures 0 + Turns(html[0..], o) == Turns(html, o)
  {
    assert html[0..] == html;
  }

  // One turn of the loop is one of the turns `Turns` counts.
  lemma TurnCount(html: string, pos: nat, advance: nat, turns: nat, o: Oracles)
    requires pos < |html| && advance == Step(html[pos..], o).len
    requires turns + Turns(html[pos..], o) == Turns(html, o)
    ensures Turns(html[pos..], o) == 1 + Turns(html[pos + advance..], o)
    ensures turns + 1 + Turns(html[pos + advance..], o) == Turns(html, o)
  {
    DropDrop(html, pos, advance);
  }

  // At the end of the input no turns are left.
  lemma NoTurnsLeft(html: string, pos: nat, o: Oracles)
    requires pos == |html|
    ensures Turns(html[pos..], o) == 0
  {
    assert html[pos..] == [];
  }

  /** One turn of the loop at the cursor: skip whitespace, or append a
      block's or an image's pattern and move past it, or move one character
      on. */
  method ScanAt(html: string, pos: nat, flowables: seq<Flowable>, ghost turns: nat, o: Oracles)
    returns (result: seq<Flowable>, advance: nat, ghost turns': nat)
    requires pos < |html| && flowables + Convert(html[pos..], o) == Convert(html, o)
    requires turns + Turns(html[pos..], o) == Turns(html, o)
    ensures 0 < advance && pos + advance <= |html| && result + Convert(html[pos + advance..], o) == Convert(html, o)
    ensures turns' == turns + 1 && turns' + Turns(html[pos + advance..], o) == Turns(html, o)
  {
    result, advance := ScanRest(html[pos..], flowables, o);
    LoopTurn(html, pos, flowables, o, result, advance);
    TurnCount(html, pos, advance, turns, o);
    turns' := turns + 1;
  }

  method ScanRest(rest: string, flowables: seq<Flowable>, o: Oracles) returns (result: seq<Flowable>, advance: nat)
    requires rest != []
    ensures result == flowables + Step(rest, o).out && advance == Step(rest, o).len
  {
    var ws := SpaceRun(rest);
    if ws > 0 {
      StepSpace(rest, o);
      return flowables, ws;
    }
    var block := MatchBlock(rest);
    if block.Some? {
      var e := block.value.elem;
      StepBlock(rest, o);
      result := AppendBlock(flowables, block.value.tag, rest[e.innerStart..e.innerEnd], o);
      return result, e.end;
    }
    var img := MatchImg(rest);
    if img.Some? {
      StepImage(rest, o);
      result := AppendImage(flowables, rest[img.value.srcStart..img.value.srcEnd], o);
      return result, img.value.end;
    }
    StepOther(rest, o);
    return flowables, 1;
  }

  /** The block branch: clean the inner HTML and append the block's
      pattern, each append as the source makes it. */
  method AppendBlock(flowables: seq<Flowable>, tag: BlockTag, raw: string, o: Oracles)
    returns (result: seq<Flowable>)
    ensures result == flowables + BlockOut(tag, raw, o)
  {
    result := flowables;
    var inner := CleanInner(raw);
    if tag == H1 {
      if o.paragraphOk(inner, H1Style) {
        result := result + [Paragraph(inner, H1Style), Spacer(30)];
      }
    } else if tag == H2 {
      result := result + [Spacer(40)];
      if o.paragraphOk(inner, H2Style) {
        Associative(flowables, [Spacer(40)], [Paragraph(inner, H2Style), Spacer(15)]);
        result := result + [Paragraph(inner, H2Style), Spacer(15)];
      }
    } else if tag == H3 {
      result := result + [Spacer(20)];
      if o.paragraphOk(inner, H3Style) {
        Associative(flowables, [Spacer(20)], [Paragraph(inner, H3Style), Spacer(10)]);
        result := result + [Paragraph(inner, H3Style), Spacer(10)];
      }
    } else if tag == P {
      if inner != [] && o.paragraphOk(inner, BodyStyle) {
        result := result + [Paragraph(inner, BodyStyle), Spacer(15)];
      }
    } else {
      var itemsRaw := FindItems(raw);
      var list := ListItems(itemsRaw, o);
      result := result + list;
    }
  }

  /** The image branch: get the bytes, build the image, append spacer,
      image, spacer; any failure appends nothing. */
  method AppendImage(flowables: seq<Flowable>, src: string, o: Oracles)
    returns (result: seq<Flowable>)
    ensures result == flowables + ImageOut(src, o)
  {
    result := flowables;
    var data: Option<seq<byte>>;
    if StartsWith(src, "data:image") {
      var comma := FindChar(src, 0, ',');
      if comma.Some? {
        data := o.b64decode(src[comma.value + 1..]);
      } else {
        data := None;
      }
    } else {
      data := o.fetch(src);
    }
    if data.Some? && o.imageOk(data.value) {
      result := result + [Spacer(20), Image(data.value, 1400), Spacer(20)];
    }
  }

  /** The `ul`/`ol` branch: build one list item per `<li>`, each cleaned; a
      refused paragraph abandons the whole list. */
  method ListItems(items: seq<string>, o: Oracles) returns (out: seq<Flowable>)
    ensures out == ListOut(items, o)
  {
    var listItems: seq<string> := [];
    var failed := false;
    var i := 0;
    while i < |items| && !failed
      invariant 0 <= i <= |items|
      invariant listItems == CleanAll(items[..i])
      invariant Accepted(listItems, o)
      invariant failed ==> i < |items| && !o.paragraphOk(Clean(items[i]), BodyStyle)
      decreases |items| - i, if failed then 0 else 1
    {
      var item := CleanInner(items[i]);
      if o.paragraphOk(item, BodyStyle) {
        CleanAllSnoc(items, i);
        AcceptedSnoc(listItems, item, o);
        listItems := listItems + [item];
        i := i + 1;
      } else {
        failed := true;
      }
    }
    if !failed {
      assert items[..i] == items;
    } else {
      RefusedItem(items, i, o);
    }
    if !failed && |listItems| > 0 {
      out := [BulletList(listItems), Spacer(20)];
    } else {
      out := [];
    }
  }

  lemma {:induction false} CleanAllLength(items: seq<string>)
    ensures |CleanAll(items)| == |items|
  {
    if items != [] {
      CleanAllLength(items[..|items| - 1]);
    }
  }

  lemma {:induction false} CleanAllAt(items: seq<string>, i: nat)
    requires i < |items|
    ensures |CleanAll(items)| == |items| && CleanAll(items)[i] == Clean(items[i])
  {
    CleanAllLength(items);
    if i < |items| - 1 {
      CleanAllAt(items[..|items| - 1], i);
    }
  }

  lemma CleanAllSnoc(items: seq<string>, i: nat)
    requires i < |items|
    ensures CleanAll(items[..i + 1]) == CleanAll(items[..i]) + [Clean(items[i])]
  {
    assert items[..i + 1][..i] == items[..i];
  }

  lemma AcceptedSnoc(texts: seq<string>, text: string, o: Oracles)
    requires Accepted(texts, o) && o.paragraphOk(text, BodyStyle)
    ensures Accepted(texts + [text], o)
  {
  }

  /** One refused item makes the whole list refused. */
  lemma RefusedItem(items: seq<string>, i: nat, o: Oracles)
    requires i < |items| && !o.paragraphOk(Clean(items[i]), BodyStyle)
    ensures !Accepted(CleanAll(items), o)
  {
    CleanAllAt(items, i);
  }
}
