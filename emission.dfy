/** What one recognised block or image appends (main.py:269-309, 317-341),
    stated as properties of the patterns rather than as the patterns. */
module Emission {
  import opened Text
  import opened Normalizer
  import opened Patterns
  import opened Scanner
  import opened ScannerFacts

  /** The cleaned items are the items, each through `clean_inner`, in order. */
  lemma CleanAllItems(items: seq<string>)
    ensures |CleanAll(items)| == |items|
    ensures forall k :: 0 <= k < |items| ==> CleanAll(items)[k] == Clean(items[k])
  {
    CleanAllLength(items);
    forall k | 0 <= k < |items|
      ensures CleanAll(items)[k] == Clean(items[k])
    {
      CleanAllAt(items, k);
    }
  }

  /** A list block emits something exactly when it has items and ReportLab
      accepts every cleaned item; what it emits then is one bullet list of
      all the cleaned items, in order, and a 0.2 cm spacer. No items emit
      neither list nor spacer. */
  lemma ListOutShape(items: seq<string>, o: Oracles)
    ensures items == [] ==> ListOut(items, o) == []
    ensures ListOut(items, o) != [] <==>
              items != [] && forall k :: 0 <= k < |items| ==> o.paragraphOk(Clean(items[k]), BodyStyle)
    ensures ListOut(items, o) != [] ==>
              |ListOut(items, o)| == 2 && ListOut(items, o)[1] == Spacer(20)
              && ListOut(items, o)[0].BulletList? && |ListOut(items, o)[0].items| == |items|
              && forall k :: 0 <= k < |items| ==> ListOut(items, o)[0].items[k] == Clean(items[k])
  {
    CleanAllItems(items);
    var cleaned := CleanAll(items);
    if items != [] && forall k :: 0 <= k < |items| ==> o.paragraphOk(Clean(items[k]), BodyStyle) {
      assert Accepted(cleaned, o) by {
        forall k | 0 <= k < |cleaned|
          ensures o.paragraphOk(cleaned[k], BodyStyle)
        {
          assert cleaned[k] == Clean(items[k]);
        }
      }
    }
    if ListOut(items, o) != [] {
      forall k | 0 <= k < |items|
        ensures o.paragraphOk(Clean(items[k]), BodyStyle)
      {
        assert cleaned[k] == Clean(items[k]);
      }
    }
  }

  /** A heading `h1` emits its paragraph and a 0.3 cm spacer, or nothing
      when the paragraph is refused. */
  lemma HeadingOne(raw: string, o: Oracles)
    ensures var out := BlockOut(H1, raw, o);
            (o.paragraphOk(Clean(raw), H1Style) ==> out == [Paragraph(Clean(raw), H1Style), Spacer(30)])
            && (!o.paragraphOk(Clean(raw), H1Style) ==> out == [])
  {
  }

  /** In a whole document, an `h1` block at the cursor emits its paragraph
      and a 0.3 cm spacer, or nothing when the paragraph is refused, and the
      scan goes on after its closing tag. */
  lemma HeadingOneBlock(attrs: string, inner: string, rest: string, o: Oracles)
    requires AttrText(attrs) && NoCloseIn(inner, "h1")
    ensures Convert(OpenText("h1", attrs) + inner + CloseTag("h1") + rest, o)
            == (if o.paragraphOk(Clean(inner), H1Style) then [Paragraph(Clean(inner), H1Style), Spacer(30)] else [])
               + Convert(rest, o)
  {
    ScanBlock(H1, attrs, inner, rest, o);
    HeadingOne(inner, o);
  }

  /** `h2` and `h3` append their leading spacer before the paragraph is
      built, so it stays when the paragraph is refused: the output always
      starts with that spacer, and it is the spacer alone exactly when the
      paragraph is refused. */
  lemma HeadingSpacerStays(tag: BlockTag, raw: string, o: Oracles)
    requires tag == H2 || tag == H3
    ensures var out := BlockOut(tag, raw, o);
            var style := if tag == H2 then H2Style else H3Style;
            out != [] && out[0] == Spacer(if tag == H2 then 40 else 20)
            && (|out| == 1 <==> !o.paragraphOk(Clean(raw), style))
            && (o.paragraphOk(Clean(raw), style) ==>
                  out[1..] == [Paragraph(Clean(raw), style), Spacer(if tag == H2 then 15 else 10)])
  {
  }

  /** In a whole document, an `h2` or `h3` block at the cursor emits its
      spacer first; when the paragraph is refused, that spacer is all it
      leaves before the scan of what follows. */
  lemma HeadingBlockKeepsSpacer(tag: BlockTag, attrs: string, inner: string, rest: string, o: Oracles)
    requires tag == H2 || tag == H3
    requires AttrText(attrs) && NoCloseIn(inner, TagName(tag))
    ensures var out := Convert(OpenText(TagName(tag), attrs) + inner + CloseTag(TagName(tag)) + rest, o);
            var lead := Spacer(if tag == H2 then 40 else 20);
            out != [] && out[0] == lead
            && (!o.paragraphOk(Clean(inner), if tag == H2 then H2Style else H3Style) ==>
                  out == [lead] + Convert(rest, o))
  {
    ScanBlock(tag, attrs, inner, rest, o);
    HeadingSpacerStays(tag, inner, o);
  }

  /** A `p` whose cleaned inner text is empty emits nothing; any other emits
      its paragraph and a 0.15 cm spacer, or nothing when it is refused. */
  lemma ParagraphPattern(raw: string, o: Oracles)
    ensures Clean(raw) == [] ==> BlockOut(P, raw, o) == []
    ensures BlockOut(P, raw, o) != [] <==> Clean(raw) != [] && o.paragraphOk(Clean(raw), BodyStyle)
    ensures BlockOut(P, raw, o) != [] ==> BlockOut(P, raw, o) == [Paragraph(Clean(raw), BodyStyle), Spacer(15)]
  {
  }

  /** In a whole document, a `p` block at the cursor emits its cleaned text
      and a 0.15 cm spacer, or nothing when that text is empty or refused,
      and the scan goes on after its closing tag. */
  lemma ParagraphBlock(attrs: string, inner: string, rest: string, o: Oracles)
    requires AttrText(attrs) && NoCloseIn(inner, "p")
    ensures Convert(OpenText("p", attrs) + inner + CloseTag("p") + rest, o)
            == (if Clean(inner) != [] && o.paragraphOk(Clean(inner), BodyStyle)
                then [Paragraph(Clean(inner), BodyStyle), Spacer(15)] else [])
               + Convert(rest, o)
  {
    ScanBlock(P, attrs, inner, rest, o);
    ParagraphPattern(inner, o);
  }

  /** An image emits something exactly when its bytes can be had and
      ReportLab accepts them; then it is a 0.2 cm spacer, the image 14 cm
      wide, and another 0.2 cm spacer. */
  lemma ImageOutCases(src: string, o: Oracles)
    ensures ImageOut(src, o) != [] <==> ImageData(src, o).Some? && o.imageOk(ImageData(src, o).value)
    ensures ImageOut(src, o) != [] ==>
              ImageOut(src, o) == [Spacer(20), Image(ImageData(src, o).value, 1400), Spacer(20)]
    ensures !StartsWith(src, "data:image") ==> ImageData(src, o) == o.fetch(src)
  {
  }

  /** In a whole document, an image tag at the cursor emits a 0.2 cm spacer,
      the image 14 cm wide and another spacer when its bytes are obtained and
      accepted, nothing otherwise, and the scan goes on after the tag. */
  lemma ImageTag(pre: string, src: string, post: string, rest: string, o: Oracles)
    requires ImgParts(pre, src, post)
    ensures var data := ImageData(src, o);
            Convert(ImgText(pre, src, post) + rest, o)
            == (if data.Some? && o.imageOk(data.value)
                then [Spacer(20), Image(data.value, 1400), Spacer(20)] else [])
               + Convert(rest, o)
  {
    ScanImage(pre, src, post, rest, o);
    ImageOutCases(src, o);
  }

  /** A `data:image` source is decoded from the text after its first comma. */
  lemma DataImageAfterFirstComma(src: string, c: nat, o: Oracles)
    requires StartsWith(src, "data:image")
    requires c < |src| && src[c] == ','
    requires forall j :: 0 <= j < c ==> src[j] != ','
    ensures ImageData(src, o) == o.b64decode(src[c + 1..])
  {
    var f := FindChar(src, 0, ',');
    assert f.Some? && f.value == c;
  }

  /** A `data:image` source without a comma appends nothing. */
  lemma DataImageWithoutComma(src: string, o: Oracles)
    requires StartsWith(src, "data:image")
    requires forall j :: 0 <= j < |src| ==> src[j] != ','
    ensures ImageData(src, o) == None && ImageOut(src, o) == []
  {
    var f := FindChar(src, 0, ',');
    assert f.None?;
  }
}
