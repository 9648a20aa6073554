/** The tag-shaped regular expressions shared by the block scanner and the
    inline normaliser, as matchers anchored at the start of a string (the
    converter always matches against the rest of its input, `s[pos:]`). */
module Patterns {
  import opened Text

  /** A tag or pattern name: non-empty, ASCII word characters, lower case
      where it is a letter. */
  predicate IsName(name: string) {
    |name| > 0 && forall i :: 0 <= i < |name| ==> IsWordChar(name[i]) && !('A' <= name[i] <= 'Z')
  }

  function CloseTag(name: string): string {
    "</" + name + ">"
  }

  /** `<name\b[^>]*>` at the start of `t`, ignoring case: the index just past
      the first `>` that follows the name. */
  function MatchOpenTag(t: string, name: string): (r: Option<nat>)
    requires IsName(name)
    ensures r.Some? ==> |t| > 0 && t[0] == '<' && 1 + |name| < r.value <= |t| && t[r.value - 1] == '>'
  {
    if |t| > 0 && t[0] == '<' && CiAt(t, 1, name) && Boundary(t, 1 + |name|) then
      match FindChar(t, 1 + |name|, '>')
      case Some(g) => Some(g + 1)
      case None => None
    else None
  }

  /** The opening tag is the name, ignoring case, at a word boundary, and
      it runs to the first `>` after the name. */
  lemma MatchOpenTagSpec(t: string, name: string)
    requires IsName(name)
    ensures MatchOpenTag(t, name).Some? <==>
            |t| > 0 && t[0] == '<' && CiAt(t, 1, name) && Boundary(t, 1 + |name|)
            && exists g :: 1 + |name| <= g < |t| && t[g] == '>'
    ensures MatchOpenTag(t, name).Some? ==>
            var e := MatchOpenTag(t, name).value;
            t[e - 1] == '>' && forall j :: 1 + |name| <= j < e - 1 ==> t[j] != '>'
  {
    if |t| > 0 && t[0] == '<' && CiAt(t, 1, name) && Boundary(t, 1 + |name|) {
      if FindChar(t, 1 + |name|, '>').None? {
        assert forall g :: 1 + |name| <= g < |t| ==> t[g] != '>';
      }
    }
  }

  /** Where a `<name ...>inner</name>` element sits at the start of a string. */
  datatype Element = Element(innerStart: nat, innerEnd: nat, end: nat)

  /** `<name\b[^>]*>(.*?)</name>` with DOTALL and IGNORECASE at the start of
      `t`: the inner span runs up to the FIRST closing tag of that name. */
  function MatchElement(t: string, name: string): (r: Option<Element>)
    requires IsName(name)
    ensures r.Some? ==> MatchOpenTag(t, name) == Some(r.value.innerStart)
    ensures r.Some? ==> r.value.innerStart <= r.value.innerEnd
    ensures r.Some? ==> r.value.end == r.value.innerEnd + |CloseTag(name)| <= |t|
  {
    match MatchOpenTag(t, name)
    case None => None
    case Some(s) =>
      match FindCi(t, s, CloseTag(name))
      case None => None
      case Some(k) => Some(Element(s, k, k + |CloseTag(name)|))
  }

  /** The element ends at the first closing tag after the opening tag, and
      there is no element exactly when there is no opening tag or no closing
      tag after it. */
  lemma MatchElementSpec(t: string, name: string)
    requires IsName(name)
    ensures var r := MatchElement(t, name);
            r.Some? ==> CiAt(t, r.value.innerEnd, CloseTag(name))
                        && forall j :: r.value.innerStart <= j < r.value.innerEnd ==> !CiAt(t, j, CloseTag(name))
    ensures MatchElement(t, name).None? <==>
            MatchOpenTag(t, name).None? || FindCi(t, MatchOpenTag(t, name).value, CloseTag(name)).None?
  {
  }

  /** Attribute text that can follow a tag name: no `>`, and it does not
      continue the name (empty, or starting with a non-word character). */
  predicate AttrText(attrs: string) {
    '>' !in attrs && (attrs == [] || !IsWordChar(attrs[0]))
  }

  /** The closing tag of `name` does not occur anywhere in `s`. */
  predicate NoCloseIn(s: string, name: string) {
    forall j :: 0 <= j <= |s| ==> !CiAt(s, j, CloseTag(name))
  }

  function OpenText(name: string, attrs: string): string {
    "<" + name + attrs + ">"
  }

  lemma OpenTextChars(name: string, attrs: string)
    ensures var o := OpenText(name, attrs);
            |o| == 2 + |name| + |attrs| && o[0] == '<' && o[|o| - 1] == '>'
            && (forall k :: 0 <= k < |name| ==> o[1 + k] == name[k])
            && (forall k :: 0 <= k < |attrs| ==> o[1 + |name| + k] == attrs[k])
  {
  }

  lemma CloseTagChars(name: string)
    requires IsName(name)
    ensures var c := CloseTag(name);
            |c| == 3 + |name| && c[0] == '<' && forall k :: 1 <= k < |c| ==> c[k] != '<'
  {
    var c := CloseTag(name);
    forall k | 1 <= k < |c|
      ensures c[k] != '<'
    {
      if 2 <= k < 2 + |name| {
        assert c[k] == name[k - 2];
      }
    }
  }

  /** The opening tag found from the facts that define it. */
  lemma OpenTagFrom(t: string, name: string, g: nat)
    requires IsName(name) && |t| > 0 && t[0] == '<' && CiAt(t, 1, name)
    requires IsWordChar(t[|name|])
    requires 1 + |name| <= g < |t| && t[g] == '>' && (g == 1 + |name| || !IsWordChar(t[1 + |name|]))
    requires forall j :: 1 + |name| <= j < g ==> t[j] != '>'
    ensures MatchOpenTag(t, name) == Some(g + 1)
  {
    assert Boundary(t, 1 + |name|);
  }

  /** A literal `<name attrs>` is recognised as an opening tag. */
  lemma OpenTagAt(t: string, name: string, attrs: string)
    requires IsName(name) && AttrText(attrs) && ExactAt(t, 0, OpenText(name, attrs))
    ensures MatchOpenTag(t, name) == Some(|OpenText(name, attrs)|)
  {
    var o := OpenText(name, attrs);
    OpenTextChars(name, attrs);
    var g := |o| - 1;
    assert ExactAt(t, 1, name) by {
      forall k | 0 <= k < |name|
        ensures t[1 + k] == name[k]
      {
        assert t[0 + (1 + k)] == o[1 + k];
      }
    }
    CiOfExact(t, 1, name);
    assert t[0 + |name|] == o[|name|] == name[|name| - 1];
    assert t[0 + g] == o[g];
    if attrs != [] {
      assert t[0 + (1 + |name|)] == o[1 + |name| + 0];
    }
    forall j | 1 + |name| <= j < g
      ensures t[j] != '>'
    {
      assert t[0 + j] == o[1 + |name| + (j - 1 - |name|)] == attrs[j - 1 - |name|];
    }
    OpenTagFrom(t, name, g);
  }

  /** The search result is the first index where the literal matches. */
  lemma FindCiIs(t: string, from: nat, lit: string, k: nat)
    requires from <= k && CiAt(t, k, lit)
    requires forall j :: from <= j < k ==> !CiAt(t, j, lit)
    ensures FindCi(t, from, lit) == Some(k)
  {
  }

  /** No closing tag starts at `j` in `t`, where `s` occurs at `a`, `j` lies
      in `s`, a `<` sits just after `s`, and `s` has no closing tag. */
  lemma NoCloseAt(t: string, a: nat, s: string, j: nat, name: string)
    requires IsName(name) && ExactAt(t, a, s) && NoCloseIn(s, name)
    requires a + |s| < |t| && t[a + |s|] == '<' && a <= j < a + |s|
    ensures !CiAt(t, j, CloseTag(name))
  {
    var close := CloseTag(name);
    CloseTagChars(name);
    if j + |close| <= a + |s| {
      assert !CiAt(s, j - a, close);
      var m :| 0 <= m < |close| && !CiChar(s[j - a + m], close[m]);
      assert t[a + (j - a + m)] == s[j - a + m];
    } else {
      var k := a + |s| - j;
      assert t[j + k] == '<' && close[k] != '<';
      assert !CiChar(t[j + k], close[k]);
    }
  }

  /** A literal `<name attrs>inner</name>` with no closing tag inside is
      matched as one element whose inner span is exactly `inner`. */
  lemma ElementAt(t: string, name: string, attrs: string, inner: string)
    requires IsName(name) && AttrText(attrs) && NoCloseIn(inner, name)
    requires ExactAt(t, 0, OpenText(name, attrs) + inner + CloseTag(name))
    ensures var a := |OpenText(name, attrs)|;
            MatchElement(t, name) == Some(Element(a, a + |inner|, a + |inner| + |CloseTag(name)|))
  {
    var open := OpenText(name, attrs);
    ExactAtSplit(t, 0, open + inner, CloseTag(name));
    ExactAtSplit(t, 0, open, inner);
    OpenTagAt(t, name, attrs);
    CloseFound(t, |open|, inner, name);
  }

  /** The search for the closing tag from the start of `inner` stops right
      after it. */
  lemma CloseFound(t: string, a: nat, inner: string, name: string)
    requires IsName(name) && ExactAt(t, a, inner) && NoCloseIn(inner, name)
    requires ExactAt(t, a + |inner|, CloseTag(name))
    ensures FindCi(t, a, CloseTag(name)) == Some(a + |inner|)
  {
    var close := CloseTag(name);
    CloseTagChars(name);
    CiOfExact(t, a + |inner|, close);
    assert t[a + |inner| + 0] == '<';
    forall j | a <= j < a + |inner|
      ensures !CiAt(t, j, close)
    {
      NoCloseAt(t, a, inner, j, name);
    }
    FindCiIs(t, a, close, a + |inner|);
  }

  /** The same element seen from the substitution: it ends just past the
      closing tag and its inner span is `inner`. */
  lemma ElementInner(t: string, name: string, attrs: string, inner: string)
    requires IsName(name) && AttrText(attrs) && NoCloseIn(inner, name)
    requires ExactAt(t, 0, OpenText(name, attrs) + inner + CloseTag(name))
    ensures MatchElement(t, name).Some?
    ensures var e := MatchElement(t, name).value;
            e.end == |OpenText(name, attrs) + inner + CloseTag(name)| && t[e.innerStart..e.innerEnd] == inner
  {
    ElementAt(t, name, attrs, inner);
    ExactAtSplit(t, 0, OpenText(name, attrs) + inner, CloseTag(name));
    ExactAtSplit(t, 0, OpenText(name, attrs), inner);
    ExactAtSlice(t, |OpenText(name, attrs)|, inner);
  }
}
