/** The tag vocabulary `clean_inner` leaves for ReportLab (main.py:227-236):
    what the seven tag rewrites do to a single tag standing between two
    pieces of plain text. */
module Vocabulary {
  import opened Text
  import opened Patterns
  import opened Normalizer

  /** Text with no tag and no entity in it. */
  predicate PlainText(s: string) {
    '<' !in s && '&' !in s
  }

  /** A character that ends a tag name: whitespace before the attributes,
      the slash of a self-closing tag, or the closing bracket. */
  predicate NameStop(c: char) {
    IsSpace(c) || c == '/' || c == '>'
  }

  /** Attribute text of an opening tag as an editor writes it: separated
      from the name by whitespace or a slash, and holding no bracket and
      no entity. */
  predicate TagAttrs(attrs: string) {
    '<' !in attrs && '>' !in attrs && '&' !in attrs && (attrs == [] || IsSpace(attrs[0]) || attrs[0] == '/')
  }

  // ---------------------------------------------------------------------
  // One substitution over one tag

  /** A tag rewrite that does not match at the tag copies the text. */
  lemma PassTag(rule: Rule, a: string, tag: string, b: string)
    requires Lead(rule) == '<' && '<' !in a && '<' !in b
    requires |tag| > 0 && '<' !in tag[1..]
    requires MatchRule(rule, tag + b).None?
    ensures Sub(rule, a + tag + b) == a + tag + b
  {
    var t := tag + b;
    assert a + tag + b == a + t;
    SubSkipsLeadFree(rule, a, t);
    assert t[1..] == tag[1..] + b;
    SubIdentity(rule, t[1..]);
    assert t == [t[0]] + t[1..];
  }

  /** A tag rewrite that matches the whole tag replaces it. */
  lemma HitTag(rule: Rule, a: string, tag: string, b: string, out: string)
    requires Lead(rule) == '<' && '<' !in a && '<' !in b
    requires MatchRule(rule, tag + b) == Some(Hit(|tag|, out))
    ensures Sub(rule, a + tag + b) == a + out + b
  {
    HitSuffix(rule, tag, b, out);
    SubAfterPrefix(rule, a, tag, out, b);
  }

  /** A tag rewrite that deletes the whole tag. */
  lemma DropTag(rule: Rule, a: string, tag: string, b: string)
    requires Lead(rule) == '<' && '<' !in a && '<' !in b
    requires MatchRule(rule, tag + b) == Some(Hit(|tag|, ""))
    ensures Sub(rule, a + tag + b) == a + b
  {
    HitTag(rule, a, tag, b, "");
    JoinEmpty(a, b);
  }

  lemma JoinEmpty(a: string, b: string)
    ensures a + "" + b == a + b
  {
    assert a + "" == a;
  }

  /** Text without the rule's lead character in front of a rewrite. */
  lemma SubAfterPrefix(rule: Rule, a: string, x: string, z: string, y: string)
    requires Lead(rule) !in a && Sub(rule, x + y) == z + y
    ensures Sub(rule, a + x + y) == a + z + y
  {
    assert a + x + y == a + (x + y);
    SubSkipsLeadFree(rule, a, x + y);
    assert a + (z + y) == a + z + y;
  }

  lemma HitSuffix(rule: Rule, tag: string, b: string, out: string)
    requires Lead(rule) == '<' && '<' !in b
    requires MatchRule(rule, tag + b) == Some(Hit(|tag|, out))
    ensures Sub(rule, tag + b) == out + b
  {
    var t := tag + b;
    assert Sub(rule, t) == out + Sub(rule, t[|tag|..]);
    assert t[|tag|..] == b;
    SubIdentity(rule, b);
  }

  /** After the tag rewrites, text without `&` is only trimmed. */
  lemma CleanAfterTags(s: string, u: string)
    requires TagSteps(s) == u && '&' !in u
    ensures Clean(s) == Trim(u)
  {
    DecodeAmpFree(u);
    SubIdentity(EscapeAmp, u);
  }

  // ---------------------------------------------------------------------
  // Reading tag names

  lemma NotCiAt(t: string, i: nat, lit: string, j: nat)
    requires j < |lit| && i + j < |t| && !CiChar(t[i + j], lit[j])
    ensures !CiAt(t, i, lit)
  {
  }

  /** A name-ending character never matches a name character. */
  lemma StopNotCi(c: char, p: char)
    requires NameStop(c) && IsWordChar(p)
    ensures !CiChar(c, p)
  {
  }

  /** Characters of a lower-case name match only themselves. */
  lemma NameCharCi(c: char, p: char)
    requires IsWordChar(c) && !('A' <= c <= 'Z') && IsWordChar(p) && !('A' <= p <= 'Z') && CiChar(c, p)
    ensures c == p
  {
  }

  lemma NameChar(t: string, q: nat, name: string, k: nat)
    requires IsName(name) && ExactAt(t, q, name) && k < |name|
    ensures q + k < |t| && t[q + k] == name[k] && IsWordChar(t[q + k]) && !('A' <= t[q + k] <= 'Z')
  {
  }

  /** A name written at `q` and ended by a name-ending character is not
      the start of a longer name. */
  lemma NoLongerName(t: string, q: nat, name: string, lit: string)
    requires IsName(name) && IsName(lit) && ExactAt(t, q, name) && q + |name| < |t| && NameStop(t[q + |name|])
    requires |lit| > |name|
    ensures !CiAt(t, q, lit)
  {
    StopNotCi(t[q + |name|], lit[|name|]);
    NotCiAt(t, q, lit, |name|);
  }

  /** A name of the same length that matches ignoring case is the name. */
  lemma SameName(t: string, q: nat, name: string, lit: string)
    requires IsName(name) && IsName(lit) && ExactAt(t, q, name) && |lit| == |name| && CiAt(t, q, lit)
    ensures lit == name
  {
    forall k | 0 <= k < |name|
      ensures lit[k] == name[k]
    {
      NameChar(t, q, name, k);
      NameCharCi(t[q + k], lit[k]);
    }
  }

  /** The name at `q` is the only one that matches there followed by a word
      boundary. */
  lemma NameAt(t: string, q: nat, name: string, lit: string)
    requires 0 < q && IsName(name) && IsName(lit) && ExactAt(t, q, name) && q + |name| < |t| && NameStop(t[q + |name|])
    ensures CiAt(t, q, lit) && Boundary(t, q + |lit|) ==> lit == name
  {
    if |lit| > |name| {
      NoLongerName(t, q, name, lit);
    } else if |lit| < |name| {
      NameChar(t, q, name, |lit| - 1);
      NameChar(t, q, name, |lit|);
    } else if CiAt(t, q, lit) {
      SameName(t, q, name, lit);
    }
  }

  /** Only an opening tag of that very name matches `<lit\b[^>]*>`. */
  lemma OpenTagNames(t: string, name: string, attrs: string, lit: string)
    requires IsName(name) && IsName(lit) && TagAttrs(attrs) && ExactAt(t, 0, OpenText(name, attrs))
    ensures MatchOpenTag(t, lit).Some? ==> lit == name
  {
    OpenNameStop(t, name, attrs);
    NameAt(t, 1, name, lit);
  }

  /** The name of an opening tag is written at 1 and ended by a
      name-ending character. */
  lemma OpenNameStop(t: string, name: string, attrs: string)
    requires IsName(name) && TagAttrs(attrs) && ExactAt(t, 0, OpenText(name, attrs))
    ensures ExactAt(t, 1, name) && 1 + |name| < |t| && NameStop(t[1 + |name|])
    ensures t[0] == '<' && t[1] != '/'
  {
    var o := OpenText(name, attrs);
    OpenTextChars(name, attrs);
    forall k | 0 <= k < |name|
      ensures t[1 + k] == name[k]
    {
      assert t[0 + (1 + k)] == o[1 + k];
    }
    assert t[0 + (1 + |name|)] == o[1 + |name|];
    if attrs != [] {
      assert o[1 + |name|] == attrs[0];
    }
    assert t[0 + 0] == o[0];
    assert t[0 + 1] == o[1] == name[0];
  }

  /** The name of a closing tag is written at 2 and ended by `>`. */
  lemma CloseNameStop(t: string, name: string)
    requires IsName(name) && ExactAt(t, 0, CloseTag(name))
    ensures ExactAt(t, 2, name) && 2 + |name| < |t| && t[2 + |name|] == '>'
    ensures t[0] == '<' && t[1] == '/'
  {
    var c := CloseTag(name);
    forall k | 0 <= k < |name|
      ensures t[2 + k] == name[k]
    {
      assert t[0 + (2 + k)] == c[2 + k];
    }
    assert t[0 + (2 + |name|)] == c[2 + |name|];
    assert t[0 + 0] == c[0] && t[0 + 1] == c[1];
  }

  /** Only a closing tag of that very name matches `</lit>`. */
  lemma CloseTagNames(t: string, name: string, lit: string)
    requires IsName(name) && IsName(lit) && ExactAt(t, 0, CloseTag(name))
    ensures CiAt(t, 0, CloseTag(lit)) ==> lit == name
  {
    CloseNameStop(t, name);
    if CiAt(t, 0, CloseTag(lit)) {
      var c := CloseTag(lit);
      assert CiAt(t, 2, lit) by {
        forall k | 0 <= k < |lit|
          ensures CiChar(t[2 + k], lit[k])
        {
          assert CiChar(t[0 + (2 + k)], c[2 + k]);
        }
      }
      if |lit| > |name| {
        NoLongerName(t, 2, name, lit);
      } else if |lit| < |name| {
        assert CiChar(t[0 + (2 + |lit|)], c[2 + |lit|]);
        NameChar(t, 2, name, |lit|);
      } else {
        SameName(t, 2, name, lit);
      }
    }
  }

  /** `(?:b|i|br/?)\b` matches at a name followed by a name-ending
      character only when the name is `b`, `i` or `br`. */
  lemma InlineNameIs(t: string, q: nat, name: string)
    requires 0 < q && IsName(name) && ExactAt(t, q, name) && q + |name| < |t| && NameStop(t[q + |name|])
    ensures InlineNameAt(t, q) ==> name == "b" || name == "i" || name == "br"
  {
    NameAt(t, q, name, "b");
    NameAt(t, q, name, "i");
    NameAt(t, q, name, "br");
    if CiAt(t, q, "br") && q + 2 < |t| && t[q + 2] == '/' {
      assert CiChar(t[q + 1], "br"[1]);
      assert Boundary(t, q + 2);
    }
  }

  /** No `</...>` closing tag can be found in text without `<`. */
  lemma FindCiNone(t: string, from: nat, lit: string)
    requires |lit| > 0 && lit[0] == '<' && from <= |t| && '<' !in t[from..]
    ensures FindCi(t, from, lit).None?
  {
    forall j | from <= j
      ensures !CiAt(t, j, lit)
    {
      if j < |t| {
        assert t[j] == t[from..][j - from];
        NotCiAt(t, j, lit, 0);
      }
    }
  }

  // ---------------------------------------------------------------------
  // The tags ReportLab is given

  /** The tags `clean_inner` produces and keeps. */
  predicate KeptTag(out: string) {
    out == "<b>" || out == "</b>" || out == "<i>" || out == "</i>" || out == "<br/>"
  }

  /** No tag rewrite but the break rule matches a kept tag, and the break
      rule rewrites `<br/>` to itself. */
  lemma KeptTagMatches(rule: Rule, out: string, b: string)
    requires Lead(rule) == '<' && KeptTag(out)
    ensures MatchRule(rule, out + b).None? || MatchRule(rule, out + b) == Some(Hit(|out|, out))
  {
    if out == "<b>" || out == "<i>" {
      KeptOpenMatches(rule, out, b);
    } else if out == "</b>" || out == "</i>" {
      KeptCloseMatches(rule, out, b);
    } else {
      KeptBreakMatches(rule, b);
    }
  }

  /** `<b>` and `<i>`: too short for every name-matching rule. */
  lemma KeptOpenMatches(rule: Rule, out: string, b: string)
    requires Lead(rule) == '<' && (out == "<b>" || out == "<i>")
    ensures MatchRule(rule, out + b).None?
  {
    var t := out + b;
    assert t[0] == '<' && t[1] == out[1] && t[2] == '>';
    match rule
    case UnwrapSpan => NotCiAt(t, 1, "span", 0);
    case OpenStrong => NotCiAt(t, 1, "strong", 0);
    case CloseStrong => NotCiAt(t, 0, "</strong>", 1);
    case OpenEm => NotCiAt(t, 1, "em", 0);
    case CloseEm => NotCiAt(t, 0, "</em>", 1);
    case CanonicalBreak => NotCiAt(t, 1, "br", 1);
    case StripOtherTags =>
      assert CiChar(t[1 + 0], out[1]);
      assert Boundary(t, 2);
    case _ =>
  }

  /** `</b>` and `</i>`: a slash where the opening rules want a name, and
      a name the closing rules do not have. */
  lemma KeptCloseMatches(rule: Rule, out: string, b: string)
    requires Lead(rule) == '<' && (out == "</b>" || out == "</i>")
    ensures MatchRule(rule, out + b).None?
  {
    var t := out + b;
    assert t[0] == '<' && t[1] == '/' && t[2] == out[2] && t[3] == '>';
    match rule
    case UnwrapSpan => NotCiAt(t, 1, "span", 0);
    case OpenStrong => NotCiAt(t, 1, "strong", 0);
    case CloseStrong => NotCiAt(t, 0, "</strong>", 2);
    case OpenEm => NotCiAt(t, 1, "em", 0);
    case CloseEm => NotCiAt(t, 0, "</em>", 2);
    case CanonicalBreak => NotCiAt(t, 1, "br", 0);
    case StripOtherTags =>
      assert CiChar(t[2 + 0], out[2]);
      assert Boundary(t, 3);
    case _ =>
  }

  /** `<br/>`: only the break rule matches, and it rewrites the tag to
      itself. */
  lemma KeptBreakMatches(rule: Rule, b: string)
    requires Lead(rule) == '<'
    ensures MatchRule(rule, "<br/>" + b).None? || MatchRule(rule, "<br/>" + b) == Some(Hit(5, "<br/>"))
  {
    var t := "<br/>" + b;
    assert t[0] == '<' && t[1] == 'b' && t[2] == 'r' && t[3] == '/' && t[4] == '>';
    match rule
    case UnwrapSpan => NotCiAt(t, 1, "span", 0);
    case OpenStrong => NotCiAt(t, 1, "strong", 0);
    case CloseStrong => NotCiAt(t, 0, "</strong>", 1);
    case OpenEm => NotCiAt(t, 1, "em", 0);
    case CloseEm => NotCiAt(t, 0, "</em>", 1);
    case CanonicalBreak =>
      assert CiChar(t[1 + 0], "br"[0]) && CiChar(t[1 + 1], "br"[1]);
      assert t[3..][0] == '/';
    case StripOtherTags =>
      assert CiChar(t[1 + 0], "br"[0]) && CiChar(t[1 + 1], "br"[1]);
      assert Boundary(t, 3);
    case _ =>
  }

  /** A kept tag passes every tag rewrite unchanged. */
  lemma KeptTagStays(rule: Rule, a: string, out: string, b: string)
    requires Lead(rule) == '<' && KeptTag(out) && '<' !in a && '<' !in b
    ensures Sub(rule, a + out + b) == a + out + b
  {
    KeptTagMatches(rule, out, b);
    if MatchRule(rule, out + b).None? {
      assert out[1..] == out[1..|out|];
      PassTag(rule, a, out, b);
    } else {
      HitTag(rule, a, out, b, out);
    }
  }

  /** The seven tag rewrites, one result after the other. */
  lemma TagChain(s0: string, s1: string, s2: string, s3: string, s4: string, s5: string, s6: string, s7: string)
    requires Sub(UnwrapSpan, s0) == s1 && Sub(OpenStrong, s1) == s2 && Sub(CloseStrong, s2) == s3
    requires Sub(OpenEm, s3) == s4 && Sub(CloseEm, s4) == s5 && Sub(CanonicalBreak, s5) == s6
    requires Sub(StripOtherTags, s6) == s7
    ensures TagSteps(s0) == s7
  {
  }

  /** A tag that only the tag stripper matches, and that it deletes
      whole: the seven rewrites remove it and nothing else. */
  lemma DroppedTag(a: string, tag: string, b: string)
    requires '<' !in a && '<' !in b && |tag| > 0 && '<' !in tag[1..]
    requires MatchRule(UnwrapSpan, tag + b).None? && MatchRule(OpenStrong, tag + b).None?
    requires MatchRule(CloseStrong, tag + b).None? && MatchRule(OpenEm, tag + b).None?
    requires MatchRule(CloseEm, tag + b).None? && MatchRule(CanonicalBreak, tag + b).None?
    requires MatchRule(StripOtherTags, tag + b) == Some(Hit(|tag|, ""))
    ensures TagSteps(a + tag + b) == a + b
  {
    var s := a + tag + b;
    EarlyPass(a, tag, b);
    LatePass(a, tag, b);
    DropTag(StripOtherTags, a, tag, b);
    TagChain(s, s, s, s, s, s, s, a + b);
  }

  lemma EarlyPass(a: string, tag: string, b: string)
    requires '<' !in a && '<' !in b && |tag| > 0 && '<' !in tag[1..]
    requires MatchRule(UnwrapSpan, tag + b).None? && MatchRule(OpenStrong, tag + b).None?
    requires MatchRule(CloseStrong, tag + b).None?
    ensures var s := a + tag + b;
            Sub(UnwrapSpan, s) == s && Sub(OpenStrong, s) == s && Sub(CloseStrong, s) == s
  {
    PassTag(UnwrapSpan, a, tag, b);
    PassTag(OpenStrong, a, tag, b);
    PassTag(CloseStrong, a, tag, b);
  }

  lemma LatePass(a: string, tag: string, b: string)
    requires '<' !in a && '<' !in b && |tag| > 0 && '<' !in tag[1..]
    requires MatchRule(OpenEm, tag + b).None? && MatchRule(CloseEm, tag + b).None?
    requires MatchRule(CanonicalBreak, tag + b).None?
    ensures var s := a + tag + b;
            Sub(OpenEm, s) == s && Sub(CloseEm, s) == s && Sub(CanonicalBreak, s) == s
  {
    PassTag(OpenEm, a, tag, b);
    PassTag(CloseEm, a, tag, b);
    PassTag(CanonicalBreak, a, tag, b);
  }

  // ---------------------------------------------------------------------
  // Opening tags

  /** The facts about an opening tag in front of plain text that every
      case below needs. */
  lemma OpenTagShape(name: string, attrs: string, b: string)
    requires IsName(name) && TagAttrs(attrs) && '<' !in b
    ensures var tag := OpenText(name, attrs);
            ExactAt(tag + b, 0, tag) && |tag| > 0 && '<' !in tag[1..] && '&' !in tag[1..]
            && AttrText(attrs)
  {
    var tag := OpenText(name, attrs);
    ExactAtPrefix(tag, b);
    assert tag[1..] == name + attrs + ">";
    forall k | 0 <= k < |name|
      ensures name[k] != '<' && name[k] != '&'
    {
      assert IsWordChar(name[k]);
    }
  }

  /** The first six tag rewrites leave an opening tag `<name ...>` alone
      when it is neither a closed `span` nor a tag they rewrite. */
  lemma OtherOpenPasses(name: string, attrs: string, b: string)
    requires IsName(name) && TagAttrs(attrs) && '<' !in b
    requires name != "br" && name != "strong" && name != "em"
    ensures var t := OpenText(name, attrs) + b;
            MatchRule(UnwrapSpan, t).None? && MatchRule(OpenStrong, t).None? && MatchRule(CloseStrong, t).None?
            && MatchRule(OpenEm, t).None? && MatchRule(CloseEm, t).None? && MatchRule(CanonicalBreak, t).None?
  {
    var t := OpenText(name, attrs) + b;
    SpanPasses(name, attrs, b);
    OpenPassesOthers(t, name, attrs);
    ClosePatternsPass(t, name, attrs);
  }

  lemma OpenPassesOthers(t: string, name: string, attrs: string)
    requires IsName(name) && TagAttrs(attrs) && ExactAt(t, 0, OpenText(name, attrs))
    requires name != "br" && name != "strong" && name != "em"
    ensures MatchRule(OpenStrong, t).None? && MatchRule(OpenEm, t).None? && MatchRule(CanonicalBreak, t).None?
  {
    OpenNameStop(t, name, attrs);
    OpenTagNames(t, name, attrs, "strong");
    OpenTagNames(t, name, attrs, "em");
    NoBreakMatch(t, name);
  }

  /** The closing-tag rewrites need a `/` where an opening tag has its
      name. */
  lemma ClosePatternsPass(t: string, name: string, attrs: string)
    requires IsName(name) && TagAttrs(attrs) && ExactAt(t, 0, OpenText(name, attrs))
    ensures MatchRule(CloseStrong, t).None? && MatchRule(CloseEm, t).None?
  {
    OpenNameStop(t, name, attrs);
    NotCiAt(t, 0, "</strong>", 1);
    NotCiAt(t, 0, "</em>", 1);
  }

  /** The span rewrite needs a closing `</span>`, which plain text after an
      opening tag does not hold. */
  lemma SpanPasses(name: string, attrs: string, b: string)
    requires IsName(name) && TagAttrs(attrs) && '<' !in b
    ensures MatchRule(UnwrapSpan, OpenText(name, attrs) + b).None?
  {
    var tag := OpenText(name, attrs);
    var t := tag + b;
    OpenTagShape(name, attrs, b);
    OpenTagNames(t, name, attrs, "span");
    if name == "span" {
      assert t[|tag|..] == b;
      FindCiNone(t, |tag|, CloseTag("span"));
      OpenTagAt(t, name, attrs);
    }
  }

  /** The tag stripper deletes an opening tag whose name is not `b`, `i`
      or `br`. */
  lemma OtherOpenDropped(name: string, attrs: string, b: string)
    requires IsName(name) && TagAttrs(attrs) && '<' !in b
    requires name != "b" && name != "i" && name != "br"
    ensures MatchRule(StripOtherTags, OpenText(name, attrs) + b) == Some(Hit(|OpenText(name, attrs)|, ""))
  {
    var tag := OpenText(name, attrs);
    var t := tag + b;
    OpenTagShape(name, attrs, b);
    OpenNameStop(t, name, attrs);
    InlineNameIs(t, 1, name);
    OpenTextChars(name, attrs);
    forall j | 1 <= j < |tag| - 1
      ensures t[j] != '>'
    {
      assert t[j] == tag[j];
      if j <= |name| {
        assert tag[j] == name[j - 1];
      } else {
        assert tag[j] == attrs[j - 1 - |name|];
      }
    }
    assert t[|tag| - 1] == tag[|tag| - 1] == '>';
  }

  /** The break pattern does not match an opening tag with another name. */
  lemma NoBreakMatch(t: string, name: string)
    requires IsName(name) && ExactAt(t, 1, name) && 1 + |name| < |t| && NameStop(t[1 + |name|]) && name != "br"
    ensures MatchBreak(t).None?
  {
    if |name| > 2 {
      NameChar(t, 1, name, 2);
      assert t[3..][0] == t[3];
    } else if |name| == 2 {
      SameNameIf(t, 1, name, "br");
    } else {
      NoLongerName(t, 1, name, "br");
    }
  }

  lemma SameNameIf(t: string, q: nat, name: string, lit: string)
    requires IsName(name) && IsName(lit) && ExactAt(t, q, name) && |lit| == |name|
    ensures CiAt(t, q, lit) ==> lit == name
  {
    if CiAt(t, q, lit) {
      SameName(t, q, name, lit);
    }
  }

  /** The span rule leaves `<strong ...>` alone, and the `strong` rule
      matches all of it. */
  lemma StrongMatches(attrs: string, b: string)
    requires TagAttrs(attrs) && '<' !in b
    ensures var t := OpenText("strong", attrs) + b;
            MatchRule(UnwrapSpan, t).None? && MatchRule(OpenStrong, t) == Some(Hit(|OpenText("strong", attrs)|, "<b>"))
  {
    var t := OpenText("strong", attrs) + b;
    OpenTagShape("strong", attrs, b);
    SpanPasses("strong", attrs, b);
    OpenTagAt(t, "strong", attrs);
  }

  /** `<strong ...>` becomes `<b>`. */
  lemma CleanStrong(a: string, attrs: string, b: string)
    requires PlainText(a) && PlainText(b) && TagAttrs(attrs)
    ensures Clean(a + OpenText("strong", attrs) + b) == Trim(a + "<b>" + b)
  {
    var tag := OpenText("strong", attrs);
    var s := a + tag + b;
    OpenTagShape("strong", attrs, b);
    StrongMatches(attrs, b);
    PassTag(UnwrapSpan, a, tag, b);
    HitTag(OpenStrong, a, tag, b, "<b>");
    var u := a + "<b>" + b;
    KeptTagStays(CloseStrong, a, "<b>", b);
    KeptLate(a, "<b>", b);
    TagChain(s, s, u, u, u, u, u, u);
    CleanAfterTags(s, u);
  }

  /** A kept tag passes the last four rewrites unchanged. */
  lemma KeptLate(a: string, out: string, b: string)
    requires KeptTag(out) && '<' !in a && '<' !in b
    ensures var u := a + out + b;
            Sub(OpenEm, u) == u && Sub(CloseEm, u) == u && Sub(CanonicalBreak, u) == u && Sub(StripOtherTags, u) == u
  {
    KeptTagStays(OpenEm, a, out, b);
    KeptTagStays(CloseEm, a, out, b);
    KeptTagStays(CanonicalBreak, a, out, b);
    KeptTagStays(StripOtherTags, a, out, b);
  }

  /** The rewrites before the `em` rule leave `<em ...>` alone, and that
      rule matches all of it. */
  lemma EmMatches(attrs: string, b: string)
    requires TagAttrs(attrs) && '<' !in b
    ensures var t := OpenText("em", attrs) + b;
            MatchRule(UnwrapSpan, t).None? && MatchRule(OpenStrong, t).None? && MatchRule(CloseStrong, t).None?
            && MatchRule(OpenEm, t) == Some(Hit(|OpenText("em", attrs)|, "<i>"))
  {
    var t := OpenText("em", attrs) + b;
    OpenTagShape("em", attrs, b);
    OpenNameStop(t, "em", attrs);
    SpanPasses("em", attrs, b);
    OpenTagNames(t, "em", attrs, "strong");
    NotCiAt(t, 0, "</strong>", 1);
    OpenTagAt(t, "em", attrs);
  }

  /** `<em ...>` becomes `<i>`. */
  lemma CleanEm(a: string, attrs: string, b: string)
    requires PlainText(a) && PlainText(b) && TagAttrs(attrs)
    ensures Clean(a + OpenText("em", attrs) + b) == Trim(a + "<i>" + b)
  {
    var tag := OpenText("em", attrs);
    var s := a + tag + b;
    OpenTagShape("em", attrs, b);
    EmMatches(attrs, b);
    PassTag(UnwrapSpan, a, tag, b);
    PassTag(OpenStrong, a, tag, b);
    PassTag(CloseStrong, a, tag, b);
    HitTag(OpenEm, a, tag, b, "<i>");
    var u := a + "<i>" + b;
    KeptTagStays(CloseEm, a, "<i>", b);
    KeptTagStays(CanonicalBreak, a, "<i>", b);
    KeptTagStays(StripOtherTags, a, "<i>", b);
    TagChain(s, s, s, s, u, u, u, u);
    CleanAfterTags(s, u);
  }

  /** Any other opening tag is deleted and the text around it kept; this
      includes a `<span>` that is never closed. */
  lemma CleanDropsOpenTag(a: string, name: string, attrs: string, b: string)
    requires PlainText(a) && PlainText(b) && IsName(name) && TagAttrs(attrs)
    requires name != "b" && name != "i" && name != "br" && name != "strong" && name != "em"
    ensures Clean(a + OpenText(name, attrs) + b) == Trim(a + b)
  {
    var tag := OpenText(name, attrs);
    OpenTagShape(name, attrs, b);
    OtherOpenPasses(name, attrs, b);
    OtherOpenDropped(name, attrs, b);
    DroppedTag(a, tag, b);
    CleanAfterTags(a + tag + b, a + b);
  }

  // ---------------------------------------------------------------------
  // Closing tags

  /** The rewrites of opening tags and breaks need a name where a closing
      tag has its `/`. */
  lemma CloseTagPasses(t: string, name: string)
    requires IsName(name) && ExactAt(t, 0, CloseTag(name))
    ensures MatchRule(UnwrapSpan, t).None? && MatchRule(OpenStrong, t).None?
            && MatchRule(OpenEm, t).None? && MatchRule(CanonicalBreak, t).None?
  {
    CloseNameStop(t, name);
    NotCiAt(t, 1, "span", 0);
    NotCiAt(t, 1, "strong", 0);
    NotCiAt(t, 1, "em", 0);
    NotCiAt(t, 1, "br", 0);
  }

  /** `</lit>` matches a closing tag exactly when it is the tag's name. */
  lemma CloseRuleMatches(t: string, name: string)
    requires IsName(name) && ExactAt(t, 0, CloseTag(name))
    ensures MatchRule(CloseStrong, t).Some? <==> name == "strong"
    ensures MatchRule(CloseEm, t).Some? <==> name == "em"
    ensures name == "strong" ==> MatchRule(CloseStrong, t) == Some(Hit(|CloseTag(name)|, "</b>"))
    ensures name == "em" ==> MatchRule(CloseEm, t) == Some(Hit(|CloseTag(name)|, "</i>"))
  {
    assert CloseTag("strong") == "</strong>" && CloseTag("em") == "</em>";
    CloseTagNames(t, name, "strong");
    CloseTagNames(t, name, "em");
    CiOfExact(t, 0, CloseTag(name));
  }

  /** The tag stripper deletes a closing tag whose name is not `b`, `i` or
      `br`. */
  lemma OtherCloseDropped(name: string, b: string)
    requires IsName(name) && name != "b" && name != "i" && name != "br"
    ensures MatchRule(StripOtherTags, CloseTag(name) + b) == Some(Hit(|CloseTag(name)|, ""))
  {
    var tag := CloseTag(name);
    var t := tag + b;
    ExactAtPrefix(tag, b);
    CloseNameStop(t, name);
    InlineNameIs(t, 2, name);
    NotCiAt(t, 1, "b", 0);
    NotCiAt(t, 1, "i", 0);
    NotCiAt(t, 1, "br", 0);
    forall j | 1 <= j < |tag| - 1
      ensures t[j] != '>'
    {
      if j >= 2 {
        NameChar(t, 2, name, j - 2);
      }
    }
  }

  lemma CloseTagShape(name: string)
    requires IsName(name)
    ensures |CloseTag(name)| > 0 && '<' !in CloseTag(name)[1..] && '&' !in CloseTag(name)
  {
    var c := CloseTag(name);
    CloseTagChars(name);
    forall k | 0 <= k < |name|
      ensures name[k] != '&'
    {
      assert IsWordChar(name[k]);
    }
    assert c == "</" + name + ">";
  }

  /** `</strong>` becomes `</b>`. */
  lemma CleanCloseStrong(a: string, b: string)
    requires PlainText(a) && PlainText(b)
    ensures Clean(a + "</strong>" + b) == Trim(a + "</b>" + b)
  {
    var tag := CloseTag("strong");
    assert tag == "</strong>";
    var s := a + tag + b;
    ExactAtPrefix(tag, b);
    CloseTagShape("strong");
    CloseTagPasses(tag + b, "strong");
    CloseRuleMatches(tag + b, "strong");
    PassTag(UnwrapSpan, a, tag, b);
    PassTag(OpenStrong, a, tag, b);
    HitTag(CloseStrong, a, tag, b, "</b>");
    var u := a + "</b>" + b;
    KeptLate(a, "</b>", b);
    TagChain(s, s, s, u, u, u, u, u);
    CleanAfterTags(s, u);
  }

  /** `</em>` becomes `</i>`. */
  lemma CleanCloseEm(a: string, b: string)
    requires PlainText(a) && PlainText(b)
    ensures Clean(a + "</em>" + b) == Trim(a + "</i>" + b)
  {
    var tag := CloseTag("em");
    assert tag == "</em>";
    var s := a + tag + b;
    ExactAtPrefix(tag, b);
    CloseTagShape("em");
    CloseTagPasses(tag + b, "em");
    CloseRuleMatches(tag + b, "em");
    PassTag(UnwrapSpan, a, tag, b);
    PassTag(OpenStrong, a, tag, b);
    PassTag(CloseStrong, a, tag, b);
    PassTag(OpenEm, a, tag, b);
    HitTag(CloseEm, a, tag, b, "</i>");
    var u := a + "</i>" + b;
    KeptTagStays(CanonicalBreak, a, "</i>", b);
    KeptTagStays(StripOtherTags, a, "</i>", b);
    TagChain(s, s, s, s, s, u, u, u);
    CleanAfterTags(s, u);
  }

  /** Any other closing tag is deleted and the text around it kept; this
      includes a `</span>` that closes nothing. */
  lemma CleanDropsCloseTag(a: string, name: string, b: string)
    requires PlainText(a) && PlainText(b) && IsName(name)
    requires name != "b" && name != "i" && name != "br" && name != "strong" && name != "em"
    ensures Clean(a + CloseTag(name) + b) == Trim(a + b)
  {
    var tag := CloseTag(name);
    ExactAtPrefix(tag, b);
    CloseTagShape(name);
    CloseTagPasses(tag + b, name);
    CloseRuleMatches(tag + b, name);
    OtherCloseDropped(name, b);
    DroppedTag(a, tag, b);
    CleanAfterTags(a + tag + b, a + b);
  }

  // ---------------------------------------------------------------------
  // Breaks

  /** `<br>`, `<br/>`, `<br />` and the like: whitespace and an optional
      slash after the name. */
  function BreakTag(w: string, slash: string): string {
    "<br" + w + slash + ">"
  }

  lemma BreakTagShape(w: string, slash: string, b: string)
    requires SpaceFrom(w, 0) && (slash == "" || slash == "/")
    ensures var t := BreakTag(w, slash) + b;
            |BreakTag(w, slash)| == 4 + |w| + |slash| && t[0] == '<' && t[1] == 'b' && t[2] == 'r'
            && t[3..] == w + (slash + ">" + b)
            && '<' !in BreakTag(w, slash)[1..] && '&' !in BreakTag(w, slash)
  {
    var tag := BreakTag(w, slash);
    var t := tag + b;
    assert tag == "<br" + (w + slash + ">");
    assert tag[1..] == "br" + (w + slash + ">");
    assert t[3..] == w + (slash + ">" + b);
  }

  /** The rewrites before the break rule leave a break alone. */
  lemma BreakPasses(w: string, slash: string, b: string)
    requires SpaceFrom(w, 0) && (slash == "" || slash == "/")
    ensures var t := BreakTag(w, slash) + b;
            MatchRule(UnwrapSpan, t).None? && MatchRule(OpenStrong, t).None? && MatchRule(CloseStrong, t).None?
            && MatchRule(OpenEm, t).None? && MatchRule(CloseEm, t).None?
  {
    var t := BreakTag(w, slash) + b;
    BreakTagShape(w, slash, b);
    NotCiAt(t, 1, "span", 0);
    NotCiAt(t, 1, "strong", 0);
    NotCiAt(t, 0, "</strong>", 1);
    NotCiAt(t, 1, "em", 0);
    NotCiAt(t, 0, "</em>", 1);
  }

  /** The break rule matches the whole break. */
  lemma BreakMatches(w: string, slash: string, b: string)
    requires SpaceFrom(w, 0) && (slash == "" || slash == "/")
    ensures MatchRule(CanonicalBreak, BreakTag(w, slash) + b) == Some(Hit(|BreakTag(w, slash)|, "<br/>"))
  {
    var t := BreakTag(w, slash) + b;
    BreakTagShape(w, slash, b);
    assert CiAt(t, 1, "br") by {
      assert CiChar(t[1 + 0], "br"[0]) && CiChar(t[1 + 1], "br"[1]);
    }
    var y := slash + ">" + b;
    SpaceRunAppend(w, y);
    assert y[0] == if slash == "" then '>' else '/';
    assert SpaceRun(t[3..]) == |w|;
    assert t[3 + |w|] == t[3..][|w|] == y[0];
    if slash == "/" {
      assert t[3 + |w| + 1] == t[3..][|w| + 1] == y[1];
    }
  }

  /** Every spelling of a break becomes `<br/>`. */
  lemma CleanBreak(a: string, w: string, slash: string, b: string)
    requires PlainText(a) && PlainText(b) && SpaceFrom(w, 0) && (slash == "" || slash == "/")
    ensures Clean(a + BreakTag(w, slash) + b) == Trim(a + "<br/>" + b)
  {
    var tag := BreakTag(w, slash);
    var s := a + tag + b;
    BreakTagShape(w, slash, b);
    BreakPasses(w, slash, b);
    BreakMatches(w, slash, b);
    PassTag(UnwrapSpan, a, tag, b);
    PassTag(OpenStrong, a, tag, b);
    PassTag(CloseStrong, a, tag, b);
    PassTag(OpenEm, a, tag, b);
    PassTag(CloseEm, a, tag, b);
    HitTag(CanonicalBreak, a, tag, b, "<br/>");
    var u := a + "<br/>" + b;
    KeptTagStays(StripOtherTags, a, "<br/>", b);
    TagChain(s, s, s, s, s, s, u, u);
    CleanAfterTags(s, u);
  }

  // ---------------------------------------------------------------------
  // Spans

  /** Text without `<` holds no closing tag. */
  lemma PlainNoClose(x: string, name: string)
    requires '<' !in x && IsName(name)
    ensures NoCloseIn(x, name)
  {
    forall j | 0 <= j <= |x|
      ensures !CiAt(x, j, CloseTag(name))
    {
      if j < |x| {
        assert x[j] != '<';
        NotCiAt(x, j, CloseTag(name), 0);
      }
    }
  }

  function SpanText(attrs: string, x: string): string {
    OpenText("span", attrs) + x + CloseTag("span")
  }

  /** The span rule replaces a whole span by the text inside it. */
  lemma SpanMatches(attrs: string, x: string, b: string)
    requires TagAttrs(attrs) && '<' !in x
    ensures MatchRule(UnwrapSpan, SpanText(attrs, x) + b) == Some(Hit(|SpanText(attrs, x)|, x))
  {
    var whole := SpanText(attrs, x);
    var t := whole + b;
    ExactAtPrefix(whole, b);
    PlainNoClose(x, "span");
    assert AttrText(attrs);
    ElementInner(t, "span", attrs, x);
  }

  /** `<span ...>x</span>` is replaced by `x`. */
  lemma CleanUnwrapsSpan(a: string, attrs: string, x: string, b: string)
    requires PlainText(a) && PlainText(b) && PlainText(x) && TagAttrs(attrs)
    ensures Clean(a + SpanText(attrs, x) + b) == Trim(a + x + b)
  {
    var s := a + SpanText(attrs, x) + b;
    var u := a + x + b;
    SpanMatches(attrs, x, b);
    HitTag(UnwrapSpan, a, SpanText(attrs, x), b, x);
    SubIdentity(OpenStrong, u);
    SubIdentity(CloseStrong, u);
    SubIdentity(OpenEm, u);
    SubIdentity(CloseEm, u);
    SubIdentity(CanonicalBreak, u);
    SubIdentity(StripOtherTags, u);
    TagChain(s, u, u, u, u, u, u, u);
    CleanAfterTags(s, u);
  }
}
