/** The inline normaliser `clean_inner` (main.py:224-248): a fixed pipeline of
    substitutions over an inner-HTML fragment, followed by entity decoding,
    ampersand escaping and trimming. */
module Normalizer {
  import opened Text
  import opened Patterns

  /** One substitution of the pipeline, in the order the source applies them. */
  datatype Rule =
    | UnwrapSpan       // <span\b[^>]*>(.*?)</span>  ->  \1
    | OpenStrong       // <strong\b[^>]*>            ->  <b>
    | CloseStrong      // </strong>                  ->  </b>
    | OpenEm           // <em\b[^>]*>                ->  <i>
    | CloseEm          // </em>                      ->  </i>
    | CanonicalBreak   // <br\s*/?>                  ->  <br/>
    | StripOtherTags   // <(?!/?(?:b|i|br/?)\b)[^>]+> ->  (nothing)
    | Entity(name: string, ch: char)  // str.replace("&name;", ch)
    | EscapeAmp        // &(?!(?:amp|lt|gt|#\d+);)   ->  &amp;

  /** A match at the start of the remaining text: how much it consumes and
      what replaces it. */
  datatype Hit = Hit(len: nat, text: string)

  /** The character every match of the rule starts with. */
  function Lead(rule: Rule): char {
    if rule.Entity? || rule.EscapeAmp? then '&' else '<'
  }

  function EntityText(name: string): string {
    "&" + name + ";"
  }

  // `<br\s*/?>` at the start of `t`, ignoring case: the length of the match.
  function MatchBreak(t: string): (r: Option<nat>)
    ensures r.Some? ==> 3 < r.value <= |t| && t[0] == '<'
  {
    if |t| > 0 && t[0] == '<' && CiAt(t, 1, "br") then
      var w := 3 + SpaceRun(t[3..]);
      if w < |t| && t[w] == '>' then Some(w + 1)
      else if w + 1 < |t| && t[w] == '/' && t[w + 1] == '>' then Some(w + 2)
      else None
    else None
  }

  /** `(?:b|i|br/?)\b` at position `q` of `t`, ignoring case. */
  predicate InlineNameAt(t: string, q: nat) {
    (CiAt(t, q, "b") && Boundary(t, q + 1))
    || (CiAt(t, q, "i") && Boundary(t, q + 1))
    || (CiAt(t, q, "br") && ((q + 2 < |t| && t[q + 2] == '/' && Boundary(t, q + 3)) || Boundary(t, q + 2)))
  }

  /** The negative lookahead of the tag stripper fails at `t[0] == '<'`:
      the tag is a `b`, `i` or `br` tag, opening or closing. */
  predicate KeptTagAhead(t: string) {
    (|t| > 1 && t[1] == '/' && InlineNameAt(t, 2)) || InlineNameAt(t, 1)
  }

  /** The text after an `&` begins `amp;`, `lt;`, `gt;` or `#<digits>;`. */
  predicate SafeRef(u: string) {
    ExactAt(u, 0, "amp;") || ExactAt(u, 0, "lt;") || ExactAt(u, 0, "gt;")
    || (|u| > 0 && u[0] == '#' && var d := DigitRun(u[1..]); d > 0 && 1 + d < |u| && u[1 + d] == ';')
  }

  /** Every `&` of `s` begins a reference ReportLab accepts. */
  predicate AmpSafe(s: string) {
    forall i :: 0 <= i < |s| ==> AmpOk(s, i)
  }

  /** The character at `i` is not an `&`, or begins a safe reference. */
  predicate AmpOk(s: string, i: nat)
    requires i < |s|
  {
    s[i] == '&' ==> SafeRef(s[i + 1..])
  }

  /** The match of `rule` at the start of `t`, if any. */
  function MatchRule(rule: Rule, t: string): (r: Option<Hit>)
    ensures r.Some? ==> 1 <= r.value.len <= |t| && t[0] == Lead(rule)
  {
    match rule
    case UnwrapSpan =>
      (match MatchElement(t, "span")
       case Some(e) => Some(Hit(e.end, t[e.innerStart..e.innerEnd]))
       case None => None)
    case OpenStrong =>
      (match MatchOpenTag(t, "strong")
       case Some(n) => Some(Hit(n, "<b>"))
       case None => None)
    case CloseStrong =>
      if CiAt(t, 0, "</strong>") then CiAtHead(t, 0, "</strong>"); Some(Hit(9, "</b>")) else None
    case OpenEm =>
      (match MatchOpenTag(t, "em")
       case Some(n) => Some(Hit(n, "<i>"))
       case None => None)
    case CloseEm =>
      if CiAt(t, 0, "</em>") then CiAtHead(t, 0, "</em>"); Some(Hit(5, "</i>")) else None
    case CanonicalBreak =>
      (match MatchBreak(t)
       case Some(n) => Some(Hit(n, "<br/>"))
       case None => None)
    case StripOtherTags =>
      if |t| > 1 && t[0] == '<' && !KeptTagAhead(t) && t[1] != '>' then
        match FindChar(t, 1, '>')
        case Some(g) => Some(Hit(g + 1, ""))
        case None => None
      else None
    case Entity(name, ch) =>
      if ExactAt(t, 0, EntityText(name)) then assert t[0 + 0] == EntityText(name)[0]; Some(Hit(|EntityText(name)|, [ch])) else None
    case EscapeAmp =>
      if |t| > 0 && t[0] == '&' && !SafeRef(t[1..]) then Some(Hit(1, "&amp;")) else None
  }

  lemma CiAtHead(t: string, i: nat, lit: string)
    requires CiAt(t, i, lit) && |lit| > 0 && !IsLowerLetter(lit[0])
    ensures t[i] == lit[0]
  {
    assert CiChar(t[i + 0], lit[0]);
  }

  /** `re.sub` / `str.replace`: scan left to right, replace each match and
      resume just past it, copy every other character. */
  function Sub(rule: Rule, t: string): string
    decreases |t|
  {
    if t == [] then []
    else match MatchRule(rule, t)
      case Some(h) => h.text + Sub(rule, t[h.len..])
      case None => [t[0]] + Sub(rule, t[1..])
  }

  /** The entity table, decoded in this order. */
  const Entities: seq<(string, char)> := [
    ("nbsp", ' '), ("mdash", '\U{2014}'), ("ndash", '\U{2013}'),
    ("rarr", '\U{2192}'), ("larr", '\U{2190}'), ("ldquo", '\U{201C}'),
    ("rdquo", '\U{201D}'), ("lsquo", '\U{2018}'), ("rsquo", '\U{2019}'),
    ("hellip", '\U{2026}'), ("copy", '\U{A9}'), ("reg", '\U{AE}')
  ]

  /** The string after the first `k` entries of the entity loop. */
  function DecodeUpTo(s: string, k: nat): string
    requires k <= |Entities|
  {
    if k == 0 then s else Sub(Entity(Entities[k - 1].0, Entities[k - 1].1), DecodeUpTo(s, k - 1))
  }

  function DecodeEntities(s: string): string {
    DecodeUpTo(s, |Entities|)
  }

  /** The seven tag rewrites, in order. */
  function TagSteps(s: string): string {
    Sub(StripOtherTags, Sub(CanonicalBreak, Sub(CloseEm, Sub(OpenEm,
      Sub(CloseStrong, Sub(OpenStrong, Sub(UnwrapSpan, s)))))))
  }

  /** The whole of `clean_inner`, as a function of its argument. */
  function Clean(s: string): string {
    Trim(Sub(EscapeAmp, DecodeEntities(TagSteps(s))))
  }

  /** `clean_inner` as the source runs it: reassignments of `text` and a loop
      over the entity table. What it computes is `Clean`; the lemmas below
      say what that is. */
  method CleanInner(text: string) returns (r: string)
    ensures r == Clean(text)
  {
    var t := Sub(UnwrapSpan, text);
    t := Sub(OpenStrong, t);
    t := Sub(CloseStrong, t);
    t := Sub(OpenEm, t);
    t := Sub(CloseEm, t);
    t := Sub(CanonicalBreak, t);
    t := Sub(StripOtherTags, t);
    ghost var tags := t;
    for k := 0 to |Entities|
      invariant t == DecodeUpTo(tags, k)
    {
      var (entity, ch) := Entities[k];
      t := Sub(Entity(entity, ch), t);
    }
    t := Sub(EscapeAmp, t);
    r := Trim(t);
  }

  // ---------------------------------------------------------------------
  // Substitution facts

  /** Text without the rule's lead character passes through unchanged, and
      the substitution carries on after it. */
  lemma {:induction false} SubSkipsLeadFree(rule: Rule, x: string, y: string)
    requires Lead(rule) !in x
    ensures Sub(rule, x + y) == x + Sub(rule, y)
  {
    if x != [] {
      var t := x + y;
      assert t[0] == x[0] && x[0] in x;
      assert MatchRule(rule, t).None?;
      assert t[1..] == x[1..] + y;
      SubSkipsLeadFree(rule, x[1..], y);
      calc {
        Sub(rule, t);
        [t[0]] + Sub(rule, t[1..]);
        [x[0]] + (x[1..] + Sub(rule, y));
        { assert x == [x[0]] + x[1..]; }
        x + Sub(rule, y);
      }
    } else {
      assert x + y == y;
    }
  }

  lemma SubIdentity(rule: Rule, x: string)
    requires Lead(rule) !in x
    ensures Sub(rule, x) == x
  {
    SubSkipsLeadFree(rule, x, []);
    assert x + [] == x;
  }

  // ---------------------------------------------------------------------
  // The ampersand escape

  /** A literal without whitespace that starts `u` ends before a whitespace tail. */
  lemma RefBeforeSpace(u: string, m: nat, lit: string)
    requires ExactAt(u, 0, lit) && m <= |u| && SpaceFrom(u, m)
    requires forall j :: 0 <= j < |lit| ==> !IsSpace(lit[j])
    ensures |lit| <= m
  {
    forall k | 0 <= k < |lit|
      ensures !IsSpace(u[k])
    {
      assert u[0 + k] == lit[k];
      assert !IsSpace(lit[k]);
    }
    assert m < |u| ==> IsSpace(u[m]);
  }

  lemma SafeRefPrefix(u: string, m: nat)
    requires SafeRef(u) && m <= |u| && SpaceFrom(u, m)
    ensures SafeRef(u[..m])
  {
    if ExactAt(u, 0, "amp;") {
      RefBeforeSpace(u, m, "amp;");
      assert ExactAt(u[..m], 0, "amp;");
    } else if ExactAt(u, 0, "lt;") {
      RefBeforeSpace(u, m, "lt;");
      assert ExactAt(u[..m], 0, "lt;");
    } else if ExactAt(u, 0, "gt;") {
      RefBeforeSpace(u, m, "gt;");
      assert ExactAt(u[..m], 0, "gt;");
    } else {
      DigitRunPrefix(u[1..], m - 1);
      assert u[..m][1..] == u[1..][..m - 1];
    }
  }

  lemma {:induction false} DigitRunPrefix(x: string, m: nat)
    requires DigitRun(x) < m <= |x|
    ensures DigitRun(x[..m]) == DigitRun(x)
  {
    if DigitRun(x) > 0 {
      assert x[..m][1..] == x[1..][..m - 1];
      DigitRunPrefix(x[1..], m - 1);
    }
  }

  /** A part of an ampersand-safe string that is followed only by
      whitespace is ampersand-safe. */
  lemma SliceKeepsAmpSafe(s: string, i: nat, j: nat)
    requires AmpSafe(s) && i <= j <= |s| && SpaceFrom(s, j)
    ensures AmpSafe(s[i..j])
  {
    DropKeepsAmpSafe(s, i);
    var u := s[i..];
    DropKeepsSpace(s, i, j);
    TakeKeepsAmpSafe(u, j - i);
    assert u[..j - i] == s[i..j];
  }

  lemma DropKeepsSpace(s: string, i: nat, j: nat)
    requires i <= j <= |s| && SpaceFrom(s, j)
    ensures SpaceFrom(s[i..], j - i)
  {
    forall k | j - i <= k < |s| - i
      ensures IsSpace(s[i..][k])
    {
      assert s[i..][k] == s[i + k];
    }
  }

  /** Dropping a prefix keeps a string ampersand-safe. */
  lemma DropKeepsAmpSafe(s: string, i: nat)
    requires AmpSafe(s) && i <= |s|
    ensures AmpSafe(s[i..])
  {
    forall p | 0 <= p < |s| - i
      ensures AmpOk(s[i..], p)
    {
      assert AmpOk(s, i + p);
      DropAt(s, i, p);
    }
  }

  lemma DropAt(s: string, i: nat, p: nat)
    requires i + p < |s|
    ensures s[i..][p] == s[i + p] && s[i..][p + 1..] == s[i + p + 1..]
  {
  }

  /** Cutting off a whitespace tail keeps a string ampersand-safe. */
  lemma TakeKeepsAmpSafe(u: string, m: nat)
    requires AmpSafe(u) && m <= |u| && SpaceFrom(u, m)
    ensures AmpSafe(u[..m])
  {
    forall p | 0 <= p < m
      ensures AmpOk(u[..m], p)
    {
      assert AmpOk(u, p);
      TakeAmpOk(u, m, p);
    }
  }

  lemma TakeAmpOk(u: string, m: nat, p: nat)
    requires p < m <= |u| && SpaceFrom(u, m) && AmpOk(u, p)
    ensures AmpOk(u[..m], p)
  {
    assert u[..m][p] == u[p];
    if u[p] == '&' {
      SafeRefBeforeSpace(u, p + 1, m);
      assert u[..m][p + 1..] == u[p + 1..m];
    }
  }

  lemma SafeRefBeforeSpace(s: string, q: nat, j: nat)
    requires q <= j <= |s| && SafeRef(s[q..]) && SpaceFrom(s, j)
    ensures SafeRef(s[q..j])
  {
    var u := s[q..];
    assert SpaceFrom(u, j - q) by {
      forall k | j - q <= k < |u|
        ensures IsSpace(u[k])
      {
        assert u[k] == s[q + k];
      }
    }
    SafeRefPrefix(u, j - q);
    assert u[..j - q] == s[q..j];
  }

  /** A trimmed ampersand-safe string is still ampersand-safe. */
  lemma TrimKeepsAmpSafe(s: string)
    requires AmpSafe(s)
    ensures AmpSafe(Trim(s))
  {
    SliceKeepsAmpSafe(s, SpaceRun(s), TrimEnd(s));
  }

  /** Characters other than `&` are copied by the escape, and the escape
      carries on after them. */
  lemma EscapeSkips(x: string, y: string)
    requires '&' !in x
    ensures Sub(EscapeAmp, x + y) == x + Sub(EscapeAmp, y)
  {
    SubSkipsLeadFree(EscapeAmp, x, y);
  }

  /** The head of a safe reference, which the escape copies unchanged. */
  lemma SafeRefSplit(u: string) returns (x: string)
    requires SafeRef(u)
    ensures '&' !in x && |x| <= |u| && u == x + u[|x|..] && SafeRef(x)
  {
    if ExactAt(u, 0, "amp;") {
      x := u[..4];
      assert x == "amp;";
    } else if ExactAt(u, 0, "lt;") {
      x := u[..3];
      assert x == "lt;";
    } else if ExactAt(u, 0, "gt;") {
      x := u[..3];
      assert x == "gt;";
    } else {
      var d := DigitRun(u[1..]);
      x := u[..2 + d];
      assert forall j :: 1 <= j < 1 + d ==> IsDigit(u[1..][j - 1]) && x[j] == u[1..][j - 1];
      assert x[1..] == u[1..][..d + 1];
      DigitRunPrefix(u[1..], d + 1);
    }
  }

  /** SafeRef depends only on the first characters of its argument. */
  lemma SafeRefExtend(x: string, y: string)
    requires SafeRef(x)
    ensures SafeRef(x + y)
  {
    if ExactAt(x, 0, "amp;") || ExactAt(x, 0, "lt;") || ExactAt(x, 0, "gt;") {
    } else {
      var d := DigitRun(x[1..]);
      assert (x + y)[1..] == x[1..] + y;
      DigitRunExtend(x[1..], y);
    }
  }

  lemma {:induction false} DigitRunExtend(x: string, y: string)
    requires DigitRun(x) < |x|
    ensures DigitRun(x + y) == DigitRun(x)
  {
    if DigitRun(x) > 0 {
      assert (x + y)[1..] == x[1..] + y;
      DigitRunExtend(x[1..], y);
    }
  }

  lemma AmpSafeConcat(a: string, b: string)
    requires AmpSafe(b)
    requires forall i :: 0 <= i < |a| ==> AmpOk(a + b, i)
    ensures AmpSafe(a + b)
  {
    forall i | 0 <= i < |a + b|
      ensures AmpOk(a + b, i)
    {
      if i >= |a| {
        assert AmpOk(b, i - |a|);
        assert (a + b)[i + 1..] == b[i - |a| + 1..];
      }
    }
  }

  /** After the escape every `&` begins `&amp;`, `&lt;`, `&gt;` or `&#<digits>;`. */
  lemma {:induction false} EscapeMakesAmpSafe(s: string)
    ensures AmpSafe(Sub(EscapeAmp, s))
  {
    if s != [] {
      var rest := Sub(EscapeAmp, s[1..]);
      EscapeMakesAmpSafe(s[1..]);
      match MatchRule(EscapeAmp, s)
      case Some(h) =>
        assert Sub(EscapeAmp, s) == "&amp;" + rest;
        EscapedAmpOk(rest);
        AmpSafeConcat("&amp;", rest);
      case None =>
        assert Sub(EscapeAmp, s) == [s[0]] + rest;
        if s[0] == '&' {
          var x := SafeRefSplit(s[1..]);
          EscapeSkips(x, s[1..][|x|..]);
          assert rest == x + Sub(EscapeAmp, s[1..][|x|..]);
          SafeRefExtend(x, Sub(EscapeAmp, s[1..][|x|..]));
          assert ([s[0]] + rest)[1..] == rest;
        }
        assert AmpOk([s[0]] + rest, 0);
        AmpSafeConcat([s[0]], rest);
    }
  }

  lemma EscapedAmpOk(rest: string)
    ensures forall i :: 0 <= i < 5 ==> AmpOk("&amp;" + rest, i)
  {
    assert ExactAt(("&amp;" + rest)[1..], 0, "amp;");
  }

  /** A string that is already ampersand-safe is left unchanged. */
  lemma {:induction false} EscapeKeepsAmpSafe(s: string)
    requires AmpSafe(s)
    ensures Sub(EscapeAmp, s) == s
  {
    if s != [] {
      assert s == [s[0]] + s[1..];
      assert AmpOk(s, 0);
      assert AmpSafe(s[1..]) by {
        forall i | 0 <= i < |s[1..]|
          ensures AmpOk(s[1..], i)
        {
          assert AmpOk(s, i + 1);
          assert s[1..][i + 1..] == s[i + 2..];
        }
      }
      EscapeKeepsAmpSafe(s[1..]);
    }
  }

  /** The escape never shortens its input, and lengthens it exactly when
      some `&` of the input is not ampersand-safe. */
  lemma {:induction false} EscapeLength(s: string)
    ensures |Sub(EscapeAmp, s)| >= |s|
    ensures !AmpSafe(s) ==> |Sub(EscapeAmp, s)| > |s|
  {
    if s != [] {
      EscapeLength(s[1..]);
      if !AmpSafe(s) {
        var i :| 0 <= i < |s| && !AmpOk(s, i);
        if i > 0 {
          assert s[1..][i - 1] == '&' && s[1..][i..] == s[i + 1..];
          assert !AmpOk(s[1..], i - 1);
        }
      }
    }
  }

  /** The fixed points of the escape are exactly the ampersand-safe strings. */
  lemma EscapeFixedPoints(s: string)
    ensures Sub(EscapeAmp, s) == s <==> AmpSafe(s)
  {
    EscapeLength(s);
    if AmpSafe(s) {
      EscapeKeepsAmpSafe(s);
    }
  }

  /** Escaping twice is escaping once. */
  lemma EscapeIdempotent(s: string)
    ensures Sub(EscapeAmp, Sub(EscapeAmp, s)) == Sub(EscapeAmp, s)
  {
    EscapeMakesAmpSafe(s);
    EscapeKeepsAmpSafe(Sub(EscapeAmp, s));
  }

  /** Every `&` in the result of `clean_inner` begins a safe reference. */
  lemma CleanIsAmpSafe(s: string)
    ensures AmpSafe(Clean(s))
  {
    EscapeMakesAmpSafe(DecodeEntities(TagSteps(s)));
    TrimKeepsAmpSafe(Sub(EscapeAmp, DecodeEntities(TagSteps(s))));
  }

  // ---------------------------------------------------------------------
  // Entity decoding

  predicate IsEntityName(name: string) {
    |name| > 0 && forall i :: 0 <= i < |name| ==> IsLowerLetter(name[i])
  }

  /** The table's names are distinct lower-case words and no entity decodes
      to an ampersand. */
  lemma EntityTableFacts()
    ensures forall k :: 0 <= k < |Entities| ==> IsEntityName(Entities[k].0) && Entities[k].1 != '&'
    ensures forall j, k :: 0 <= j < k < |Entities| ==> Entities[j].0 != Entities[k].0
  {
  }

  /** The table facts for two of its rows. */
  lemma EntityPair(i: nat, k: nat)
    requires i < |Entities| && k < |Entities|
    ensures IsEntityName(Entities[i].0) && IsEntityName(Entities[k].0) && Entities[k].1 != '&'
    ensures i != k ==> Entities[i].0 != Entities[k].0
  {
    EntityTableFacts();
  }

  /** One entity's text never starts with a different entity's text. */
  lemma EntityMismatch(n1: string, n2: string, b: string)
    requires IsEntityName(n1) && IsEntityName(n2) && n1 != n2
    ensures !ExactAt(EntityText(n2) + b, 0, EntityText(n1))
  {
    var t := EntityText(n2) + b;
    var e := EntityText(n1);
    if |n1| == |n2| {
      var i :| 0 <= i < |n1| && n1[i] != n2[i];
      assert e[i + 1] == n1[i] && t[i + 1] == n2[i];
    } else if |n1| < |n2| {
      assert e[|n1| + 1] == ';' && t[|n1| + 1] == n2[|n1|];
    } else {
      assert e[|n2| + 1] == n1[|n2|] && t[|n2| + 1] == ';';
    }
  }

  /** Entity decoding leaves a prefix without `&` alone. */
  lemma {:induction false} DecodeSkipsAmpFree(x: string, y: string, k: nat)
    requires k <= |Entities| && '&' !in x
    ensures DecodeUpTo(x + y, k) == x + DecodeUpTo(y, k)
  {
    if k > 0 {
      DecodeSkipsAmpFree(x, y, k - 1);
      SubSkipsLeadFree(Entity(Entities[k - 1].0, Entities[k - 1].1), x, DecodeUpTo(y, k - 1));
    }
  }

  /** Replacing one entity leaves another entity's text alone. */
  lemma EntitySkip(n1: string, c1: char, n2: string, b: string)
    requires IsEntityName(n1) && IsEntityName(n2) && n1 != n2 && '&' !in b
    ensures Sub(Entity(n1, c1), EntityText(n2) + b) == EntityText(n2) + b
  {
    var e := EntityText(n2);
    EntityMismatch(n1, n2, b);
    assert MatchRule(Entity(n1, c1), e + b).None?;
    assert (e + b)[1..] == e[1..] + b;
    assert '&' !in e[1..] by {
      forall k | 0 <= k < |e[1..]|
        ensures e[1..][k] != '&'
      {
        if k < |n2| {
          assert e[1..][k] == n2[k];
        }
      }
    }
    SubIdentity(Entity(n1, c1), e[1..] + b);
  }

  /** Replacing an entity turns its text into its character. */
  lemma EntityHit(n: string, c: char, b: string)
    requires '&' !in b
    ensures Sub(Entity(n, c), EntityText(n) + b) == [c] + b
  {
    var e := EntityText(n);
    ExactAtPrefix(e, b);
    assert (e + b)[|e|..] == b;
    SubIdentity(Entity(n, c), b);
  }

  /** The substitutions before entity `k`'s own leave its text alone. */
  lemma {:induction false} EntityUntouched(k: nat, b: string, j: nat)
    requires j <= k < |Entities| && '&' !in b
    ensures DecodeUpTo(EntityText(Entities[k].0) + b, j) == EntityText(Entities[k].0) + b
  {
    if j > 0 {
      var e := EntityText(Entities[k].0) + b;
      EntityUntouched(k, b, j - 1);
      EntityPair(j - 1, k);
      EntitySkip(Entities[j - 1].0, Entities[j - 1].1, Entities[k].0, b);
      assert DecodeUpTo(e, j) == Sub(Entity(Entities[j - 1].0, Entities[j - 1].1), DecodeUpTo(e, j - 1));
    }
  }

  /** Entity `k`'s own substitution turns its text into its character. */
  lemma EntityDecodedAt(k: nat, b: string)
    requires k < |Entities| && '&' !in b
    ensures DecodeUpTo(EntityText(Entities[k].0) + b, k + 1) == [Entities[k].1] + b
  {
    var e := EntityText(Entities[k].0) + b;
    EntityUntouched(k, b, k);
    EntityHit(Entities[k].0, Entities[k].1, b);
    assert DecodeUpTo(e, k + 1) == Sub(Entity(Entities[k].0, Entities[k].1), DecodeUpTo(e, k));
  }

  /** After it, the character stays. */
  lemma {:induction false} EntityDecoded(k: nat, b: string, j: nat)
    requires k < j <= |Entities| && '&' !in b
    ensures DecodeUpTo(EntityText(Entities[k].0) + b, j) == [Entities[k].1] + b
  {
    if j == k + 1 {
      EntityDecodedAt(k, b);
    } else {
      var e := EntityText(Entities[k].0) + b;
      EntityDecoded(k, b, j - 1);
      EntityPair(j - 1, k);
      SubIdentity(Entity(Entities[j - 1].0, Entities[j - 1].1), [Entities[k].1] + b);
      assert DecodeUpTo(e, j) == Sub(Entity(Entities[j - 1].0, Entities[j - 1].1), DecodeUpTo(e, j - 1));
    }
  }

  /** Each of the twelve table entities decodes to its character. */
  lemma DecodeEntity(k: nat, a: string, b: string)
    requires k < |Entities| && '&' !in a && '&' !in b
    ensures DecodeEntities(a + EntityText(Entities[k].0) + b) == a + [Entities[k].1] + b
  {
    assert a + EntityText(Entities[k].0) + b == a + (EntityText(Entities[k].0) + b);
    DecodeSkipsAmpFree(a, EntityText(Entities[k].0) + b, |Entities|);
    EntityDecoded(k, b, |Entities|);
  }

  /** Text without `&` is not touched by entity decoding. */
  lemma DecodeAmpFree(s: string)
    requires '&' !in s
    ensures DecodeEntities(s) == s
  {
    DecodeUpToAmpFree(s, |Entities|);
  }

  lemma {:induction false} DecodeUpToAmpFree(s: string, k: nat)
    requires '&' !in s && k <= |Entities|
    ensures DecodeUpTo(s, k) == s
  {
    if k > 0 {
      DecodeUpToAmpFree(s, k - 1);
      SubIdentity(Entity(Entities[k - 1].0, Entities[k - 1].1), s);
    }
  }

  /** Text without `<` is not touched by the tag rewrites. */
  lemma TagStepsTagFree(s: string)
    requires '<' !in s
    ensures TagSteps(s) == s
  {
    SubIdentity(UnwrapSpan, s);
    SubIdentity(OpenStrong, s);
    SubIdentity(CloseStrong, s);
    SubIdentity(OpenEm, s);
    SubIdentity(CloseEm, s);
    SubIdentity(CanonicalBreak, s);
    SubIdentity(StripOtherTags, s);
  }

  // ---------------------------------------------------------------------
  // clean_inner on text fragments

  /** On plain text (no tags, no ampersands) `clean_inner` only trims. */
  lemma CleanPlainText(s: string)
    requires '<' !in s && '&' !in s
    ensures Clean(s) == Trim(s)
  {
    TagStepsTagFree(s);
    DecodeAmpFree(s);
    SubIdentity(EscapeAmp, s);
  }

  /** A table entity inside plain text is decoded to its character. */
  lemma CleanDecodesEntity(k: nat, a: string, b: string)
    requires k < |Entities|
    requires '<' !in a && '&' !in a && '<' !in b && '&' !in b
    ensures Clean(a + EntityText(Entities[k].0) + b) == Trim(a + [Entities[k].1] + b)
  {
    EntityTableFacts();
    var s := a + EntityText(Entities[k].0) + b;
    assert '<' !in EntityText(Entities[k].0);
    TagStepsTagFree(s);
    DecodeEntity(k, a, b);
    SubIdentity(EscapeAmp, a + [Entities[k].1] + b);
  }

  /** In text with no tag and no other `&`, an `&` that starts neither a
      table entity nor a safe reference is escaped to `&amp;`; this covers
      unknown named entities such as `&eacute;`, whose text then shows
      verbatim. */
  lemma CleanEscapesBareAmp(a: string, b: string)
    requires '<' !in a && '&' !in a && '<' !in b && '&' !in b
    requires !SafeRef(b)
    requires forall k :: 0 <= k < |Entities| ==> !ExactAt("&" + b, 0, EntityText(Entities[k].0))
    ensures Clean(a + "&" + b) == Trim(a + "&amp;" + b)
  {
    var s := a + "&" + b;
    TagStepsTagFree(s);
    Regroup(a, "&", b);
    DecodeSkipsAmpFree(a, "&" + b, |Entities|);
    BareAmpSurvivesDecode(b, |Entities|);
    EscapeSkips(a, "&" + b);
    BareAmpEscaped(b);
    Regroup(a, "&amp;", b);
  }

  lemma BareAmpEscaped(b: string)
    requires '&' !in b && !SafeRef(b)
    ensures Sub(EscapeAmp, "&" + b) == "&amp;" + b
  {
    assert ("&" + b)[1..] == b;
    SubIdentity(EscapeAmp, b);
  }

  lemma {:induction false} BareAmpSurvivesDecode(b: string, j: nat)
    requires j <= |Entities| && '&' !in b
    requires forall k :: 0 <= k < |Entities| ==> !ExactAt("&" + b, 0, EntityText(Entities[k].0))
    ensures DecodeUpTo("&" + b, j) == "&" + b
  {
    if j > 0 {
      BareAmpSurvivesDecode(b, j - 1);
      var rule := Entity(Entities[j - 1].0, Entities[j - 1].1);
      assert MatchRule(rule, "&" + b).None?;
      assert ("&" + b)[1..] == b;
      SubIdentity(rule, b);
    }
  }
}
