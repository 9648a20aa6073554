/** The clean-up of the model's answer in `generate_teacher_guide`
    (main.py:144-147): the text is stripped, then an opening markdown fence
    and a closing one are cut off. */
module Fences {
  import opened Text

  const Fence := "```"

  predicate EndsWith(s: string, suffix: string) {
    |suffix| <= |s| && s[|s| - |suffix|..] == suffix
  }

  /** `re.sub(r"^```(?:html)?\s*", "", t, flags=re.IGNORECASE)`: at the
      start only, three backticks, then `html` in any case when it is
      there, then the run of whitespace after them. */
  function StripOpeningFence(t: string): (r: string)
    ensures !ExactAt(t, 0, Fence) ==> r == t
    ensures ExactAt(t, 0, Fence) ==> |r| <= |t| - 3 && r == t[|t| - |r|..]
  {
    if ExactAt(t, 0, Fence) then
      var k := if CiAt(t, 3, "html") then 7 else 3;
      t[k..][SpaceRun(t[k..])..]
    else t
  }

  /** `re.sub(r"\s*```$", "", t)`. Python's `$` matches at the end and also
      just before a final newline, so the fence may be followed by one
      `\n`, which is kept. The leftmost match starts where the run of
      whitespace before the fence begins. */
  function StripClosingFence(t: string): (r: string)
    ensures EndsWith(t, Fence) ==> |r| <= |t| - 3 && r == t[..|r|]
    ensures !EndsWith(t, Fence) && !EndsWith(t, Fence + "\n") ==> r == t
  {
    if EndsWith(t, Fence) then
      var b := t[..|t| - 3];
      b[..TrailStart(b)]
    else if EndsWith(t, Fence + "\n") then
      var b := t[..|t| - 4];
      b[..TrailStart(b)] + "\n"
    else t
  }

  /** Both substitutions, in the order of the source. */
  function StripFences(raw: string): string {
    StripClosingFence(StripOpeningFence(raw))
  }

  /** The answer as `generate_teacher_guide` returns it. */
  function CleanResponse(text: string): string {
    StripFences(Trim(text))
  }

  /** A fence language tag the opening pattern consumes: absent, or `html`
      in any case. */
  predicate FenceLanguage(lang: string) {
    lang == [] || (|lang| == 4 && CiAt(lang, 0, "html"))
  }

  /** Whitespace appended after text that ends in a non-space character is
      exactly the trailing run. */
  lemma {:induction false} TrailStartAppend(x: string, w: string)
    requires SpaceFrom(w, 0) && (x == [] || !IsSpace(x[|x| - 1]))
    ensures TrailStart(x + w) == |x|
    decreases |w|
  {
    if w == [] {
      assert x + w == x;
    } else {
      var s := x + w;
      assert s[|s| - 1] == w[|w| - 1];
      assert s[..|s| - 1] == x + w[..|w| - 1];
      TrailStartAppend(x, w[..|w| - 1]);
    }
  }

  /** Whitespace on both sides of a trimmed text is what `strip()` removes. */
  lemma TrimAround(a: string, m: string, c: string)
    requires SpaceFrom(a, 0) && SpaceFrom(c, 0) && m != [] && Trimmed(m)
    ensures Trim(a + m + c) == m
  {
    var s := a + m + c;
    assert s == a + (m + c);
    SpaceRunAppend(a, m + c);
    assert (m + c)[0] == m[0];
    TrailStartAppend(a + m, c);
    assert s[|a|..|a| + |m|] == m;
  }

  /** What the opening pattern leaves of a fenced text. */
  lemma OpeningStripped(lang: string, rest: string)
    requires FenceLanguage(lang)
    requires lang == [] ==> !CiAt(rest, 0, "html")
    ensures StripOpeningFence(Fence + lang + rest) == rest[SpaceRun(rest)..]
  {
    var t := Fence + lang + rest;
    Regroup(Fence, lang, rest);
    ExactAtPrefix(Fence, lang + rest);
    if lang == [] {
      assert lang + rest == rest;
      BareFence(rest);
    } else {
      TaggedFence(lang, rest);
    }
  }

  /** Without a language tag, `html` matches after the fence exactly when
      the text after it starts with `html`. */
  lemma BareFence(rest: string)
    ensures CiAt(Fence + rest, 3, "html") <==> CiAt(rest, 0, "html")
    ensures (Fence + rest)[3..] == rest
  {
    var t := Fence + rest;
    if CiAt(rest, 0, "html") {
      forall j | 0 <= j < 4
        ensures CiChar(t[3 + j], "html"[j])
      {
        assert t[3 + j] == rest[0 + j];
      }
    }
    if CiAt(t, 3, "html") {
      forall j | 0 <= j < 4
        ensures CiChar(rest[0 + j], "html"[j])
      {
        assert t[3 + j] == rest[0 + j];
      }
    }
  }

  /** Text that does not start with `html` keeps not starting with it when
      whitespace and a fence follow it. */
  lemma NoTagAhead(body: string, w: string)
    requires body != [] && !CiAt(body, 0, "html") && SpaceFrom(w, 0)
    ensures !CiAt(body + w + Fence, 0, "html")
  {
    var y := body + w + Fence;
    if |body| >= 4 {
      assert forall j :: 0 <= j < 4 ==> y[j] == body[j];
    } else {
      var k := |body|;
      assert y[k] == (w + Fence)[0];
      assert IsSpace(y[k]) || y[k] == '`';
      assert !CiChar(y[0 + k], "html"[k]);
    }
  }

  /** With the tag, `html` matches and the text after it is what follows. */
  lemma TaggedFence(lang: string, rest: string)
    requires |lang| == 4 && CiAt(lang, 0, "html")
    ensures CiAt(Fence + (lang + rest), 3, "html") && (Fence + (lang + rest))[7..] == rest
  {
    var t := Fence + (lang + rest);
    forall j | 0 <= j < 4
      ensures CiChar(t[3 + j], "html"[j])
    {
      assert t[3 + j] == lang[j];
      assert CiChar(lang[0 + j], "html"[j]);
    }
  }

  /** What the closing pattern leaves of a text ending in a fence. */
  lemma ClosingStripped(b: string)
    ensures StripClosingFence(b + Fence) == b[..TrailStart(b)]
  {
    var t := b + Fence;
    assert t[|t| - 3..] == Fence;
    assert t[..|t| - 3] == b;
  }

  /** Leading whitespace before a non-space character is exactly the
      leading run. */
  lemma SkipLeadingSpace(w: string, y: string)
    requires SpaceFrom(w, 0) && y != [] && !IsSpace(y[0])
    ensures (w + y)[SpaceRun(w + y)..] == y
  {
    SpaceRunAppend(w, y);
  }

  /** A fenced answer, with or without the `html` tag and with whitespace
      inside the fences, comes back as the text between them. */
  lemma FenceRoundTrip(lang: string, w1: string, body: string, w2: string)
    requires FenceLanguage(lang) && SpaceFrom(w1, 0) && SpaceFrom(w2, 0)
    requires body != [] && Trimmed(body)
    requires lang == [] && w1 == [] ==> !CiAt(body, 0, "html")
    ensures StripFences(Fence + lang + w1 + body + w2 + Fence) == body
  {
    var y := body + w2 + Fence;
    var rest := w1 + y;
    assert Fence + lang + w1 + body + w2 + Fence == Fence + lang + rest;
    if lang == [] {
      if w1 == [] {
        NoTagAhead(body, w2);
        assert rest == y;
      } else {
        assert rest[0] == w1[0];
        assert !CiChar(rest[0 + 0], "html"[0]);
      }
    }
    OpeningStripped(lang, rest);
    assert y[0] == body[0];
    SkipLeadingSpace(w1, y);
    assert y == (body + w2) + Fence;
    ClosingStripped(body + w2);
    TrailStartAppend(body, w2);
    assert (body + w2)[..|body|] == body;
  }

  /** The same for a whole answer, whitespace around the fences included. */
  lemma ResponseRoundTrip(a: string, lang: string, w1: string, body: string, w2: string, c: string)
    requires FenceLanguage(lang) && SpaceFrom(w1, 0) && SpaceFrom(w2, 0) && SpaceFrom(a, 0) && SpaceFrom(c, 0)
    requires body != [] && Trimmed(body)
    requires lang == [] && w1 == [] ==> !CiAt(body, 0, "html")
    ensures CleanResponse(a + (Fence + lang + w1 + body + w2 + Fence) + c) == body
  {
    var m := Fence + lang + w1 + body + w2 + Fence;
    assert m[0] == '`' && m[|m| - 1] == '`';
    TrimAround(a, m, c);
    FenceRoundTrip(lang, w1, body, w2);
  }

  /** A trimmed answer without fences is returned as it is. */
  lemma UnfencedUnchanged(text: string)
    requires !ExactAt(Trim(text), 0, Fence) && !EndsWith(Trim(text), Fence)
    ensures CleanResponse(text) == Trim(text)
  {
    var t := Trim(text);
    assert !EndsWith(t, Fence + "\n") by {
      if |t| >= 4 {
        assert !IsSpace(t[|t| - 1]);
        assert t[|t| - 4..][3] == t[|t| - 1] && (Fence + "\n")[3] == '\n';
      }
    }
  }
}
