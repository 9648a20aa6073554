/** Characters, literal matching and searches over strings, with the
    character classes of Python's `re` module as the converter uses them. */
module Text {

  datatype Option<T> = None | Some(value: T)

  /** Python's `str.isspace()`: the characters matched by `\s` in a `str`
      pattern and removed by `str.strip()`. */
  predicate IsSpace(c: char) {
    ('\t' <= c <= '\r') || ('\U{1C}' <= c <= ' ') || c == '\U{85}' || c == '\U{A0}'
    || c == '\U{1680}' || ('\U{2000}' <= c <= '\U{200A}') || c == '\U{2028}' || c == '\U{2029}'
    || c == '\U{202F}' || c == '\U{205F}' || c == '\U{3000}'
  }

  /** `\w`, restricted to ASCII: letters, digits and the underscore. */
  predicate IsWordChar(c: char) {
    ('a' <= c <= 'z') || ('A' <= c <= 'Z') || ('0' <= c <= '9') || c == '_'
  }

  /** `\d`, restricted to ASCII digits. */
  predicate IsDigit(c: char) {
    '0' <= c <= '9'
  }

  predicate IsLowerLetter(c: char) {
    'a' <= c <= 'z'
  }

  function ToUpper(c: char): char {
    if 'a' <= c <= 'z' then (c as int - 32) as char else c
  }

  /** Does the subject character `c` match the pattern character `p` under
      `re.IGNORECASE`?  A lower-case letter matches itself, its upper-case
      form, and the extra characters Python's case folding ties to it. */
  predicate CiChar(c: char, p: char) {
    if IsLowerLetter(p) then
      c == p || c == ToUpper(p)
      || (p == 'i' && (c == '\U{131}' || c == '\U{130}'))
      || (p == 's' && c == '\U{17F}')
      || (p == 'k' && c == '\U{212A}')
    else c == p
  }

  /** The pattern literal `lit` (written in lower case) matches `t` at `i`,
      ignoring case. */
  predicate CiAt(t: string, i: nat, lit: string) {
    i + |lit| <= |t| && forall j :: 0 <= j < |lit| ==> CiChar(t[i + j], lit[j])
  }

  /** The literal `lit` occurs in `t` at `i`, case-sensitively. */
  predicate ExactAt(t: string, i: nat, lit: string) {
    i + |lit| <= |t| && forall j :: 0 <= j < |lit| ==> t[i + j] == lit[j]
  }

  /** A string occurs at the start of any extension of it. */
  lemma ExactAtPrefix(a: string, b: string)
    ensures ExactAt(a + b, 0, a)
  {
  }

  lemma Regroup(a: string, b: string, c: string)
    ensures a + b + c == a + (b + c)
  {
  }

  /** An occurrence of `a + b` is an occurrence of `a` followed by one of `b`. */
  lemma ExactAtSplit(t: string, i: nat, a: string, b: string)
    requires ExactAt(t, i, a + b)
    ensures ExactAt(t, i, a) && ExactAt(t, i + |a|, b)
  {
    forall j | 0 <= j < |a|
      ensures t[i + j] == a[j]
    {
      assert (a + b)[j] == a[j];
    }
    forall j | 0 <= j < |b|
      ensures t[i + |a| + j] == b[j]
    {
      assert (a + b)[|a| + j] == b[j];
    }
  }

  /** An exact occurrence is also a case-insensitive one. */
  lemma CiOfExact(t: string, i: nat, lit: string)
    requires ExactAt(t, i, lit)
    ensures CiAt(t, i, lit)
  {
    forall j | 0 <= j < |lit|
      ensures CiChar(t[i + j], lit[j])
    {
      assert t[i + j] == lit[j];
    }
  }

  lemma ExactAtChar(t: string, i: nat, lit: string, j: nat)
    requires ExactAt(t, i, lit) && j < |lit|
    ensures i + j < |t| && t[i + j] == lit[j]
  {
  }

  /** An occurrence is the slice it covers. */
  lemma ExactAtSlice(t: string, i: nat, lit: string)
    requires ExactAt(t, i, lit)
    ensures t[i..i + |lit|] == lit
  {
  }

  /** `\b` at position `x` of `t`: exactly one of the characters on either
      side of `x` is a word character. */
  predicate Boundary(t: string, x: nat)
    requires 0 < x <= |t|
  {
    IsWordChar(t[x - 1]) != (x < |t| && IsWordChar(t[x]))
  }

  /** Every character of `s` from index `m` on is whitespace. */
  predicate SpaceFrom(s: string, m: nat) {
    forall k :: m <= k < |s| ==> IsSpace(s[k])
  }

  /** The first index at or after `from` holding `c`. */
  function FindChar(t: string, from: nat, c: char): (r: Option<nat>)
    decreases |t| - from
    ensures r.Some? ==> from <= r.value < |t| && t[r.value] == c
    ensures r.Some? ==> forall j :: from <= j < r.value ==> t[j] != c
    ensures r.None? ==> forall j :: from <= j < |t| ==> t[j] != c
  {
    if from >= |t| then None
    else if t[from] == c then Some(from)
    else FindChar(t, from + 1, c)
  }

  /** The first index at or after `from` where `lit` matches ignoring case. */
  function FindCi(t: string, from: nat, lit: string): (r: Option<nat>)
    decreases |t| - from
    ensures r.Some? ==> from <= r.value && CiAt(t, r.value, lit)
    ensures r.Some? ==> forall j :: from <= j < r.value ==> !CiAt(t, j, lit)
    ensures r.None? ==> forall j :: from <= j ==> !CiAt(t, j, lit)
  {
    if from + |lit| > |t| then None
    else if CiAt(t, from, lit) then Some(from)
    else FindCi(t, from + 1, lit)
  }

  /** Length of the maximal run of whitespace that starts `t` (`\s+`,
      length zero when there is none). */
  function SpaceRun(t: string): (r: nat)
    ensures r <= |t|
    ensures forall j :: 0 <= j < r ==> IsSpace(t[j])
    ensures r == |t| || !IsSpace(t[r])
  {
    if t != [] && IsSpace(t[0]) then 1 + SpaceRun(t[1..]) else 0
  }

  /** Length of the maximal run of ASCII digits that starts `t`. */
  function DigitRun(t: string): (r: nat)
    ensures r <= |t|
    ensures forall j :: 0 <= j < r ==> IsDigit(t[j])
    ensures r == |t| || !IsDigit(t[r])
  {
    if t != [] && IsDigit(t[0]) then 1 + DigitRun(t[1..]) else 0
  }

  /** Where the maximal run of whitespace that ends `t` begins. */
  function TrailStart(t: string): (r: nat)
    ensures r <= |t| && SpaceFrom(t, r)
    ensures r == 0 || !IsSpace(t[r - 1])
  {
    if t != [] && IsSpace(t[|t| - 1]) then TrailStart(t[..|t| - 1]) else |t|
  }

  /** Where `str.strip()` stops cutting at the end: never before the point
      where it stops cutting at the start. */
  function TrimEnd(s: string): (j: nat)
    ensures SpaceRun(s) <= j <= |s| && SpaceFrom(s, j)
    ensures j == SpaceRun(s) || !IsSpace(s[j - 1])
  {
    if TrailStart(s) < SpaceRun(s) then SpaceRun(s) else TrailStart(s)
  }

  /** Python's `str.strip()` with no argument: the part of `s` left after
      cutting whitespace from both ends. What is cut is whitespace, and the
      result neither starts nor ends with whitespace. */
  function Trim(s: string): (r: string)
    ensures SpaceRun(s) <= TrimEnd(s) && r == s[SpaceRun(s)..TrimEnd(s)]
    ensures r == [] || (!IsSpace(r[0]) && !IsSpace(r[|r| - 1]))
  {
    s[SpaceRun(s)..TrimEnd(s)]
  }

  /** No whitespace at either end. */
  predicate Trimmed(s: string) {
    s == [] || (!IsSpace(s[0]) && !IsSpace(s[|s| - 1]))
  }

  /** A string that neither starts nor ends with whitespace is its own trim. */
  lemma TrimOfTrimmed(s: string)
    requires Trimmed(s)
    ensures Trim(s) == s
  {
  }

  /** Trimming twice is trimming once. */
  lemma TrimIdempotent(s: string)
    ensures Trim(Trim(s)) == Trim(s)
  {
    TrimOfTrimmed(Trim(s));
  }

  /** The whitespace run at the start of `y + r`: the run of `y`, continued
      into `r` when all of `y` is whitespace. */
  lemma {:induction false} SpaceRunAppend(y: string, r: string)
    ensures SpaceRun(y + r) == if SpaceRun(y) < |y| then SpaceRun(y) else |y| + SpaceRun(r)
  {
    if y == [] {
      assert y + r == r;
    } else {
      assert (y + r)[0] == y[0];
      if IsSpace(y[0]) {
        assert (y + r)[1..] == y[1..] + r;
        SpaceRunAppend(y[1..], r);
      }
    }
  }
}
