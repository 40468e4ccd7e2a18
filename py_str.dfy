/** The pieces of Python's `str` and `bytes` behaviour that the ingestion
    code relies on: `str.isspace`, `str.strip`, slicing with clamped bounds,
    and the `x or default` idiom on optional strings. */
module PyStr {
  import opened Wrappers

  /** An element of a Python `bytes` object. */
  newtype byte = x: int | 0 <= x < 256

  /** Python's `str.isspace` on one code point: the characters whose
      bidirectional class is WS, B or S, or whose category is Zs. */
  predicate IsSpace(c: char)
    ensures c as int < 128 ==> (IsSpace(c) <==> '\t' <= c <= '\r' || '\U{1c}' <= c <= ' ')
  {
    ('\t' <= c <= '\r') || ('\U{1c}' <= c <= '\U{1f}') || c == ' '
    || c == '\U{85}' || c == '\U{a0}' || c == '\U{1680}'
    || ('\U{2000}' <= c <= '\U{200a}') || c == '\U{2028}' || c == '\U{2029}'
    || c == '\U{202f}' || c == '\U{205f}' || c == '\U{3000}'
  }

  predicate AllSpace(s: string)
  {
    forall k :: 0 <= k < |s| ==> IsSpace(s[k])
  }

  /** `t` occurs in `s` starting at index `at`. */
  predicate OccursAt(t: string, s: string, at: nat)
  {
    at + |t| <= |s| && s[at..at + |t|] == t
  }

  /** A piece of a piece of `s` is a piece of `s`. */
  lemma OccursWithin(t: string, w: string, s: string, a: nat, b: nat)
    requires OccursAt(t, w, a) && OccursAt(w, s, b)
    ensures OccursAt(t, s, b + a)
  {
    forall j | 0 <= j < |t| ensures t[j] == s[b + a + j] {
      assert t[j] == w[a + j] == s[b + a + j];
    }
  }

  function Min(a: int, b: int): int { if a <= b then a else b }

  /** Python's `s[lo:hi]` for non-negative bounds: both ends are clamped to
      the length, and an empty range gives the empty string. */
  function Slice(s: string, lo: nat, hi: nat): (r: string)
    ensures |r| == if lo < |s| && lo < hi then Min(hi, |s|) - lo else 0
    ensures lo < |s| && lo < hi ==> OccursAt(r, s, lo)
  {
    if lo < |s| && lo < hi then s[lo..Min(hi, |s|)] else []
  }

  /** `s` without its leading whitespace (Python's `s.lstrip()`). */
  function TrimLeft(s: string): (r: string)
    ensures |r| <= |s|
  {
    if s != [] && IsSpace(s[0]) then TrimLeft(s[1..]) else s
  }

  /** `s` without its trailing whitespace (Python's `s.rstrip()`). */
  function TrimRight(s: string): (r: string)
    ensures |r| <= |s|
  {
    if s != [] && IsSpace(s[|s| - 1]) then TrimRight(s[..|s| - 1]) else s
  }

  /** Python's `s.strip()` with no argument. */
  function Strip(s: string): (r: string)
    ensures |r| <= |s|
  {
    TrimRight(TrimLeft(s))
  }

  /** Where the stripped text starts in `s`: the number of leading
      whitespace characters. */
  function StripOffset(s: string): nat
  {
    |s| - |TrimLeft(s)|
  }

  lemma {:induction false} TrimLeftSpec(s: string)
    ensures |TrimLeft(s)| <= |s| && TrimLeft(s) == s[|s| - |TrimLeft(s)|..]
    ensures forall k :: 0 <= k < |s| - |TrimLeft(s)| ==> IsSpace(s[k])
    ensures TrimLeft(s) != [] ==> !IsSpace(TrimLeft(s)[0])
  {
    if s != [] && IsSpace(s[0]) {
      TrimLeftSpec(s[1..]);
    }
  }

  lemma {:induction false} TrimRightSpec(s: string)
    ensures |TrimRight(s)| <= |s| && TrimRight(s) == s[..|TrimRight(s)|]
    ensures forall k :: |TrimRight(s)| <= k < |s| ==> IsSpace(s[k])
    ensures TrimRight(s) != [] ==> !IsSpace(TrimRight(s)[|TrimRight(s)| - 1])
  {
    if s != [] && IsSpace(s[|s| - 1]) {
      TrimRightSpec(s[..|s| - 1]);
    }
  }

  /** What `strip` leaves: a contiguous piece of `s` preceded and followed
      only by whitespace, empty exactly when `s` is all whitespace, and
      otherwise starting and ending with a non-whitespace character. */
  lemma StripSpec(s: string)
    ensures OccursAt(Strip(s), s, StripOffset(s))
    ensures forall k :: 0 <= k < StripOffset(s) ==> IsSpace(s[k])
    ensures forall k :: StripOffset(s) + |Strip(s)| <= k < |s| ==> IsSpace(s[k])
    ensures Strip(s) == [] <==> AllSpace(s)
    ensures Strip(s) != [] ==> !IsSpace(Strip(s)[0]) && !IsSpace(Strip(s)[|Strip(s)| - 1])
  {
    var l := TrimLeft(s);
    var r := TrimRight(l);
    TrimLeftSpec(s);
    TrimRightSpec(l);
    var o := StripOffset(s);
    assert s[o..o + |r|] == r;
    forall k | o + |r| <= k < |s| ensures IsSpace(s[k]) {
      assert s[k] == l[k - o];
    }
    if r == [] {
      assert l == [];
    } else {
      assert l[0] == r[0] == s[o];
    }
  }

  /** A string that neither starts nor ends with whitespace is its own strip. */
  lemma StripTrimmed(s: string)
    requires s == [] || (!IsSpace(s[0]) && !IsSpace(s[|s| - 1]))
    ensures Strip(s) == s
  {
  }

  /** Stripping is idempotent. */
  lemma StripIdempotent(s: string)
    ensures Strip(Strip(s)) == Strip(s)
  {
    StripSpec(s);
    StripTrimmed(Strip(s));
  }

  /** Python's truth test on an optional string: `None` and the empty
      string are both falsy. */
  predicate Truthy(value: Option<string>)
  {
    value.Some? && value.value != []
  }

  /** Python's `value or default` for an optional string. */
  function OrDefault(value: Option<string>, default: string): (r: string)
    ensures value.Some? && value.value != [] ==> r == value.value
    ensures value.None? || value.value == [] ==> r == default
  {
    if Truthy(value) then value.value else default
  }
}
