/** Shared vocabulary: bytes, optional values, Python's decimal rendering of
    integers (f-strings) and Python's str.strip(). */
module Base {

  type Byte = bv8
  type Bytes = seq<Byte>

  datatype Option<+T> = None | Some(value: T)

  /** The newline byte that terminates every control frame. */
  const NewLine: Byte := 10

  function Max0(i: int): nat { if i < 0 then 0 else i }

  function Min(a: int, b: int): int { if a <= b then a else b }

  /** Concatenation of a list of byte strings, in order. */
  function Concat(parts: seq<Bytes>): (r: Bytes)
  {
    if parts == [] then [] else Concat(parts[..|parts| - 1]) + parts[|parts| - 1]
  }

  lemma {:induction false} ConcatAppend(parts: seq<Bytes>, last: Bytes)
    ensures Concat(parts + [last]) == Concat(parts) + last
  {
    assert (parts + [last])[..|parts|] == parts;
  }

  /** Regrouping a concatenation, stated once so that the callers need not
      prove it element by element. */
  lemma AppendAssoc<T>(a: seq<T>, b: seq<T>, c: seq<T>)
    ensures (a + b) + c == a + (b + c)
  {
  }

  /** Two appends in a row are one append of both. */
  lemma AppendTwo<T>(a: seq<T>, x: T, y: T)
    ensures (a + [x]) + [y] == a + [x, y]
  {
  }

  // ---------------------------------------------------------------------------
  // Decimal rendering, as f"{i}" produces it.

  function DigitChar(d: nat): (c: char)
    requires d < 10
    ensures '0' <= c <= '9'
  {
    "0123456789"[d]
  }

  lemma DigitCharInjective(a: nat, b: nat)
    requires a < 10 && b < 10 && DigitChar(a) == DigitChar(b)
    ensures a == b
  {
  }

  function NatToString(n: nat): (r: string)
    ensures 1 <= |r|
    ensures n >= 10 ==> 2 <= |r|
    ensures forall k :: 0 <= k < |r| ==> '0' <= r[k] <= '9'
    decreases n
  {
    if n < 10 then [DigitChar(n)] else NatToString(n / 10) + [DigitChar(n % 10)]
  }

  /** Distinct numbers render as distinct strings. */
  lemma {:induction false} NatToStringInjective(a: nat, b: nat)
    requires NatToString(a) == NatToString(b)
    ensures a == b
    decreases a
  {
    var s := NatToString(a);
    if a < 10 && b < 10 {
      DigitCharInjective(a, b);
    } else if a >= 10 && b >= 10 {
      assert s[..|s| - 1] == NatToString(a / 10);
      assert NatToString(b)[..|s| - 1] == NatToString(b / 10);
      NatToStringInjective(a / 10, b / 10);
      DigitCharInjective(a % 10, b % 10);
    }
  }

  function IntToString(i: int): (r: string)
    ensures 1 <= |r| && (r[0] == '-' <==> i < 0)
  {
    if i < 0 then "-" + NatToString(-i) else NatToString(i)
  }

  lemma IntToStringInjective(a: int, b: int)
    requires IntToString(a) == IntToString(b)
    ensures a == b
  {
    var x := IntToString(a);
    if a < 0 && b < 0 {
      var s, u := NatToString(-a), NatToString(-b);
      assert x[1..] == s by { assert x == ['-'] + s; }
      assert x[1..] == u by { assert x == ['-'] + u; }
      NatToStringInjective(-a, -b);
    } else if a >= 0 && b >= 0 {
      NatToStringInjective(a, b);
    }
  }

  // ---------------------------------------------------------------------------
  // str.strip() with no argument: removes the characters Python's
  // str.isspace() accepts from both ends.

  predicate IsSpace(c: char)
  {
    c == ' ' || ('\t' <= c <= '\r') || ('\U{1c}' <= c <= '\U{1f}')
    || c == '\U{85}' || c == '\U{a0}' || c == '\U{1680}'
    || ('\U{2000}' <= c <= '\U{200a}') || c == '\U{2028}' || c == '\U{2029}'
    || c == '\U{202f}' || c == '\U{205f}' || c == '\U{3000}'
  }

  /** The first index at or after i that does not hold whitespace, or |s|. */
  function SkipSpaces(s: string, i: nat): (j: nat)
    requires i <= |s|
    ensures i <= j <= |s|
    ensures forall k :: i <= k < j ==> IsSpace(s[k])
    ensures j < |s| ==> !IsSpace(s[j])
    decreases |s| - i
  {
    if i < |s| && IsSpace(s[i]) then SkipSpaces(s, i + 1) else i
  }

  /** Going back from j over whitespace, never below lo: the least e such
      that s[e..j] is all whitespace. */
  function SkipSpacesBack(s: string, lo: nat, j: nat): (e: nat)
    requires lo <= j <= |s|
    ensures lo <= e <= j
    ensures forall k :: e <= k < j ==> IsSpace(s[k])
    ensures e > lo ==> !IsSpace(s[e - 1])
    decreases j
  {
    if j > lo && IsSpace(s[j - 1]) then SkipSpacesBack(s, lo, j - 1) else j
  }

  /** r is s[a..a + |r|] and everything outside that window is whitespace. */
  ghost predicate TrimmedAt(s: string, r: string, a: int)
  {
    && 0 <= a <= |s| - |r| && r == s[a..a + |r|]
    && (forall k :: 0 <= k < a ==> IsSpace(s[k]))
    && (forall k :: a + |r| <= k < |s| ==> IsSpace(s[k]))
  }

  /** The stripped text is a contiguous piece of the input, everything cut
      away is whitespace, and it neither starts nor ends with whitespace. */
  function Strip(s: string): (r: string)
    ensures exists a :: TrimmedAt(s, r, a)
    ensures r == [] || (!IsSpace(r[0]) && !IsSpace(r[|r| - 1]))
  {
    var a := SkipSpaces(s, 0);
    var e := SkipSpacesBack(s, a, |s|);
    assert TrimmedAt(s, s[a..e], a);
    s[a..e]
  }

  /** A token with no surrounding whitespace survives strip() unchanged,
      also after a trailing newline is added (as every reply carries). */
  lemma StripNewlineTerminated(t: string)
    requires t == [] || (!IsSpace(t[0]) && !IsSpace(t[|t| - 1]))
    ensures Strip(t + "\n") == t
  {
    var s := t + "\n";
    assert s[|s| - 1] == '\n';
    if t == [] {
      assert SkipSpaces(s, 1) == 1;
      assert SkipSpaces(s, 0) == 1;
      assert SkipSpacesBack(s, 1, 1) == 1;
    } else {
      assert s[0] == t[0] && s[|t| - 1] == t[|t| - 1];
      assert SkipSpaces(s, 0) == 0;
      assert SkipSpacesBack(s, 0, |t|) == |t|;
      assert SkipSpacesBack(s, 0, |s|) == |t|;
      assert s[0..|t|] == t;
    }
  }
}
