/** The three POSIX path helpers of Python's os.path that the core relies on:
    basename (file metadata), dirname (the directory write_chunk creates) and
    join (the receiver's output path and the reassembly artefacts). */
module Paths {

  const Sep: char := '/'

  predicate AllSlashes(s: string)
  {
    forall k :: 0 <= k < |s| ==> s[k] == Sep
  }

  /** The index just after the last separator before j, or 0 when there is
      none: p.rfind('/') + 1 for j == |p|. */
  function AfterLastSep(p: string, j: nat): (k: nat)
    requires j <= |p|
    ensures k <= j
    ensures forall i :: k <= i < j ==> p[i] != Sep
    ensures k > 0 ==> p[k - 1] == Sep
    decreases j
  {
    if j == 0 || p[j - 1] == Sep then j else AfterLastSep(p, j - 1)
  }

  /** A separator-free stretch p[m..j] that starts the path or follows a
      separator ends at m when the search goes back from j. */
  lemma {:induction false} AfterLastSepIs(p: string, j: nat, m: nat)
    requires m <= j <= |p|
    requires forall i :: m <= i < j ==> p[i] != Sep
    requires m == 0 || p[m - 1] == Sep
    ensures AfterLastSep(p, j) == m
    decreases j
  {
    if j > m {
      AfterLastSepIs(p, j - 1, m);
    }
  }

  /** os.path.basename: everything after the last separator. */
  function Basename(p: string): (r: string)
    ensures Sep !in r
  {
    p[AfterLastSep(p, |p|)..]
  }

  /** The basename is the longest suffix without a separator: it is a
      suffix, and the character before it, if any, is a separator. */
  lemma BasenameIsLongestSuffix(p: string)
    ensures |Basename(p)| <= |p| && Basename(p) == p[|p| - |Basename(p)|..]
    ensures |Basename(p)| < |p| ==> p[|p| - |Basename(p)| - 1] == Sep
  {
  }

  /** The head that os.path.split leaves: everything up to and including
      the last separator. */
  function Head(p: string): (h: string)
    ensures p == h + Basename(p)
  {
    p[..AfterLastSep(p, |p|)]
  }

  /** Going back from j over separators: the least e such that s[e..j]
      is all separators. */
  function SkipSlashesBack(s: string, j: nat): (e: nat)
    requires j <= |s|
    ensures e <= j
    ensures forall i :: e <= i < j ==> s[i] == Sep
    ensures e > 0 ==> s[e - 1] != Sep
    decreases j
  {
    if j > 0 && s[j - 1] == Sep then SkipSlashesBack(s, j - 1) else j
  }

  /** str.rstrip('/'). */
  function StripTrailingSlashes(s: string): (r: string)
    ensures |r| <= |s| && r == s[..|r|]
    ensures !AllSlashes(s) ==> r != [] && r[|r| - 1] != Sep
    ensures AllSlashes(s[|r|..])
  {
    s[..SkipSlashesBack(s, |s|)]
  }

  /** os.path.dirname: the head, with trailing separators removed unless
      the head consists of separators only. It is empty exactly when the
      path has no separator at all. */
  function Dirname(p: string): (r: string)
    ensures r == [] <==> Sep !in p
  {
    var head := Head(p);
    assert Sep in p ==> head != [];
    assert Sep !in p ==> head == [];
    if head != [] && !AllSlashes(head) then StripTrailingSlashes(head) else head
  }

  /** os.path.join(a, b) for two components. */
  function Join(a: string, b: string): string
  {
    if |b| > 0 && b[0] == Sep then b
    else if a == [] || a[|a| - 1] == Sep then a + b
    else a + [Sep] + b
  }

  /** An absolute b discards a. Otherwise the result starts with a and
      ends with b, a separator comes right before b unless a is empty, and
      at most that one separator is added. */
  lemma JoinShape(a: string, b: string)
    ensures var r := Join(a, b);
      && |b| <= |r| && r[|r| - |b|..] == b
      && (|b| > 0 && b[0] == Sep ==> r == b)
      && ((b == [] || b[0] != Sep) ==> |a| + |b| <= |r| <= |a| + |b| + 1 && r[..|a|] == a)
      && ((b == [] || b[0] != Sep) && a != [] ==> r[|r| - |b| - 1] == Sep)
  {
  }

  lemma BasenameAfterSeparator(x: string, name: string)
    requires x == [] || x[|x| - 1] == Sep
    requires Sep !in name
    ensures Basename(x + name) == name
  {
    var p := x + name;
    forall i | |x| <= i < |p|
      ensures p[i] != Sep
    {
      assert p[i] == name[i - |x|];
    }
    AfterLastSepIs(p, |p|, |x|);
    assert p[|x|..] == name;
  }

  /** A file name without separators joined onto a directory is what
      basename gives back: the receiver stores the sender's file under the
      sender's own file name. */
  lemma BasenameOfJoin(dir: string, name: string)
    requires Sep !in name
    ensures Basename(Join(dir, name)) == name
  {
    if dir == [] || dir[|dir| - 1] == Sep {
      BasenameAfterSeparator(dir, name);
    } else {
      assert Join(dir, name) == (dir + [Sep]) + name;
      BasenameAfterSeparator(dir + [Sep], name);
    }
  }

  /** Joining relative names onto one directory never maps two names to
      one path. */
  lemma JoinInjective(dir: string, b1: string, b2: string)
    requires b1 == [] || b1[0] != Sep
    requires b2 == [] || b2[0] != Sep
    requires Join(dir, b1) == Join(dir, b2)
    ensures b1 == b2
  {
    var x := if dir == [] || dir[|dir| - 1] == Sep then dir else dir + [Sep];
    assert Join(dir, b1) == x + b1 && Join(dir, b2) == x + b2;
    assert b1 == (x + b1)[|x|..];
    assert b2 == (x + b2)[|x|..];
  }
}
