/**
 * String primitives shared by the transcoder: the character classes the
 * PCRE patterns and PHP trimming functions use, prefix tests, and PHP's
 * `str_replace` (single pair and ordered array form).
 */
module Text {

  datatype Option<T> = None | Some(value: T)

  /** PCRE `\s` without UTF mode: space, tab, LF, VT, FF, CR. */
  predicate IsSpace(c: char)
  {
    c == ' ' || c == '\t' || c == '\n' || c == '\U{0B}' || c == '\U{0C}' || c == '\r'
  }

  /** The characters PHP's `trim`/`rtrim` strip by default: space, tab, LF, CR, NUL, VT. */
  predicate IsTrimmable(c: char)
  {
    c == ' ' || c == '\t' || c == '\n' || c == '\r' || c == '\0' || c == '\U{0B}'
  }

  /** The character class `[a-zA-Z0-9_\-]` used for tag and attribute names. */
  predicate IsNameChar(c: char)
  {
    ('a' <= c <= 'z') || ('A' <= c <= 'Z') || ('0' <= c <= '9') || c == '_' || c == '-'
  }

  /** A lower-case hexadecimal digit, as produced by `md5`. */
  predicate IsLowerHex(c: char)
  {
    ('0' <= c <= '9') || ('a' <= c <= 'f')
  }

  /** ASCII lower-casing, as PCRE's `i` flag and `strtolower` apply it. */
  function ToLowerChar(c: char): (r: char)
    ensures 'A' <= c <= 'Z' ==> r as int == c as int + 32
    ensures !('A' <= c <= 'Z') ==> r == c
  {
    if 'A' <= c <= 'Z' then (c as int + 32) as char else c
  }

  function ToLower(s: string): (r: string)
    ensures |r| == |s|
    ensures forall i :: 0 <= i < |s| ==> r[i] == ToLowerChar(s[i])
  {
    if s == [] then [] else [ToLowerChar(s[0])] + ToLower(s[1..])
  }

  predicate StartsWith(s: string, p: string)
  {
    |p| <= |s| && s[..|p|] == p
  }

  /** `p` occurs nowhere in `s`. */
  predicate Absent(p: string, s: string)
  {
    forall i :: 0 <= i <= |s| ==> !StartsWith(s[i..], p)
  }

  /** No character of `s` is `c`. */
  predicate Lacks(s: string, c: char)
  {
    forall i :: 0 <= i < |s| ==> s[i] != c
  }

  /** Length of the longest run of `\s` characters at the front of `s`. */
  function SpaceRun(s: string): (n: nat)
    ensures n <= |s|
    ensures forall i :: 0 <= i < n ==> IsSpace(s[i])
    ensures n == |s| || !IsSpace(s[n])
  {
    if s == [] || !IsSpace(s[0]) then 0 else 1 + SpaceRun(s[1..])
  }

  /** Length of the longest run of `[a-zA-Z0-9_\-]` characters at the front of `s`. */
  function NameRun(s: string): (n: nat)
    ensures n <= |s|
    ensures forall i :: 0 <= i < n ==> IsNameChar(s[i])
    ensures n == |s| || !IsNameChar(s[n])
  {
    if s == [] || !IsNameChar(s[0]) then 0 else 1 + NameRun(s[1..])
  }

  /** A name run stops where the text stops being name characters. */
  lemma {:induction false} NameRunCut(u: string, v: string)
    requires v == [] || !IsNameChar(v[0])
    ensures NameRun(u + v) == NameRun(u)
    decreases |u|
  {
    if u == [] {
      assert u + v == v;
    } else {
      assert (u + v)[1..] == u[1..] + v;
      NameRunCut(u[1..], v);
    }
  }

  /** A run that stops where the class does has the run's length. */
  lemma {:induction false} NameRunExact(u: string, n: nat)
    requires n <= |u| && (forall i :: 0 <= i < n ==> IsNameChar(u[i]))
    requires n == |u| || !IsNameChar(u[n])
    ensures NameRun(u) == n
    decreases n
  {
    if n > 0 {
      assert forall i :: 0 <= i < n - 1 ==> u[1..][i] == u[i + 1];
      NameRunExact(u[1..], n - 1);
    }
  }

  /** The head and tail of a concatenation with a non-empty head. */
  lemma ConsSplit(x: string, y: string)
    requires x != []
    ensures (x + y)[0] == x[0] && (x + y)[1..] == x[1..] + y
  {
  }

  lemma ConsJoin(x: string, z: string)
    requires x != []
    ensures [x[0]] + (x[1..] + z) == x + z
  {
    assert x == [x[0]] + x[1..];
  }

  /** A prefix of `x` seen one character in. */
  lemma StartsWithTail(x: string, w: string)
    requires w != [] && StartsWith(x, w)
    ensures x != [] && x[0] == w[0] && StartsWith(x[1..], w[1..])
  {
    assert x[1..][..|w| - 1] == x[..|w|][1..];
  }

  lemma StartsWithCons(x: string, w: string)
    requires x != [] && w != [] && x[0] == w[0] && StartsWith(x[1..], w[1..])
    ensures StartsWith(x, w)
  {
    assert x[..|w|] == [x[0]] + x[1..][..|w| - 1];
  }

  /** A string is its first character followed by the rest. */
  lemma ConsSelf(s: string)
    requires s != []
    ensures [s[0]] + s[1..] == s
  {
  }

  lemma ConsParts(c: char, t: string)
    ensures ([c] + t)[0] == c && ([c] + t)[1..] == t
  {
  }

  /** A string that starts with `p` is `p` followed by the rest. */
  lemma PrefixSplit(s: string, p: string)
    requires StartsWith(s, p)
    ensures s == p + s[|p|..]
  {
    assert s == s[..|p|] + s[|p|..];
  }

  /** The position of the first `c` in `s`, as `strpos` or a `[^c]*c` pattern finds it. */
  function IndexOf(s: string, c: char): (r: Option<nat>)
    ensures r.Some? ==> r.value < |s| && s[r.value] == c && Lacks(s[..r.value], c)
    ensures r.None? ==> Lacks(s, c)
  {
    if s == [] then None
    else if s[0] == c then Some(0)
    else match IndexOf(s[1..], c)
      case None => None
      case Some(j) => Some(j + 1)
  }

  /** The first `c` is where `IndexOf` finds it. */
  lemma IndexOfFirst(s: string, c: char, j: nat)
    requires j < |s| && s[j] == c && Lacks(s[..j], c)
    ensures IndexOf(s, c) == Some(j)
  {
    var r := IndexOf(s, c);
    assert s[j] == c;
    assert forall i :: 0 <= i < j ==> s[..j][i] == s[i];
    assert r.Some? ==> forall i :: 0 <= i < r.value ==> s[..r.value][i] == s[i];
  }

  /** A character missing before `k` is missing from every piece of that prefix. */
  lemma LacksSlice(s: string, c: char, i: nat, k: nat)
    requires i <= k <= |s| && Lacks(s[..k], c)
    ensures Lacks(s[i..][..k - i], c)
  {
    var t := s[i..][..k - i];
    forall j | 0 <= j < |t|
      ensures t[j] != c
    {
      assert t[j] == s[..k][i + j];
    }
  }

  /** Re-attaching the first character to a chunk of the rest. */
  lemma ConsChunk(s: string, k: nat, x: string, z: string)
    requires 0 < k < |s|
    ensures [s[0]] + (s[1..][..k] + x + z) == s[..k + 1] + x + z
  {
    assert [s[0]] + s[1..][..k] == s[..k + 1];
  }

  /** PHP `rtrim($s)` with the default character list. */
  function RTrim(s: string): (r: string)
    ensures StartsWith(s, r)
    ensures r == [] || !IsTrimmable(r[|r| - 1])
    ensures forall i :: |r| <= i < |s| ==> IsTrimmable(s[i])
  {
    if s == [] || !IsTrimmable(s[|s| - 1]) then s else RTrim(s[..|s| - 1])
  }

  /** PHP `'' === trim($s)`: every character is one `trim` strips. */
  predicate TrimsToEmpty(s: string)
  {
    forall i :: 0 <= i < |s| ==> IsTrimmable(s[i])
  }

  /**
   * PHP `str_replace($a, $b, $s)` for one pair: a left-to-right scan that
   * replaces non-overlapping occurrences of `a` and copies everything else.
   */
  function ReplaceAll(s: string, a: string, b: string): (r: string)
    requires a != []
    decreases |s|
  {
    if s == [] then []
    else if StartsWith(s, a) then b + ReplaceAll(s[|a|..], a, b)
    else [s[0]] + ReplaceAll(s[1..], a, b)
  }

  /**
   * PHP `str_replace($froms, $tos, $s)` with two arrays of equal length: the
   * pairs are applied one after another, each to the whole result of the
   * previous one.
   */
  function ReplaceEach(s: string, froms: seq<string>, tos: seq<string>): (r: string)
    requires |froms| == |tos|
    requires forall k :: 0 <= k < |froms| ==> froms[k] != []
    decreases |froms|
  {
    if froms == [] then s else ReplaceEach(ReplaceAll(s, froms[0], tos[0]), froms[1..], tos[1..])
  }

  lemma SliceSplit(s: string, i: nat, j: nat, l: nat)
    requires i <= j <= l <= |s|
    ensures s[..i] + s[i..j] + s[j..l] == s[..l]
  {
  }

  lemma DropDrop(s: string, i: nat, j: nat)
    requires i + j <= |s|
    ensures s[i..][j..] == s[i + j..]
  {
  }

  /** Slices of a concatenation that start in its head. */
  lemma AppendSlice(x: string, y: string, i: nat, j: nat)
    requires i <= j <= |x|
    ensures (x + y)[i..j] == x[i..j] && (x + y)[j..] == x[j..] + y
  {
  }

  lemma Assoc(a: string, b: string, c: string)
    ensures a + (b + c) == (a + b) + c
  {
  }

  /** A prefix followed by the pieces of what comes after it gives the whole string back. */
  lemma PrefixThenRest(s: string, m: string, c: string, r: string)
    requires StartsWith(s, m) && c + r == s[|m|..]
    ensures (m + c) + r == s
  {
    assert s == s[..|m|] + s[|m|..];
  }

  /** A prefix of the head is a prefix of the whole. */
  lemma StartsWithConcat(x: string, y: string, p: string)
    ensures StartsWith(x, p) ==> StartsWith(x + y, p)
  {
    if |p| <= |x| {
      assert (x + y)[..|p|] == x[..|p|];
    }
  }

  lemma StartsWithTrans(s: string, q: string, p: string)
    requires StartsWith(s, q) && StartsWith(q, p)
    ensures StartsWith(s, p)
  {
    assert s[..|p|] == q[..|p|];
  }

  /**
   * Copying a head that holds no occurrence of `a` (not even one that runs
   * into the tail) commutes with `ReplaceAll`.
   */
  lemma {:induction false} ReplaceAllSkipN(s: string, n: nat, a: string, b: string)
    requires a != [] && n <= |s|
    requires forall i :: 0 <= i < n ==> !StartsWith(s[i..], a)
    ensures ReplaceAll(s, a, b) == s[..n] + ReplaceAll(s[n..], a, b)
    decreases n
  {
    if n > 0 {
      assert s[0..] == s;
      assert !StartsWith(s, a);
      assert ReplaceAll(s, a, b) == [s[0]] + ReplaceAll(s[1..], a, b);
      forall i | 0 <= i < n - 1
        ensures !StartsWith(s[1..][i..], a)
      {
        assert s[1..][i..] == s[i + 1..];
      }
      ReplaceAllSkipN(s[1..], n - 1, a, b);
      assert s[1..][n - 1..] == s[n..];
      assert [s[0]] + s[1..][..n - 1] == s[..n];
    }
  }

  lemma ReplaceAllSkip(x: string, y: string, a: string, b: string)
    requires a != []
    requires forall i :: 0 <= i < |x| ==> !StartsWith((x + y)[i..], a)
    ensures ReplaceAll(x + y, a, b) == x + ReplaceAll(y, a, b)
  {
    ReplaceAllSkipN(x + y, |x|, a, b);
    assert (x + y)[..|x|] == x;
    assert (x + y)[|x|..] == y;
  }

  /** A head without the first character of `a` is copied through `ReplaceAll`. */
  lemma ReplaceAllSkipLacking(x: string, y: string, a: string, b: string)
    requires a != [] && Lacks(x, a[0])
    ensures ReplaceAll(x + y, a, b) == x + ReplaceAll(y, a, b)
  {
    forall i | 0 <= i < |x|
      ensures !StartsWith((x + y)[i..], a)
    {
      assert (x + y)[i..][0] == x[i];
    }
    ReplaceAllSkip(x, y, a, b);
  }

  /** A match at the front is replaced, and the scan resumes after it. */
  lemma ReplaceAllFront(x: string, y: string, a: string, b: string)
    requires a != [] && x == a
    ensures ReplaceAll(x + y, a, b) == b + ReplaceAll(y, a, b)
  {
    assert StartsWith(x + y, a);
    assert (x + y)[|a|..] == y;
  }

  /** What holds nowhere in a text holds nowhere in its tail, and not at the tail's front. */
  lemma AbsentTail(p: string, s: string)
    requires s != [] && Absent(p, s)
    ensures Absent(p, s[1..]) && !StartsWith(s[1..], p)
  {
    forall i | 0 <= i <= |s[1..]|
      ensures !StartsWith(s[1..][i..], p)
    {
      assert s[1..][i..] == s[i + 1..];
    }
    assert s[1..][0..] == s[1..];
  }

  /** The step a scan that copies one character takes: absence carries over to the tail. */
  lemma AbsentRest(p: string, s: string)
    requires s != []
    ensures Absent(p, s) ==> Absent(p, s[1..])
    ensures [s[0]] + s[1..] == s
  {
    if Absent(p, s) {
      AbsentTail(p, s);
    }
    ConsSelf(s);
  }

  /** If `p` is absent from `x + y` it is absent from both parts. */
  lemma AbsentParts(p: string, x: string, y: string)
    requires Absent(p, x + y)
    ensures Absent(p, x) && Absent(p, y)
  {
    forall i | 0 <= i <= |x|
      ensures !StartsWith(x[i..], p)
    {
      StartsWithConcat(x[i..], y, p);
      assert (x + y)[i..] == x[i..] + y;
    }
    forall i | 0 <= i <= |y|
      ensures !StartsWith(y[i..], p)
    {
      assert (x + y)[|x| + i..] == y[i..];
    }
  }

  /** A string without the first character of `p` holds no occurrence of `p`. */
  lemma LacksAbsent(s: string, p: string)
    requires p != [] && Lacks(s, p[0])
    ensures Absent(p, s)
  {
    forall i | 0 <= i <= |s|
      ensures !StartsWith(s[i..], p)
    {
      if i < |s| {
        assert s[i..][0] == s[i];
      }
    }
  }

  /** A string starts with its first character followed by whatever its tail starts with. */
  lemma StartsWithHead(x: string, p: string)
    requires x != []
    ensures StartsWith(x[1..], p) ==> StartsWith(x, [x[0]] + p)
  {
    ConsParts(x[0], p);
    if StartsWith(x[1..], p) {
      StartsWithCons(x, [x[0]] + p);
    }
  }

  /** A string from which the one-character string `[c]` is absent lacks `c`. */
  lemma AbsentLacks(s: string, c: char)
    requires Absent([c], s)
    ensures Lacks(s, c)
  {
    forall i | 0 <= i < |s|
      ensures s[i] != c
    {
      assert s[i..][..1] == [s[i]];
    }
  }

  /**
   * A doubled character is absent from `x + y` when it is absent from both
   * parts and `x` does not end in that character.
   */
  lemma AbsentPairJoin(c: char, x: string, y: string)
    requires Absent([c, c], x) && Absent([c, c], y)
    requires x == [] || x[|x| - 1] != c
    ensures Absent([c, c], x + y)
  {
    var p := [c, c];
    forall i | 0 <= i <= |x + y|
      ensures !StartsWith((x + y)[i..], p)
    {
      if i + 1 < |x| {
        assert (x + y)[i..][..2] == x[i..][..2];
      } else if i + 1 == |x| {
        assert (x + y)[i..][0] == x[|x| - 1];
      } else {
        assert (x + y)[i..] == y[i - |x|..];
      }
    }
  }

  /** The same when one character is put in front. */
  lemma AbsentPairCons(c: char, d: char, y: string)
    requires Absent([c, c], y)
    requires d == c ==> y == [] || y[0] != c
    ensures Absent([c, c], [d] + y)
  {
    var p := [c, c];
    var s := [d] + y;
    forall i | 0 <= i <= |s|
      ensures !StartsWith(s[i..], p)
    {
      if i == 0 {
        if |s| >= 2 {
          assert s[..2] == [d, y[0]];
        }
      } else {
        assert s[i..] == y[i - 1..];
      }
    }
  }

  /** At the front of a text without a doubled `c`, a `c` is not followed by another. */
  lemma AbsentPairFront(c: char, s: string)
    requires Absent([c, c], s) && |s| >= 2 && s[0] == c
    ensures s[1] != c
  {
    assert s[0..] == s;
    assert s[..2] == [s[0], s[1]];
  }

  /** A pattern longer than the text does not occur in it. */
  lemma ShortAbsent(p: string, s: string)
    requires |s| < |p|
    ensures Absent(p, s)
  {
  }

  /** Replacing strings that do not occur leaves the text as it is. */
  lemma {:induction false} ReplaceEachAbsent(s: string, froms: seq<string>, tos: seq<string>)
    requires |froms| == |tos|
    requires forall k :: 0 <= k < |froms| ==> froms[k] != []
    requires forall k :: 0 <= k < |froms| ==> Absent(froms[k], s)
    ensures ReplaceEach(s, froms, tos) == s
    decreases |froms|
  {
    if froms != [] {
      assert s + [] == s;
      ReplaceAllSkip(s, [], froms[0], tos[0]);
      assert ReplaceAll(s, froms[0], tos[0]) == s;
      ReplaceEachAbsent(s, froms[1..], tos[1..]);
    }
  }
}
