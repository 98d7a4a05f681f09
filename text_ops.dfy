/**
 * String operations of Python that the pipeline relies on, stated over `seq<char>`:
 * substring containment (`p in s`), `lower()` restricted to ASCII letters,
 * `"\n".join(...)`, `s.split("\n")`, `s.split("\n", 1)` and `s.rsplit(p, 1)`.
 */
module TextOps {
  import opened Wrappers

  /** Python's `p in s`: `p` occurs as a contiguous part of `s`; the empty string occurs everywhere. */
  predicate Contains(s: string, p: string)
    decreases |s|
  {
    |p| <= |s| && (s[..|p|] == p || Contains(s[1..], p))
  }

  /** `p` occurs in `s` starting at index `i`. */
  ghost predicate OccursAt(s: string, p: string, i: int)
  {
    0 <= i && i + |p| <= |s| && s[i..i + |p|] == p
  }

  /** A slice of `s[1..]` is the slice of `s` one position further on. */
  lemma ShiftedSlice(s: string, i: int, n: int)
    requires 0 < i && 0 <= n && i + n <= |s|
    ensures s[1..][i - 1..i - 1 + n] == s[i..i + n]
  {
    var shifted, direct := s[1..][i - 1..i - 1 + n], s[i..i + n];
    assert forall k :: 0 <= k < n ==> shifted[k] == direct[k];
  }

  /** `Contains` is exactly "there is an index where `p` occurs". */
  lemma {:induction false} ContainsIffOccurs(s: string, p: string)
    ensures Contains(s, p) <==> exists i :: OccursAt(s, p, i)
    decreases |s|
  {
    if |p| <= |s| && s[..|p|] != p {
      ContainsIffOccurs(s[1..], p);
      if Contains(s[1..], p) {
        var i :| OccursAt(s[1..], p, i);
        ShiftedSlice(s, i + 1, |p|);
        assert OccursAt(s, p, i + 1);
      } else {
        forall i ensures !OccursAt(s, p, i) {
          if 0 < i && i + |p| <= |s| {
            ShiftedSlice(s, i, |p|);
            assert !OccursAt(s[1..], p, i - 1);
          }
        }
      }
    } else if |p| <= |s| {
      assert OccursAt(s, p, 0);
    }
  }

  /** An occurrence at a known index is enough for `Contains`. */
  lemma ContainsAt(s: string, p: string, i: int)
    requires OccursAt(s, p, i)
    ensures Contains(s, p)
  {
    ContainsIffOccurs(s, p);
  }

  /** A pattern with a character that `s` lacks does not occur in `s`. */
  lemma AbsentCharacter(s: string, p: string, k: nat)
    requires k < |p| && p[k] !in s
    ensures !Contains(s, p)
  {
    forall i ensures !OccursAt(s, p, i) {
      if 0 <= i && i + |p| <= |s| {
        assert s[i..i + |p|][k] == s[i + k];
      }
    }
    ContainsIffOccurs(s, p);
  }

  /** Whatever occurs in `b` occurs in `a + b + c`. */
  lemma {:induction false} ContainsInside(a: string, b: string, c: string, p: string)
    requires Contains(b, p)
    ensures Contains(a + b + c, p)
  {
    ContainsIffOccurs(b, p);
    var i :| OccursAt(b, p, i);
    assert (a + b + c)[|a| + i..|a| + i + |p|] == b[i..i + |p|];
    ContainsAt(a + b + c, p, |a| + i);
  }

  /** One candidate position of `AbsentByAnchor`: the anchor character rules out index `i`. */
  lemma AnchorRulesOut(a: string, x: char, b: string, p: string, k: nat, i: int)
    requires k < |p| && p[k] == x
    requires x !in a && x !in b
    requires k <= |a| ==> a[|a| - k..] != p[..k]
    ensures !OccursAt(a + [x] + b, p, i)
  {
    var s := a + [x] + b;
    if 0 <= i && i + |p| <= |s| {
      var w := s[i..i + |p|];
      if i + k < |a| {
        assert w[k] == a[i + k];
      } else if i + k > |a| {
        assert w[k] == b[i + k - |a| - 1];
      } else {
        forall j | 0 <= j < k ensures w[j] == a[|a| - k + j] {
          assert w[j] == s[i + j];
        }
        assert w[..k] == a[|a| - k..];
      }
    }
  }

  /**
   * Absence through an anchor character: if `p[k]` is a character `x` that occurs in
   * `a + [x] + b` only at index `|a|`, and the `k` characters before it are not `p[..k]`,
   * then `p` does not occur at all.
   */
  lemma AbsentByAnchor(a: string, x: char, b: string, p: string, k: nat)
    requires k < |p| && p[k] == x
    requires x !in a && x !in b
    requires k <= |a| ==> a[|a| - k..] != p[..k]
    ensures !Contains(a + [x] + b, p)
  {
    forall i ensures !OccursAt(a + [x] + b, p, i) {
      AnchorRulesOut(a, x, b, p, k, i);
    }
    ContainsIffOccurs(a + [x] + b, p);
  }

  /** ASCII upper-case letter. */
  predicate IsUpper(c: char) { 'A' <= c <= 'Z' }

  /** ASCII lower-case letter. */
  predicate IsLower(c: char) { 'a' <= c <= 'z' }

  /** ASCII decimal digit. */
  predicate IsDigit(c: char) { '0' <= c <= '9' }

  /** `c.lower()` on ASCII letters; every other character is left as it is. */
  function LowerChar(c: char): (r: char)
    ensures IsUpper(c) ==> IsLower(r) && r as int == c as int + 32
    ensures !IsUpper(c) ==> r == c
  {
    if IsUpper(c) then (c as int + 32) as char else c
  }

  /** `s.lower()`, character by character. */
  function Lower(s: string): (r: string)
    ensures |r| == |s|
    ensures forall i :: 0 <= i < |s| ==> r[i] == LowerChar(s[i])
  {
    if s == [] then [] else [LowerChar(s[0])] + Lower(s[1..])
  }

  lemma LowerAppend(a: string, b: string)
    ensures Lower(a + b) == Lower(a) + Lower(b)
  {
    assert Lower(a + b) == Lower(a) + Lower(b);
  }

  /** `"\n".join(lines)`. */
  function JoinLines(lines: seq<string>): (r: string)
    ensures lines == [] ==> r == ""
    ensures |lines| == 1 ==> r == lines[0]
    ensures |lines| >= 1 ==> |lines[0]| <= |r| && r[..|lines[0]|] == lines[0]
  {
    if |lines| == 0 then ""
    else if |lines| == 1 then lines[0]
    else lines[0] + "\n" + JoinLines(lines[1..])
  }

  /** `s.split("\n")`: never empty; `"".split("\n") == [""]`. */
  function SplitLines(s: string): (r: seq<string>)
    ensures |r| >= 1
  {
    if s == [] then [""]
    else if s[0] == '\n' then [""] + SplitLines(s[1..])
    else var rest := SplitLines(s[1..]); [[s[0]] + rest[0]] + rest[1..]
  }

  lemma {:induction false} SplitLineThenRest(a: string, rest: string)
    requires '\n' !in a
    ensures SplitLines(a + "\n" + rest) == [a] + SplitLines(rest)
    ensures SplitLines(a) == [a]
    decreases |a|
  {
    if a == [] {
      assert a + "\n" + rest == "\n" + rest;
      assert ("\n" + rest)[1..] == rest;
    } else {
      SplitLineThenRest(a[1..], rest);
      assert (a + "\n" + rest)[1..] == a[1..] + "\n" + rest;
      assert [a[0]] + a[1..] == a;
    }
  }

  /** Splitting a join on the separator gives the lines back, when no line holds the separator. */
  lemma {:induction false} SplitJoinLines(lines: seq<string>)
    requires |lines| >= 1
    requires forall i :: 0 <= i < |lines| ==> '\n' !in lines[i]
    ensures SplitLines(JoinLines(lines)) == lines
  {
    if |lines| == 1 {
      SplitLineThenRest(lines[0], "");
    } else {
      SplitJoinLines(lines[1..]);
      SplitLineThenRest(lines[0], JoinLines(lines[1..]));
      assert [lines[0]] + lines[1..] == lines;
    }
  }

  /** `s[..|p|] == p`, i.e. `s.startswith(p)`. */
  predicate StartsWith(s: string, p: string)
  {
    |p| <= |s| && s[..|p|] == p
  }

  /** Index of the first `c` in `s`, if any. */
  function FirstIndexOf(s: string, c: char): (r: Option<nat>)
    ensures r.None? <==> c !in s
    ensures r.Some? ==> r.value < |s| && s[r.value] == c && c !in s[..r.value]
  {
    if s == [] then None
    else if s[0] == c then Some(0)
    else match FirstIndexOf(s[1..], c)
      case None => None
      case Some(i) => assert s[..i + 1] == [s[0]] + s[1..][..i]; Some(i + 1)
  }

  /** `s.split(sep, 1)[1]` for a one-character separator: the text after the first `sep`, or `None` when the split yields one part. */
  function AfterFirst(s: string, c: char): (r: Option<string>)
    ensures r.None? <==> c !in s
    ensures r.Some? ==> exists i :: 0 <= i < |s| && s[i] == c && c !in s[..i] && r.value == s[i + 1..]
  {
    match FirstIndexOf(s, c)
    case None => None
    case Some(i) => Some(s[i + 1..])
  }

  /** The first `c` is at `n` when `s[n]` is `c` and none comes before it. */
  lemma FirstIndexAt(s: string, c: char, n: nat)
    requires n < |s| && s[n] == c && c !in s[..n]
    ensures FirstIndexOf(s, c) == Some(n)
    ensures AfterFirst(s, c) == Some(s[n + 1..])
  {
    var i := FirstIndexOf(s, c).value;
    forall k | 0 <= k < n ensures s[k] != c { assert s[..n][k] == s[k]; }
    forall k | 0 <= k < i ensures s[k] != c { assert s[..i][k] == s[k]; }
  }

  /** An occurrence in `s` without its last character is an occurrence in `s` that ends early. */
  lemma OccursInDropLast(s: string, p: string, j: int)
    requires |s| > 0
    ensures OccursAt(s[..|s| - 1], p, j) <==> j + |p| < |s| && OccursAt(s, p, j)
  {
    if 0 <= j && j + |p| < |s| {
      assert s[..|s| - 1][j..j + |p|] == s[j..j + |p|];
    }
  }

  /** When `p` is not a suffix of `s`, its occurrences are those in `s` without the last character. */
  lemma OccursNotAtEnd(s: string, p: string)
    requires |p| <= |s| && s[|s| - |p|..] != p
    ensures |s| > 0
    ensures forall j :: OccursAt(s, p, j) <==> OccursAt(s[..|s| - 1], p, j)
  {
    assert s[|s| - |p|..|s|] == s[|s| - |p|..];
    forall j ensures OccursAt(s, p, j) <==> OccursAt(s[..|s| - 1], p, j) {
      OccursInDropLast(s, p, j);
    }
  }

  lemma ContainsNotAtEnd(s: string, p: string)
    requires |p| <= |s| && s[|s| - |p|..] != p
    ensures |s| > 0 && (Contains(s, p) <==> Contains(s[..|s| - 1], p))
  {
    OccursNotAtEnd(s, p);
    ContainsIffOccurs(s, p);
    ContainsIffOccurs(s[..|s| - 1], p);
    if Contains(s, p) {
      var j :| OccursAt(s, p, j);
      assert OccursAt(s[..|s| - 1], p, j);
    }
    if Contains(s[..|s| - 1], p) {
      var j :| OccursAt(s[..|s| - 1], p, j);
      assert OccursAt(s, p, j);
    }
  }

  /** Start of the right-most occurrence of `p` in `s`, if any. */
  function LastIndexOf(s: string, p: string): (r: Option<nat>)
    ensures r.None? <==> !Contains(s, p)
    ensures r.Some? ==> OccursAt(s, p, r.value) && forall j :: r.value < j ==> !OccursAt(s, p, j)
    decreases |s|
  {
    ContainsIffOccurs(s, p);
    if |p| > |s| then None
    else if s[|s| - |p|..] == p then
      assert OccursAt(s, p, |s| - |p|);
      Some(|s| - |p|)
    else
      OccursNotAtEnd(s, p);
      ContainsNotAtEnd(s, p);
      LastIndexOf(s[..|s| - 1], p)
  }

  /** `s.rsplit(p, 1)[0]`: everything before the right-most `p`, or all of `s` when `p` does not occur. */
  function BeforeLast(s: string, p: string): (r: string)
    ensures !Contains(s, p) ==> r == s
    ensures Contains(s, p) ==> |r| + |p| <= |s| && s[..|r|] == r && StartsWith(s[|r|..], p)
                               && forall j :: |r| < j ==> !OccursAt(s, p, j)
  {
    match LastIndexOf(s, p)
    case None => s
    case Some(i) => s[..i]
  }
}
