/**
 * String helpers the storefront borrows from JavaScript: the white-space class
 * used by `String.prototype.trim` and by `\s` in a regular expression,
 * `toLowerCase`, `trim` and `includes`.
 */
module Text {

  /** White space and line terminators as JavaScript's `trim` and `\s` see them. */
  predicate IsSpace(c: char)
  {
    || c == ' ' || c == '\t' || c == '\n' || c == '\r' || c == '\U{B}' || c == '\U{C}'
    || c == '\U{A0}' || c == '\U{1680}' || ('\U{2000}' <= c <= '\U{200A}')
    || c == '\U{2028}' || c == '\U{2029}' || c == '\U{202F}' || c == '\U{205F}'
    || c == '\U{3000}' || c == '\U{FEFF}'
  }

  predicate AllSpace(s: string)
  {
    forall i :: 0 <= i < |s| ==> IsSpace(s[i])
  }

  /** The capitals `toLowerCase` changes here: ASCII and Latin-1. */
  predicate IsCapital(c: char)
  {
    'A' <= c <= 'Z' || ('\U{C0}' <= c <= '\U{DE}' && c != '\U{D7}')
  }

  /** Lower-casing of one character: a capital becomes its small letter, everything else is unchanged. */
  function LowerChar(c: char): (r: char)
    ensures IsSpace(r) <==> IsSpace(c)
    ensures !IsCapital(r) && (!IsCapital(c) ==> r == c)
    ensures IsCapital(c) ==> r as int == c as int + 32
  {
    if IsCapital(c) then
      (c as int + 32) as char
    else
      c
  }

  /** `toLowerCase`: every character is lower-cased, white space stays where it was. */
  function Lower(s: string): (r: string)
    ensures |r| == |s|
    ensures forall i :: 0 <= i < |s| ==> !IsCapital(r[i]) && (IsSpace(r[i]) <==> IsSpace(s[i]))
    ensures forall i :: 0 <= i < |s| ==> if IsCapital(s[i]) then r[i] as int == s[i] as int + 32 else r[i] == s[i]
  {
    seq(|s|, i requires 0 <= i < |s| => LowerChar(s[i]))
  }

  /**
   * `a` is the text `b` with some of its letters written as capitals: every
   * character is that of `b`, or the capital 32 code points below it.
   */
  predicate CaseVariant(a: string, b: string)
  {
    |a| == |b| && forall i :: 0 <= i < |a| ==> a[i] == b[i] || (IsCapital(a[i]) && a[i] as int + 32 == b[i] as int)
  }

  /** Lower-casing gives a capital-free text exactly when the input is a case variant of it. */
  lemma LowerCaseVariant(a: string, b: string)
    requires forall i :: 0 <= i < |b| ==> !IsCapital(b[i])
    ensures Lower(a) == b <==> CaseVariant(a, b)
  {
    if CaseVariant(a, b) {
      forall i | 0 <= i < |a| ensures Lower(a)[i] == b[i] {
        LowerCharOfVariant(a[i], b[i]);
      }
    }
  }

  lemma LowerCharOfVariant(c: char, d: char)
    requires !IsCapital(d)
    requires c == d || (IsCapital(c) && c as int + 32 == d as int)
    ensures LowerChar(c) == d
  {
  }

  /** `trimStart`: drops the leading white space and nothing else. */
  function TrimStart(s: string): (r: string)
    ensures |r| <= |s| && r == s[|s| - |r|..]
    ensures forall i :: 0 <= i < |s| - |r| ==> IsSpace(s[i])
    ensures r == [] || !IsSpace(r[0])
  {
    if s != [] && IsSpace(s[0]) then
      var t := TrimStart(s[1..]);
      SuffixOfTail(s, t);
      t
    else s
  }

  lemma SuffixOfTail(s: string, t: string)
    requires s != [] && IsSpace(s[0])
    requires |t| <= |s| - 1 && t == s[1..][|s| - 1 - |t|..]
    requires forall i :: 0 <= i < |s| - 1 - |t| ==> IsSpace(s[1..][i])
    ensures t == s[|s| - |t|..] && forall i :: 0 <= i < |s| - |t| ==> IsSpace(s[i])
  {
    forall i | 0 <= i < |s| - |t| ensures IsSpace(s[i]) {
      if i > 0 { assert s[i] == s[1..][i - 1]; }
    }
  }

  /** Text that starts with white space trims to what its tail trims to, so trimming shortens it. */
  lemma TrimStartOfSpace(s: string)
    requires s != [] && IsSpace(s[0])
    ensures TrimStart(s) == TrimStart(s[1..]) && |TrimStart(s)| < |s|
  {
  }

  /** `trimEnd`: drops the trailing white space and nothing else. */
  function TrimEnd(s: string): (r: string)
    ensures |r| <= |s| && r == s[..|r|]
    ensures forall i :: |r| <= i < |s| ==> IsSpace(s[i])
    ensures r == [] || !IsSpace(r[|r| - 1])
  {
    if s != [] && IsSpace(s[|s| - 1]) then TrimEnd(s[..|s| - 1]) else s
  }

  /** `trim`: `s` without its leading and its trailing white space. */
  function Trim(s: string): (r: string)
    ensures |r| <= |s|
    ensures r == [] || (!IsSpace(r[0]) && !IsSpace(r[|r| - 1]))
    ensures r == [] <==> AllSpace(s)
  {
    TrimEnd(TrimStart(s))
  }

  lemma {:induction false} TrimStartPadded(a: string, m: string)
    requires AllSpace(a) && (m == [] || !IsSpace(m[0]))
    ensures TrimStart(a + m) == m
    decreases |a|
  {
    if a != [] {
      assert (a + m)[1..] == a[1..] + m;
      TrimStartPadded(a[1..], m);
    }
  }

  lemma {:induction false} TrimEndPadded(m: string, b: string)
    requires AllSpace(b) && (m == [] || !IsSpace(m[|m| - 1]))
    ensures TrimEnd(m + b) == m
    decreases |b|
  {
    if b != [] {
      assert (m + b)[..|m + b| - 1] == m + b[..|b| - 1];
      TrimEndPadded(m, b[..|b| - 1]);
    }
  }

  /** Whatever white space surrounds a piece that neither starts nor ends with white space, `trim` strips exactly it. */
  lemma TrimOfPadded(a: string, m: string, b: string)
    requires AllSpace(a) && AllSpace(b)
    requires m == [] || (!IsSpace(m[0]) && !IsSpace(m[|m| - 1]))
    ensures Trim(a + m + b) == m
  {
    if m == [] {
      assert AllSpace(a + m + b) by {
        forall i | 0 <= i < |a + m + b| ensures IsSpace((a + m + b)[i]) {
          if i >= |a| { assert (a + m + b)[i] == b[i - |a|]; }
        }
      }
    } else {
      assert a + m + b == a + (m + b);
      TrimStartPadded(a, m + b);
      TrimEndPadded(m, b);
    }
  }

  /** `hay.includes(needle)`: `needle` occurs somewhere in `hay`. */
  predicate Contains(hay: string, needle: string)
    decreases |hay|
  {
    needle <= hay || (hay != [] && Contains(hay[1..], needle))
  }

  /** `needle` occurs in `hay` starting at index `i`. */
  predicate OccursAt(hay: string, needle: string, i: int)
  {
    0 <= i <= |hay| - |needle| && hay[i..i + |needle|] == needle
  }

  lemma {:induction false} ContainsAt(hay: string, needle: string)
    ensures Contains(hay, needle) <==> exists i :: OccursAt(hay, needle, i)
    decreases |hay|
  {
    if needle <= hay {
      assert OccursAt(hay, needle, 0);
    } else if hay != [] {
      ContainsAt(hay[1..], needle);
      if exists i :: OccursAt(hay, needle, i) {
        var i :| OccursAt(hay, needle, i);
        assert i != 0;
        OccursInTail(hay, needle, i);
      }
      if Contains(hay[1..], needle) {
        var i :| OccursAt(hay[1..], needle, i);
        OccursFromTail(hay, needle, i);
      }
    }
  }

  lemma OccursInTail(hay: string, needle: string, i: int)
    requires OccursAt(hay, needle, i) && i > 0
    ensures OccursAt(hay[1..], needle, i - 1)
  {
    assert hay[1..][i - 1..i - 1 + |needle|] == hay[i..i + |needle|];
  }

  lemma OccursFromTail(hay: string, needle: string, i: int)
    requires hay != [] && OccursAt(hay[1..], needle, i)
    ensures OccursAt(hay, needle, i + 1)
  {
    assert hay[1..][i..i + |needle|] == hay[i + 1..i + 1 + |needle|];
  }

  lemma ContainsEmpty(hay: string)
    ensures Contains(hay, [])
  {
  }

  /** The position of the first `c` in `s`. */
  function IndexOf(s: string, c: char): (k: nat)
    requires c in s
    ensures k < |s| && s[k] == c && c !in s[..k]
    decreases |s|
  {
    if s[0] == c then 0
    else
      var k := 1 + IndexOf(s[1..], c);
      assert s[..k] == [s[0]] + s[1..][..k - 1];
      k
  }

  /** An occurrence of an occurrence is an occurrence. */
  lemma ContainsTransitive(a: string, b: string, c: string)
    requires Contains(a, b) && Contains(b, c)
    ensures Contains(a, c)
  {
    ContainsAt(a, b);
    ContainsAt(b, c);
    var i :| OccursAt(a, b, i);
    var j :| OccursAt(b, c, j);
    forall k | 0 <= k < |c| ensures a[i + j..i + j + |c|][k] == c[k] {
      assert c[k] == b[j + k] && b[j + k] == a[i + j + k];
    }
    assert OccursAt(a, c, i + j);
    ContainsAt(a, c);
  }
}
