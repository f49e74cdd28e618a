/** The three string operations the pages rely on: String.prototype.trim,
    String.prototype.toLowerCase and String.prototype.includes. */
module Text {

  /** The characters ECMAScript's trim removes: WhiteSpace (tab, vertical tab,
      form feed, space, no-break space, byte order mark and the Unicode space
      separators) and LineTerminator (line feed, carriage return, line and
      paragraph separators). */
  predicate IsSpace(c: char)
  {
    c == '\t' || c == '\n' || c == '\U{000B}' || c == '\U{000C}' || c == '\r' || c == ' '
    || c == '\U{00A0}' || c == '\U{1680}' || ('\U{2000}' <= c <= '\U{200A}')
    || c == '\U{2028}' || c == '\U{2029}' || c == '\U{202F}' || c == '\U{205F}'
    || c == '\U{3000}' || c == '\U{FEFF}'
  }

  /** Drops the leading white space: the result is a suffix of `s`, everything
      dropped is white space, and the result does not start with white space. */
  function TrimStart(s: string): (r: string)
    ensures |r| <= |s| && r == s[|s| - |r|..]
    ensures forall k :: 0 <= k < |s| - |r| ==> IsSpace(s[k])
    ensures r != [] ==> !IsSpace(r[0])
  {
    if s != [] && IsSpace(s[0]) then TrimStart(s[1..]) else s
  }

  /** Drops the trailing white space: the result is a prefix of `s`, everything
      dropped is white space, and the result does not end with white space. */
  function TrimEnd(s: string): (r: string)
    ensures |r| <= |s| && r == s[..|r|]
    ensures forall k :: |r| <= k < |s| ==> IsSpace(s[k])
    ensures r != [] ==> !IsSpace(r[|r| - 1])
  {
    if s != [] && IsSpace(s[|s| - 1]) then TrimEnd(s[..|s| - 1]) else s
  }

  /** Every character of `s` is white space. */
  predicate Blank(s: string)
  {
    forall k :: 0 <= k < |s| ==> IsSpace(s[k])
  }

  /** `r` sits in `s` at index `i` with only white space around it. */
  predicate TrimmedAt(s: string, r: string, i: int)
  {
    0 <= i && i + |r| <= |s| && s[i..i + |r|] == r && Blank(s[..i]) && Blank(s[i + |r|..])
  }

  /** String.prototype.trim: a piece of `s` with only white space around it
      and no white space at either of its ends. */
  function Trim(s: string): (r: string)
    ensures exists i :: TrimmedAt(s, r, i)
    ensures r != [] ==> !IsSpace(r[0]) && !IsSpace(r[|r| - 1])
  {
    TrimStartThenEnd(s);
    TrimEnd(TrimStart(s))
  }

  /** Where the trim sits: right after the white space TrimStart drops. */
  lemma TrimStartThenEnd(s: string)
    ensures TrimmedAt(s, TrimEnd(TrimStart(s)), |s| - |TrimStart(s)|)
  {
    var t := TrimStart(s);
    var r := TrimEnd(t);
    var i := |s| - |t|;
    assert Blank(s[..i]) by {
      forall k | 0 <= k < i ensures IsSpace(s[..i][k]) {
        assert s[..i][k] == s[k];
      }
    }
    assert Blank(t[|r|..]) by {
      forall k | 0 <= k < |t| - |r| ensures IsSpace(t[|r|..][k]) {
        assert t[|r|..][k] == t[|r| + k];
      }
    }
    PieceBetweenBlanks(s, t, r, i);
  }

  /** A prefix `r` of the suffix `t == s[i..]` sits in `s` at `i`, with the
      blank pieces before `i` and after `r` around it. */
  lemma PieceBetweenBlanks(s: string, t: string, r: string, i: int)
    requires 0 <= i <= |s| && t == s[i..] && |r| <= |t| && r == t[..|r|]
    requires Blank(s[..i]) && Blank(t[|r|..])
    ensures TrimmedAt(s, r, i)
  {
    assert s[i..i + |r|] == r;
    assert s[i + |r|..] == t[|r|..];
  }

  /** The `length` of a JavaScript string: UTF-16 code units, two for each
      character outside the Basic Multilingual Plane. */
  function Utf16Length(s: string): (n: nat)
    ensures |s| <= n <= 2 * |s|
    ensures n == 0 <==> s == []
    ensures (forall k :: 0 <= k < |s| ==> s[k] as int < 0x1_0000) ==> n == |s|
    ensures |s| == 1 ==> n == if s[0] as int >= 0x1_0000 then 2 else 1
  {
    if s == [] then 0
    else (if s[0] as int >= 0x1_0000 then 2 else 1) + Utf16Length(s[1..])
  }

  /** The length of a concatenation is the sum of the lengths; with the
      one-character case above this fixes the length of every string. */
  lemma {:induction false} Utf16LengthConcat(a: string, b: string)
    ensures Utf16Length(a + b) == Utf16Length(a) + Utf16Length(b)
  {
    if a == [] {
      assert a + b == b;
    } else {
      assert (a + b)[0] == a[0];
      assert (a + b)[1..] == a[1..] + b;
      Utf16LengthConcat(a[1..], b);
    }
  }

  /** A string made of white space only trims to the empty string. */
  lemma TrimOfBlank(s: string)
    requires Blank(s)
    ensures Trim(s) == []
  {
  }

  /** A string with no white space at either end is its own trim. */
  lemma TrimOfTight(s: string)
    requires s != [] && !IsSpace(s[0]) && !IsSpace(s[|s| - 1])
    ensures Trim(s) == s
  {
  }

  /** ASCII case folding of one character: a capital letter becomes the
      small letter at the same place in the alphabet, anything else is kept. */
  function LowerChar(c: char): (d: char)
    ensures 'A' <= c <= 'Z' ==> 'a' <= d <= 'z' && d as int - 'a' as int == c as int - 'A' as int
    ensures !('A' <= c <= 'Z') ==> d == c
  {
    if 'A' <= c <= 'Z' then (c as int - 'A' as int + 'a' as int) as char else c
  }

  /** String.prototype.toLowerCase on ASCII letters: same length, each
      capital replaced by the small letter at the same place in the alphabet,
      every other character kept. */
  function Lower(s: string): (r: string)
    ensures |r| == |s|
    ensures forall k :: 0 <= k < |s| && 'A' <= s[k] <= 'Z' ==> r[k] as int - 'a' as int == s[k] as int - 'A' as int
    ensures forall k :: 0 <= k < |r| ==> !('A' <= r[k] <= 'Z')
    ensures forall k :: 0 <= k < |s| && !('A' <= s[k] <= 'Z') ==> r[k] == s[k]
  {
    seq(|s|, k requires 0 <= k < |s| => LowerChar(s[k]))
  }

  /** Lower-casing twice is lower-casing once. */
  lemma LowerIdempotent(s: string)
    ensures Lower(Lower(s)) == Lower(s)
  {
  }

  /** `needle` occurs in `hay` starting at index `i`. */
  predicate OccursAt(hay: string, needle: string, i: int)
  {
    0 <= i <= |hay| - |needle| && hay[i..i + |needle|] == needle
  }

  /** String.prototype.includes: `needle` occurs in `hay` as a contiguous
      piece. The empty string, and every prefix, occur; nothing longer than
      `hay` does. */
  predicate Contains(hay: string, needle: string): (b: bool)
    ensures needle == [] ==> b
    ensures |needle| <= |hay| && hay[..|needle|] == needle ==> b
    ensures b ==> |needle| <= |hay|
  {
    assert |needle| <= |hay| && hay[..|needle|] == needle ==> OccursAt(hay, needle, 0);
    exists i :: 0 <= i <= |hay| - |needle| && OccursAt(hay, needle, i)
  }

  /** The case-insensitive search the list page runs on a course name: the
      empty search matches every name, and a name matches any search that
      differs from it in case only. */
  predicate ContainsIgnoringCase(hay: string, needle: string): (b: bool)
    ensures needle == [] ==> b
    ensures Lower(hay) == Lower(needle) ==> b
  {
    Contains(Lower(hay), Lower(needle))
  }

  /** The search does not depend on the case of either string. */
  lemma SearchIgnoresCase(hay: string, needle: string)
    ensures ContainsIgnoringCase(Lower(hay), Lower(needle)) == ContainsIgnoringCase(hay, needle)
  {
    LowerIdempotent(hay);
    LowerIdempotent(needle);
  }
}
