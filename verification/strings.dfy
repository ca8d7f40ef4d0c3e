/** The three string operations the notes manager relies on:
    String.prototype.trim, an ASCII String.prototype.toLowerCase and
    String.prototype.includes, each on JavaScript strings seen as sequences
    of characters. */
module Strings {

  /** The characters String.prototype.trim removes: ECMAScript's WhiteSpace
      (tab, vertical tab, form feed, space, no-break space, byte order mark
      and the Unicode "Zs" category) and LineTerminator (line feed, carriage
      return, line and paragraph separators). */
  predicate IsWhiteSpace(c: char)
    ensures IsWhiteSpace(c) ==> !('A' <= c <= 'Z' || 'a' <= c <= 'z' || '0' <= c <= '9')
  {
    || c == '\t' || c == '\n' || c == '\U{B}' || c == '\U{C}' || c == '\r'
    || c == ' ' || c == '\U{A0}' || c == '\U{1680}'
    || ('\U{2000}' <= c <= '\U{200A}')
    || c == '\U{2028}' || c == '\U{2029}' || c == '\U{202F}' || c == '\U{205F}'
    || c == '\U{3000}' || c == '\U{FEFF}'
  }

  /** Removes the leading white space: what is left is a suffix of `s`,
      everything cut off is white space, and the suffix does not start with
      white space. */
  function TrimStart(s: string): (r: string)
    ensures |r| <= |s| && r == s[|s| - |r|..]
    ensures forall k :: 0 <= k < |s| - |r| ==> IsWhiteSpace(s[k])
    ensures r == [] || !IsWhiteSpace(r[0])
  {
    if |s| > 0 && IsWhiteSpace(s[0]) then TrimStart(s[1..]) else s
  }

  /** Removes the trailing white space: what is left is a prefix of `s`,
      everything cut off is white space, and the prefix does not end with
      white space. */
  function TrimEnd(s: string): (r: string)
    ensures |r| <= |s| && r == s[..|r|]
    ensures forall k :: |r| <= k < |s| ==> IsWhiteSpace(s[k])
    ensures r == [] || !IsWhiteSpace(r[|r| - 1])
  {
    if |s| > 0 && IsWhiteSpace(s[|s| - 1]) then TrimEnd(s[..|s| - 1]) else s
  }

  /** String.prototype.trim: a contiguous piece of `s` that neither starts
      nor ends with white space, obtained by cutting off white space only.
      It is empty exactly when `s` is all white space. */
  function Trim(s: string): (r: string)
    ensures |r| <= |s|
    ensures r == [] <==> forall k :: 0 <= k < |s| ==> IsWhiteSpace(s[k])
    ensures r != [] ==> !IsWhiteSpace(r[0]) && !IsWhiteSpace(r[|r| - 1])
    ensures exists a :: IsCutOf(s, r, a)
  {
    TrimBothEnds(s);
    TrimEnd(TrimStart(s))
  }

  /** `r` is what is left of `s` after cutting off its first `a`
      characters and everything after the following |r| characters, all of
      them white space. */
  predicate IsCutOf(s: string, r: string, a: int) {
    && OccursAt(s, r, a)
    && (forall k :: 0 <= k < a ==> IsWhiteSpace(s[k]))
    && (forall k :: a + |r| <= k < |s| ==> IsWhiteSpace(s[k]))
  }

  /** What trimming both ends leaves, stated about the two steps. */
  lemma TrimBothEnds(s: string)
    ensures TrimEnd(TrimStart(s)) == [] <==> forall k :: 0 <= k < |s| ==> IsWhiteSpace(s[k])
    ensures TrimEnd(TrimStart(s)) != [] ==> !IsWhiteSpace(TrimEnd(TrimStart(s))[0])
    ensures IsCutOf(s, TrimEnd(TrimStart(s)), |s| - |TrimStart(s)|)
  {
    var t := TrimStart(s);
    var r := TrimEnd(t);
    var a := |s| - |t|;
    if r == [] {
      assert t == [];
    } else {
      assert r[0] == t[0];
    }
    if t != [] {
      assert s[a] == t[0];
    }
    assert |r| <= |t| && s[a..a + |r|] == r;
    assert OccursAt(s, r, a);
    forall k | a + |r| <= k < |s| ensures IsWhiteSpace(s[k]) {
      assert s[k] == t[k - a];
    }
  }

  /** Text that neither starts nor ends with white space is its own trim. */
  lemma TrimKeeps(s: string)
    requires s != [] && !IsWhiteSpace(s[0]) && !IsWhiteSpace(s[|s| - 1])
    ensures Trim(s) == s
  {
    assert TrimStart(s) == s;
    assert TrimEnd(s) == s;
  }

  /** Trimming text that is already trimmed leaves it alone. */
  lemma TrimIdempotent(s: string)
    ensures Trim(Trim(s)) == Trim(s)
  {
    var r := Trim(s);
    if r != [] {
      assert TrimStart(r) == r;
      assert TrimEnd(r) == r;
    }
  }

  /** The case mapping of toLowerCase restricted to ASCII: 'A'..'Z' become
      'a'..'z', every other character is kept. */
  function LowerChar(c: char): (d: char)
    ensures !('A' <= d <= 'Z')
    ensures 'A' <= c <= 'Z' ==> d as int == c as int + 32
    ensures !('A' <= c <= 'Z') ==> d == c
  {
    if 'A' <= c <= 'Z' then (c as int + 32) as char else c
  }

  /** String.prototype.toLowerCase (ASCII letters only). */
  function Lower(s: string): (r: string)
    ensures |r| == |s|
    ensures forall k :: 0 <= k < |r| ==> !('A' <= r[k] <= 'Z')
    ensures forall k :: 0 <= k < |r| && 'A' <= s[k] <= 'Z' ==> r[k] as int == s[k] as int + 32
    ensures forall k :: 0 <= k < |r| && !('A' <= s[k] <= 'Z') ==> r[k] == s[k]
  {
    seq(|s|, k requires 0 <= k < |s| => LowerChar(s[k]))
  }

  /** Lowering twice is lowering once. */
  lemma LowerIdempotent(s: string)
    ensures Lower(Lower(s)) == Lower(s)
  {
  }

  /** `q` occurs in `s` starting at position `i`. */
  predicate OccursAt(s: string, q: string, i: int) {
    0 <= i <= |s| - |q| && s[i..i + |q|] == q
  }

  /** String.prototype.includes with no position argument: `q` occurs in `s`
      at the first position or, failing that, somewhere in the rest. */
  function Includes(s: string, q: string): (b: bool)
    ensures b ==> |q| <= |s|
  {
    q <= s || (|s| > 0 && Includes(s[1..], q))
  }

  /** `q` occurs at the start of `s` exactly when it is a prefix of `s`. */
  lemma OccursAtStart(s: string, q: string)
    ensures OccursAt(s, q, 0) <==> q <= s
  {
    if |q| <= |s| {
      assert s[0..0 + |q|] == s[..|q|];
    }
  }

  /** An occurrence past the first position of `s` is an occurrence in the
      rest of `s`, one position earlier. */
  lemma OccursShift(s: string, q: string, i: int)
    requires |s| > 0 && 0 < i
    ensures OccursAt(s, q, i) <==> OccursAt(s[1..], q, i - 1)
  {
    if i <= |s| - |q| {
      assert s[1..][i - 1..i - 1 + |q|] == s[i..i + |q|];
    }
  }

  /** `Includes` is "occurs at some position": both directions. */
  lemma {:induction false} IncludesIff(s: string, q: string)
    ensures Includes(s, q) <==> exists i :: OccursAt(s, q, i)
  {
    OccursAtStart(s, q);
    if q <= s {
    } else if |s| == 0 {
    } else {
      IncludesIff(s[1..], q);
      if Includes(s[1..], q) {
        var i :| OccursAt(s[1..], q, i);
        OccursShift(s, q, i + 1);
      } else {
        forall i ensures !OccursAt(s, q, i) {
          if 0 < i {
            OccursShift(s, q, i);
          }
        }
      }
    }
  }

  /** The empty query occurs in every string. */
  lemma IncludesEmpty(s: string)
    ensures Includes(s, [])
  {
  }
}
