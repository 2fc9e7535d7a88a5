/** The character-level helpers the scoring rules lean on: Go's
    unicode.IsLetter / unicode.IsNumber (retailer rule), strings.TrimSpace
    and len() of a string, which counts UTF-8 bytes (description rule).
    A string is a sequence of Unicode scalar values; Go holds the same text
    as UTF-8 bytes, and JSON decoding guarantees that encoding is valid. */
module Text {

  /** unicode.IsLetter(c) || unicode.IsNumber(c), restricted to ASCII. */
  predicate IsAlphanumeric(c: char)
    ensures IsAlphanumeric(c) ==> (c as int) < 0x80
  {
    'a' <= c <= 'z' || 'A' <= c <= 'Z' || '0' <= c <= '9'
  }

  /** unicode.IsSpace: the characters with the Unicode White_Space property. */
  predicate IsSpace(c: char)
    ensures IsSpace(c) ==> !IsAlphanumeric(c)
  {
    var n := c as int;
    || 0x09 <= n <= 0x0D || n == 0x20 || n == 0x85 || n == 0xA0
    || n == 0x1680 || 0x2000 <= n <= 0x200A || n == 0x2028 || n == 0x2029
    || n == 0x202F || n == 0x205F || n == 0x3000
  }

  /** Number of bytes in the UTF-8 encoding of c. */
  function RuneLength(c: char): (n: nat)
    ensures 1 <= n <= 4
    ensures n == 1 <==> (c as int) < 0x80
  {
    var v := c as int;
    if v < 0x80 then 1 else if v < 0x800 then 2 else if v < 0x10000 then 3 else 4
  }

  /** Go's len(s): the length of s in UTF-8 bytes. */
  function ByteLength(s: string): (n: nat)
    ensures |s| <= n <= 4 * |s|
  {
    if s == [] then 0 else RuneLength(s[0]) + ByteLength(s[1..])
  }

  predicate IsAscii(s: string) { forall i :: 0 <= i < |s| ==> (s[i] as int) < 0x80 }

  /** Every character takes at least one byte, and exactly one when the
      text is ASCII. */
  lemma {:induction false} ByteLengthBounds(s: string)
    ensures |s| <= ByteLength(s) <= 4 * |s|
    ensures ByteLength(s) == |s| <==> IsAscii(s)
    decreases |s|
  {
    if s != [] {
      var s' := s[1..];
      ByteLengthBounds(s');
      assert IsAscii(s) <==> (s[0] as int) < 0x80 && IsAscii(s') by {
        if (s[0] as int) < 0x80 && IsAscii(s') {
          forall i | 0 <= i < |s| ensures (s[i] as int) < 0x80 {
            if i > 0 { assert s[i] == s'[i - 1]; }
          }
        }
      }
    }
  }

  /** How many white-space characters s starts with. */
  function LeadingSpaces(s: string): (k: nat)
    ensures k <= |s|
    ensures forall i :: 0 <= i < k ==> IsSpace(s[i])
    ensures k < |s| ==> !IsSpace(s[k])
  {
    if s == [] || !IsSpace(s[0]) then 0 else 1 + LeadingSpaces(s[1..])
  }

  /** How many white-space characters s ends with. */
  function TrailingSpaces(s: string): (k: nat)
    ensures k <= |s|
    ensures forall i :: |s| - k <= i < |s| ==> IsSpace(s[i])
    ensures k < |s| ==> !IsSpace(s[|s| - 1 - k])
  {
    if s == [] || !IsSpace(s[|s| - 1]) then 0 else 1 + TrailingSpaces(s[..|s| - 1])
  }

  /** strings.TrimSpace: s without its leading and trailing white space. The
      result is the slice of s starting after the leading white space; it
      neither starts nor ends with white space, and everything of s outside
      it is white space. */
  function TrimSpace(s: string): (t: string)
    ensures |t| <= |s|
    ensures t == [] || (!IsSpace(t[0]) && !IsSpace(t[|t| - 1]))
    ensures LeadingSpaces(s) + |t| <= |s| && t == s[LeadingSpaces(s)..LeadingSpaces(s) + |t|]
    ensures forall i :: 0 <= i < LeadingSpaces(s) || LeadingSpaces(s) + |t| <= i < |s| ==> IsSpace(s[i])
  {
    var a := LeadingSpaces(s);
    var rest := s[a..];
    var t := rest[..|rest| - TrailingSpaces(rest)];
    TrimmedMiddle(s, a, rest, t);
    t
  }

  /** What is left between the leading and the trailing white space of s
      has no white space at either end, and all of s after it is white space. */
  lemma TrimmedMiddle(s: string, a: nat, rest: string, t: string)
    requires a == LeadingSpaces(s) && rest == s[a..] && t == rest[..|rest| - TrailingSpaces(rest)]
    ensures t == [] || (!IsSpace(t[0]) && !IsSpace(t[|t| - 1]))
    ensures a + |t| <= |s| && t == s[a..a + |t|]
    ensures forall i :: a + |t| <= i < |s| ==> IsSpace(s[i])
  {
    var k := TrailingSpaces(rest);
    TrimmedEnds(s, a, rest, k, t);
    TrimmedSlice(s, a, rest, k, t);
    TrimmedTail(s, a, rest, k, t);
  }

  lemma TrimmedSlice(s: string, a: nat, rest: string, k: nat, t: string)
    requires a <= |s| && rest == s[a..] && k <= |rest| && t == rest[..|rest| - k]
    ensures a + |t| <= |s| && t == s[a..a + |t|]
  {
  }

  lemma TrimmedEnds(s: string, a: nat, rest: string, k: nat, t: string)
    requires a == LeadingSpaces(s) && rest == s[a..]
    requires k == TrailingSpaces(rest) && t == rest[..|rest| - k]
    ensures t == [] || (!IsSpace(t[0]) && !IsSpace(t[|t| - 1]))
  {
    if t != [] {
      assert t[0] == rest[0] == s[a];
      assert t[|t| - 1] == rest[|rest| - 1 - k];
    }
  }

  lemma TrimmedTail(s: string, a: nat, rest: string, k: nat, t: string)
    requires a <= |s| && rest == s[a..]
    requires k == TrailingSpaces(rest) && t == rest[..|rest| - k]
    ensures forall i :: a + |t| <= i < |s| ==> IsSpace(s[i])
  {
    forall i | a + |t| <= i < |s| ensures IsSpace(s[i]) {
      assert s[i] == rest[i - a];
    }
  }

  /** Text that neither starts nor ends with white space is left as it is. */
  lemma TrimSpaceUnchanged(s: string)
    requires s == [] || (!IsSpace(s[0]) && !IsSpace(s[|s| - 1]))
    ensures TrimSpace(s) == s
  {
    assert LeadingSpaces(s) == 0;
    assert s[0..] == s;
    assert TrailingSpaces(s) == 0;
  }

  /** Text made only of white space trims to nothing. */
  lemma TrimSpaceAllSpace(s: string)
    requires forall i :: 0 <= i < |s| ==> IsSpace(s[i])
    ensures TrimSpace(s) == []
  {
  }
}
