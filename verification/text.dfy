/**
 The string primitives the validators rely on: Go's strings.TrimSpace, the
 ASCII part of strings.ToLower, and len(), which counts UTF-8 bytes.
 */
module Text {

  /** Go's unicode.IsSpace: the Latin-1 spaces plus the other White_Space runes. */
  predicate IsSpace(c: char) {
    var n := c as int;
    || 9 <= n <= 13
    || n == 0x20
    || n == 0x85
    || n == 0xA0
    || n == 0x1680
    || 0x2000 <= n <= 0x200A
    || n == 0x2028
    || n == 0x2029
    || n == 0x202F
    || n == 0x205F
    || n == 0x3000
  }

  /** Every rune of `s` is white space (the empty string included). */
  predicate IsBlank(s: string) {
    forall i :: 0 <= i < |s| ==> IsSpace(s[i])
  }

  /** Neither end of `s` is white space. */
  predicate Tight(s: string) {
    s == [] || (!IsSpace(s[0]) && !IsSpace(s[|s| - 1]))
  }

  /** The length of the longest all-space prefix of `s`. */
  function LeadingSpaces(s: string): (k: nat)
    ensures k <= |s|
    ensures forall i :: 0 <= i < k ==> IsSpace(s[i])
    ensures k < |s| ==> !IsSpace(s[k])
  {
    if |s| > 0 && IsSpace(s[0]) then 1 + LeadingSpaces(s[1..]) else 0
  }

  /** The length of the longest all-space suffix of `s`. */
  function TrailingSpaces(s: string): (k: nat)
    ensures k <= |s|
    ensures forall i :: |s| - k <= i < |s| ==> IsSpace(s[i])
    ensures k < |s| ==> !IsSpace(s[|s| - 1 - k])
  {
    if |s| > 0 && IsSpace(s[|s| - 1]) then 1 + TrailingSpaces(s[..|s| - 1]) else 0
  }

  /** Go's strings.TrimSpace: `s` without its leading and trailing white space. */
  function TrimSpace(s: string): (r: string)
    ensures IsBlank(s) <==> r == []
    ensures Tight(r)
  {
    var a := LeadingSpaces(s);
    var b := TrailingSpaces(s[a..]);
    assert a < |s| ==> s[a] == s[a..][0];
    s[a..|s| - b]
  }

  /** What TrimSpace removes is white space at the two ends and nothing else. */
  lemma TrimSpaceRemovesPadding(s: string) returns (p: string, q: string)
    ensures s == p + TrimSpace(s) + q && IsBlank(p) && IsBlank(q)
  {
    var a := LeadingSpaces(s);
    var b := TrailingSpaces(s[a..]);
    var r := s[a..|s| - b];
    assert r == TrimSpace(s);
    assert s == s[..a] + r + s[|s| - b..];
    var tail := s[|s| - b..];
    p, q := s[..a], tail;
    assert IsBlank(tail) by {
      forall i | 0 <= i < b ensures IsSpace(tail[i]) {
        assert tail[i] == s[a..][|s[a..]| - b + i];
      }
    }
  }

  /**
   TrimSpace removes exactly the white-space padding: whatever blank padding
   surrounds a tight string, trimming gives that string back.
   */
  lemma {:induction false} TrimSpaceOfPadded(p: string, x: string, q: string)
    requires IsBlank(p) && IsBlank(q) && Tight(x)
    ensures TrimSpace(p + x + q) == x
  {
    var s := p + x + q;
    if x == [] {
      assert s == p + q;
      assert IsBlank(s);
    } else {
      var a := LeadingSpaces(s);
      assert s[|p|] == x[0];
      assert a == |p|;
      var t := s[a..];
      assert t == x + q;
      var b := TrailingSpaces(t);
      assert t[|x| - 1] == x[|x| - 1];
      assert b == |q|;
      assert s[a..|s| - b] == x;
    }
  }

  /** Trimming twice is trimming once. */
  lemma TrimSpaceIdempotent(s: string)
    ensures TrimSpace(TrimSpace(s)) == TrimSpace(s)
  {
    var r := TrimSpace(s);
    TrimSpaceOfPadded([], r, []);
    assert [] + r + [] == r;
  }

  /** Lower-cases an ASCII capital letter and leaves every other rune alone. */
  function LowerChar(c: char): char {
    if 'A' <= c <= 'Z' then (c as int + 32) as char else c
  }

  /** Upper-cases an ASCII small letter and leaves every other rune alone. */
  function UpperChar(c: char): char {
    if 'a' <= c <= 'z' then (c as int - 32) as char else c
  }

  /** strings.ToLower restricted to ASCII letters. */
  function ToLower(s: string): string {
    seq(|s|, i requires 0 <= i < |s| => LowerChar(s[i]))
  }

  /** Lower-casing removes every ASCII capital and touches nothing else. */
  lemma ToLowerCharacterized(s: string)
    ensures |ToLower(s)| == |s|
    ensures forall i :: 0 <= i < |s| ==> !('A' <= ToLower(s)[i] <= 'Z')
    ensures forall i :: 0 <= i < |s| && !('A' <= s[i] <= 'Z') ==> ToLower(s)[i] == s[i]
    ensures ToLower(s) == s <==> forall i :: 0 <= i < |s| ==> !('A' <= s[i] <= 'Z')
    ensures forall i :: 0 <= i < |s| && 'A' <= s[i] <= 'Z' ==>
      ToLower(s)[i] == "abcdefghijklmnopqrstuvwxyz"[s[i] as int - 'A' as int]
  {
  }

  /** strings.ToUpper restricted to ASCII letters. */
  function ToUpper(s: string): string {
    seq(|s|, i requires 0 <= i < |s| => UpperChar(s[i]))
  }

  /** Case mapping never turns a space into a non-space or back. */
  lemma CaseKeepsSpaces(s: string)
    ensures IsBlank(ToUpper(s)) <==> IsBlank(s)
    ensures IsBlank(ToLower(s)) <==> IsBlank(s)
    ensures Tight(ToUpper(s)) <==> Tight(s)
    ensures Tight(ToLower(s)) <==> Tight(s)
  {
    assert forall i :: 0 <= i < |s| ==> (IsSpace(ToUpper(s)[i]) <==> IsSpace(s[i]));
    assert forall i :: 0 <= i < |s| ==> (IsSpace(ToLower(s)[i]) <==> IsSpace(s[i]));
  }

  /** Case mapping works rune by rune, so it distributes over concatenation. */
  lemma CaseDistributes(a: string, b: string)
    ensures ToUpper(a + b) == ToUpper(a) + ToUpper(b)
    ensures ToLower(a + b) == ToLower(a) + ToLower(b)
  {
  }

  /** Trimming and upper-casing can be done in either order. */
  lemma TrimSpaceCommutesWithUpper(s: string)
    ensures TrimSpace(ToUpper(s)) == ToUpper(TrimSpace(s))
  {
    var r := TrimSpace(s);
    var p, q := TrimSpaceRemovesPadding(s);
    CaseDistributes(p, r);
    CaseDistributes(p + r, q);
    CaseKeepsSpaces(p);
    CaseKeepsSpaces(r);
    CaseKeepsSpaces(q);
    TrimSpaceOfPadded(ToUpper(p), ToUpper(r), ToUpper(q));
  }

  /** Trimming and lower-casing can be done in either order. */
  lemma TrimSpaceCommutesWithLower(s: string)
    ensures TrimSpace(ToLower(s)) == ToLower(TrimSpace(s))
  {
    var r := TrimSpace(s);
    var p, q := TrimSpaceRemovesPadding(s);
    CaseDistributes(p, r);
    CaseDistributes(p + r, q);
    CaseKeepsSpaces(p);
    CaseKeepsSpaces(r);
    CaseKeepsSpaces(q);
    TrimSpaceOfPadded(ToLower(p), ToLower(r), ToLower(q));
  }

  /** Lower-casing forgets any earlier case mapping. */
  lemma LowerForgetsCase(s: string)
    ensures ToLower(ToUpper(s)) == ToLower(s)
    ensures ToLower(ToLower(s)) == ToLower(s)
  {
  }

  /** Number of bytes in the UTF-8 encoding of one rune. */
  function Utf8Width(c: char): (w: nat)
    ensures 1 <= w <= 4
    ensures w == 1 <==> c as int < 0x80
  {
    var n := c as int;
    if n < 0x80 then 1 else if n < 0x800 then 2 else if n < 0x10000 then 3 else 4
  }

  /** Go's len(s) on a string: the length of its UTF-8 encoding in bytes. */
  function Utf8Len(s: string): (n: nat)
    ensures |s| <= n <= 4 * |s|
    ensures n == |s| <==> forall i :: 0 <= i < |s| ==> s[i] as int < 0x80
  {
    if s == [] then 0 else Utf8Width(s[0]) + Utf8Len(s[1..])
  }
}
