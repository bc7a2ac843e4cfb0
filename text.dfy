/** The two string tests the core uses: `string.IsNullOrWhiteSpace` and
    `StringComparison.OrdinalIgnoreCase` equality. */
module Text {

  /** `char.IsWhiteSpace`: the Unicode White_Space characters of the Basic
      Multilingual Plane. */
  predicate IsWhiteSpace(c: char)
  {
    var u := c as int;
    || 0x09 <= u <= 0x0D
    || u == 0x20
    || u == 0x85
    || u == 0xA0
    || u == 0x1680
    || 0x2000 <= u <= 0x200A
    || u == 0x2028
    || u == 0x2029
    || u == 0x202F
    || u == 0x205F
    || u == 0x3000
  }

  /** `string.IsNullOrWhiteSpace` on a non-null string: empty or all white space. */
  predicate IsBlank(s: string): (r: bool)
    ensures s == [] ==> r
    ensures (exists i | 0 <= i < |s| :: 'A' <= s[i] <= 'Z' || 'a' <= s[i] <= 'z' || '0' <= s[i] <= '9') ==> !r
  {
    forall i | 0 <= i < |s| :: IsWhiteSpace(s[i])
  }

  /** Case folding of one character; ASCII letters only. */
  function FoldChar(c: char): char
  {
    if 'A' <= c <= 'Z' then (c as int - 'A' as int + 'a' as int) as char else c
  }

  /** The case-folded form of a string, the key under which ordinal
      case-insensitive comparison treats two strings as equal. */
  function Fold(s: string): (r: string)
    ensures |r| == |s|
    ensures forall i | 0 <= i < |s| :: r[i] == FoldChar(s[i])
  {
    seq(|s|, i requires 0 <= i < |s| => FoldChar(s[i]))
  }

  /** `a.Equals(b, StringComparison.OrdinalIgnoreCase)`. */
  predicate SameIgnoringCase(a: string, b: string): (r: bool)
    ensures a == b ==> r
    ensures r ==> |a| == |b|
    ensures r ==> forall i | 0 <= i < |a| :: FoldChar(a[i]) == FoldChar(b[i])
  {
    Fold(a) == Fold(b)
  }
}
