/** The two ways the catalogue measures a string: JavaScript's `length` counts
    UTF-16 code units, Rust's `len()` counts UTF-8 bytes. A character is a
    Unicode scalar value. */
module TextLengths {

  /** The positions of `s` whose character is at least `bound`. */
  function Above(s: string, bound: int): set<int> {
    set i | 0 <= i < |s| && s[i] as int >= bound
  }

  /** Every character is one code unit, and one more above the Basic
      Multilingual Plane, where it takes a surrogate pair. */
  function Utf16Length(s: string): (n: nat)
    ensures n == 0 <==> |s| == 0
  {
    |s| + |Above(s, 0x1_0000)|
  }

  /** Every character is one byte, plus one each from U+0080, U+0800 and U+10000 on. */
  function Utf8Length(s: string): (n: nat)
    ensures n == 0 <==> |s| == 0
  {
    |s| + |Above(s, 0x80)| + |Above(s, 0x800)| + |Above(s, 0x1_0000)|
  }

  /** Both measures agree with the character count on ASCII text. */
  lemma AsciiLengths(s: string)
    requires forall i | 0 <= i < |s| :: s[i] as int < 0x80
    ensures Utf16Length(s) == |s| && Utf8Length(s) == |s|
  {
    assert Above(s, 0x80) == {};
    assert Above(s, 0x800) == {};
    assert Above(s, 0x1_0000) == {};
  }
}
