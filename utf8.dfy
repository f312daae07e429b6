/**
 * The bytes of a std::string. A path arrives as text, but std::string::size() and
 * std::string::substr count the bytes of its UTF-8 encoding, not its characters.
 */
module Utf8 {

  type Byte = x: int | 0 <= x < 0x100

  /** The UTF-8 encoding of one Unicode scalar value: one to four bytes. */
  function EncodeChar(c: char): (bytes: seq<Byte>)
    ensures 1 <= |bytes| <= 4
    ensures |bytes| == 1 <==> (c as int) < 0x80
    ensures |bytes| == 1 ==> bytes[0] == c as int
    ensures |bytes| > 1 ==> 0x80 <= bytes[|bytes| - 1] < 0xC0
  {
    var v := c as int;
    if v < 0x80 then [v]
    else if v < 0x800 then [0xC0 + v / 0x40, 0x80 + v % 0x40]
    else if v < 0x1_0000 then [0xE0 + v / 0x1000, 0x80 + (v / 0x40) % 0x40, 0x80 + v % 0x40]
    else [0xF0 + v / 0x4_0000, 0x80 + (v / 0x1000) % 0x40, 0x80 + (v / 0x40) % 0x40, 0x80 + v % 0x40]
  }

  /** The UTF-8 encoding of a string: its characters' encodings, in order. */
  function Encode(s: string): seq<Byte>
    decreases |s|
  {
    if s == [] then [] else Encode(s[..|s| - 1]) + EncodeChar(s[|s| - 1])
  }

  /** `suffix` is the end of `xs`. */
  predicate EndsWith<T(==)>(xs: seq<T>, suffix: seq<T>)
  {
    |suffix| <= |xs| && xs[|xs| - |suffix|..] == suffix
  }

  /** A string has at least as many bytes as characters, and at most four bytes per character. */
  lemma {:induction false} EncodeLength(s: string)
    ensures |s| <= |Encode(s)| <= 4 * |s|
    decreases |s|
  {
    if s != [] {
      EncodeLength(s[..|s| - 1]);
    }
  }

  /** A string of ASCII characters has exactly one byte per character, equal to its code. */
  lemma {:induction false} EncodeAscii(s: string)
    requires forall i :: 0 <= i < |s| ==> (s[i] as int) < 0x80
    ensures |Encode(s)| == |s|
    ensures forall i :: 0 <= i < |s| ==> Encode(s)[i] == s[i] as int
    decreases |s|
  {
    if s != [] {
      EncodeAscii(s[..|s| - 1]);
    }
  }

  /** Two sequences extended by one element each: the suffix test splits into the last elements and the rest. */
  lemma EndsWithSnoc<T>(xs: seq<T>, ys: seq<T>, a: T, b: T)
    ensures EndsWith(xs + [a], ys + [b]) <==> a == b && EndsWith(xs, ys)
  {
    var xa, yb := xs + [a], ys + [b];
    if EndsWith(xa, yb) {
      assert xa[|xa| - 1] == yb[|yb| - 1];
      assert xs[|xs| - |ys|..] == xa[|xa| - |yb|..|xa| - 1];
    }
    if a == b && EndsWith(xs, ys) {
      assert xa[|xa| - |yb|..] == xs[|xs| - |ys|..] + [a];
    }
  }

  /**
   * For an ASCII `suffix`, the bytes of `s` end with the bytes of `suffix` exactly when
   * `s` ends with `suffix`: the last byte of a multi-byte character is never ASCII, so
   * an ASCII byte at the end is a whole character.
   */
  lemma {:induction false} AsciiSuffix(s: string, suffix: string)
    requires forall i :: 0 <= i < |suffix| ==> (suffix[i] as int) < 0x80
    ensures EndsWith(Encode(s), Encode(suffix)) <==> EndsWith(s, suffix)
    decreases |suffix|
  {
    if suffix == [] {
    } else if s == [] {
      EncodeLength(suffix);
    } else {
      var init, last := s[..|s| - 1], s[|s| - 1];
      var sinit, slast := suffix[..|suffix| - 1], suffix[|suffix| - 1];
      assert s == init + [last];
      assert suffix == sinit + [slast];
      AsciiSuffix(init, sinit);
      EndsWithSnoc(init, sinit, last, slast);
      var e, es := Encode(s), Encode(suffix);
      assert es == Encode(sinit) + [slast as int];
      if (last as int) < 0x80 {
        assert e == Encode(init) + [last as int];
        EndsWithSnoc(Encode(init), Encode(sinit), last as int, slast as int);
      } else {
        assert e[|e| - 1] == EncodeChar(last)[|EncodeChar(last)| - 1];
        assert es[|es| - 1] == slast as int;
      }
    }
  }
}
