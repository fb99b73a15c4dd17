/**
 * Byte-string helpers shared by the uploader and the gallery: ASCII digits,
 * PHP's `strtolower`, the extension part of `pathinfo` and PHP's decimal
 * rendering of a non-negative integer. A `string` here stands for a PHP byte
 * string, one `char` per byte.
 */
module Text {

  /** PCRE's `\d` without the `u` modifier: an ASCII digit. */
  predicate IsDigit(c: char) {
    '0' <= c <= '9'
  }

  predicate AllDigits(s: string) {
    forall i :: 0 <= i < |s| ==> IsDigit(s[i])
  }

  /** A run of digits at the start of `s` ends at or before any character that is not a digit. */
  lemma DigitRunEndsBefore(s: string, n: nat, i: nat)
    requires n <= |s| && AllDigits(s[..n])
    requires i < |s| && !IsDigit(s[i])
    ensures n <= i
  {
  }

  /** `strtolower` on one byte: only `A`-`Z` change. */
  function LowerChar(c: char): char {
    if 'A' <= c <= 'Z' then (c as int + 32) as char else c
  }

  /** `strtolower`: `A`-`Z` become `a`-`z`, every other byte is kept. */
  function Lower(s: string): (r: string)
    ensures |r| == |s|
    ensures forall i :: 0 <= i < |r| ==> !('A' <= r[i] <= 'Z')
    ensures forall i :: 0 <= i < |s| && !('A' <= s[i] <= 'Z') ==> r[i] == s[i]
    ensures forall i :: 0 <= i < |s| && 'A' <= s[i] <= 'Z' ==> r[i] as int == s[i] as int + 32
  {
    seq(|s|, i requires 0 <= i < |s| => LowerChar(s[i]))
  }

  /** A string without upper-case letters is its own lower-case form. */
  lemma LowerKeepsLowerCase(s: string)
    requires forall i :: 0 <= i < |s| ==> !('A' <= s[i] <= 'Z')
    ensures Lower(s) == s
  {
  }

  /** A character that is not a letter occurs in `Lower(s)` exactly when it occurs in `s`. */
  lemma LowerKeepsOtherChars(s: string, c: char)
    requires !('A' <= c <= 'Z') && !('a' <= c <= 'z')
    ensures c in Lower(s) <==> c in s
  {
    var r := Lower(s);
    if c in r {
      var i :| 0 <= i < |r| && r[i] == c;
      assert s[i] == c;
    }
    if c in s {
      var i :| 0 <= i < |s| && s[i] == c;
      assert r[i] == c;
    }
  }

  /**
   * `pathinfo($name, PATHINFO_EXTENSION)`: the text after the last `.`,
   * or the empty string when the name has no `.` at all.
   */
  function ExtensionOf(name: string): (ext: string)
    ensures '.' !in ext
    ensures |ext| <= |name| && ext == name[|name| - |ext|..]
    ensures '.' !in name ==> ext == []
    ensures '.' in name ==> |ext| < |name| && name[|name| - |ext| - 1] == '.'
    decreases |name|
  {
    if '.' !in name then []
    else if name[|name| - 1] == '.' then []
    else
      var init := name[..|name| - 1];
      assert name == init + [name[|name| - 1]];
      ExtensionOf(init) + [name[|name| - 1]]
  }

  /** Appending text that holds a `.` makes the extension that of the appended text alone. */
  lemma {:induction false} ExtensionOfAppend(a: string, b: string)
    ensures '.' in b ==> ExtensionOf(a + b) == ExtensionOf(b)
    ensures '.' !in a && '.' !in b ==> ExtensionOf(a + b) == []
    decreases |b|
  {
    if '.' in b && b[|b| - 1] != '.' {
      var init := b[..|b| - 1];
      assert (a + b)[..|a + b| - 1] == a + init;
      assert '.' in init by {
        var j :| 0 <= j < |b| && b[j] == '.';
        assert init[j] == '.';
      }
      ExtensionOfAppend(a, init);
    }
  }

  /** The extension of `stem.ext` is `ext` whenever `ext` itself holds no `.`. */
  lemma {:induction false} ExtensionAfterLastDot(stem: string, ext: string)
    requires '.' !in ext
    ensures ExtensionOf(stem + "." + ext) == ext
    decreases |ext|
  {
    var name := stem + "." + ext;
    assert name[|stem|] == '.';
    if ext != [] {
      var init := ext[..|ext| - 1];
      assert name[..|name| - 1] == stem + "." + init;
      ExtensionAfterLastDot(stem, init);
      assert init + [ext[|ext| - 1]] == ext;
    }
  }

  // ---------------------------------------------------------------- UTF-8

  predicate InRange(c: char, lo: int, hi: int) {
    lo <= c as int <= hi
  }

  /**
   * The length of the well-formed UTF-8 sequence that starts `s`, as in
   * section 4 of RFC 3629 (no overlong forms, no surrogates, nothing above
   * U+10FFFF), or 0 when `s` does not start with one.
   */
  function Utf8SequenceLength(s: string): (n: nat)
    requires s != []
    ensures n <= 4 && n <= |s|
    ensures s[0] as int < 0x80 ==> n == 1
  {
    var b := s[0] as int;
    if b < 0x80 then 1
    else if 0xC2 <= b <= 0xDF then
      if |s| >= 2 && InRange(s[1], 0x80, 0xBF) then 2 else 0
    else if 0xE0 <= b <= 0xEF then
      var lo := if b == 0xE0 then 0xA0 else 0x80;
      var hi := if b == 0xED then 0x9F else 0xBF;
      if |s| >= 3 && InRange(s[1], lo, hi) && InRange(s[2], 0x80, 0xBF) then 3 else 0
    else if 0xF0 <= b <= 0xF4 then
      var lo := if b == 0xF0 then 0x90 else 0x80;
      var hi := if b == 0xF4 then 0x8F else 0xBF;
      if |s| >= 4 && InRange(s[1], lo, hi) && InRange(s[2], 0x80, 0xBF) && InRange(s[3], 0x80, 0xBF)
      then 4 else 0
    else 0
  }

  /** `s` is well-formed UTF-8: the strings `json_encode` accepts. */
  predicate ValidUtf8(s: string)
    decreases |s|
  {
    s == [] || (Utf8SequenceLength(s) > 0 && ValidUtf8(s[Utf8SequenceLength(s)..]))
  }

  predicate Ascii(s: string) {
    forall i :: 0 <= i < |s| ==> s[i] as int < 0x80
  }

  /** ASCII text is UTF-8. */
  lemma {:induction false} AsciiIsValidUtf8(s: string)
    requires Ascii(s)
    ensures ValidUtf8(s)
    decreases |s|
  {
    if s != [] {
      assert Ascii(s[1..]) by {
        forall i | 0 <= i < |s[1..]| ensures s[1..][i] as int < 0x80 {
          assert s[1..][i] == s[i + 1];
        }
      }
      AsciiIsValidUtf8(s[1..]);
    }
  }

  /** A byte `0xFF` can never start a UTF-8 sequence. */
  lemma InvalidLeadByte(s: string)
    requires s != [] && s[0] as int == 0xFF
    ensures !ValidUtf8(s)
  {
  }

  function DigitChar(d: nat): (c: char)
    requires d < 10
    ensures IsDigit(c)
  {
    ('0' as int + d) as char
  }

  /** PHP's string conversion of a non-negative integer, such as the result of `time()`. */
  function Decimal(n: nat): (s: string)
    ensures |s| >= 1 && AllDigits(s)
    ensures s[0] == '0' <==> n == 0
  {
    if n < 10 then [DigitChar(n)] else Decimal(n / 10) + [DigitChar(n % 10)]
  }

  /** The value of a string of decimal digits: the inverse of `Decimal`. */
  function DecimalValue(s: string): nat
    requires AllDigits(s)
  {
    if s == [] then 0 else 10 * DecimalValue(s[..|s| - 1]) + (s[|s| - 1] as int - '0' as int)
  }

  lemma {:induction false} DecimalRoundTrip(n: nat)
    ensures DecimalValue(Decimal(n)) == n
  {
    if n >= 10 {
      var d := Decimal(n / 10);
      assert (d + [DigitChar(n % 10)])[..|d|] == d;
      DecimalRoundTrip(n / 10);
    }
  }
}
