/**
 * The JavaScript string and Buffer built-ins that the modelled code relies on,
 * stated over `seq<char>` and over byte sequences:
 * `toLowerCase`, `includes`, `split`, `Buffer.toString('hex')` and the decimal
 * rendering of a non-negative integer in a template literal.
 */
module JsText {

  newtype byte = b: int | 0 <= b < 256

  predicate IsUpper(c: char) { 'A' <= c <= 'Z' }

  predicate IsDigit(c: char) { '0' <= c <= '9' }

  /** The character class `[a-zA-Z0-9]`. */
  predicate IsAsciiAlnum(c: char) { 'a' <= c <= 'z' || IsUpper(c) || IsDigit(c) }

  // ---------------------------------------------------------------------------
  // toLowerCase (the mappings that land in ASCII)
  // ---------------------------------------------------------------------------

  /** U+212A KELVIN SIGN, the one non-ASCII character whose lower-case form is a single ASCII letter (`k`). */
  const KelvinSign: char := '\U{212A}'

  /** A character that lower-casing leaves alone. */
  predicate IsLowerFixed(c: char) { !IsUpper(c) && c != KelvinSign }

  function LowerChar(c: char): (d: char)
    ensures IsUpper(c) ==> d as int == c as int + 32
    ensures c == KelvinSign ==> d == 'k'
    ensures IsLowerFixed(c) ==> d == c
    ensures IsLowerFixed(d)
  {
    if IsUpper(c) then (c as int + 32) as char
    else if c == KelvinSign then 'k'
    else c
  }

  /** `s.toLowerCase()`: every upper-case ASCII letter, and the Kelvin sign, replaced by its lower-case letter. */
  function ToLower(s: string): (r: string)
    ensures |r| == |s|
    ensures forall i :: 0 <= i < |s| ==> r[i] == LowerChar(s[i])
  {
    if s == [] then [] else [LowerChar(s[0])] + ToLower(s[1..])
  }

  /** Lower-casing is idempotent, so a search string and its lower-cased form behave alike. */
  lemma ToLowerIdempotent(s: string)
    ensures ToLower(ToLower(s)) == ToLower(s)
  {
    var once := ToLower(s);
    assert forall i :: 0 <= i < |once| ==> ToLower(once)[i] == once[i];
  }

  /** A string of characters that lower-casing leaves alone is its own lower-cased form. */
  lemma ToLowerOfLower(s: string)
    requires forall i :: 0 <= i < |s| ==> IsLowerFixed(s[i])
    ensures ToLower(s) == s
  {
    assert forall i :: 0 <= i < |s| ==> ToLower(s)[i] == s[i];
  }

  /**
   * Lower-casing lands in the `[a-zA-Z0-9]` class exactly from that class and
   * from the Kelvin sign, which is outside it.
   */
  lemma LowerCharIntoAlnum(c: char)
    ensures IsAsciiAlnum(LowerChar(c)) <==> IsAsciiAlnum(c) || c == KelvinSign
    ensures !IsAsciiAlnum(KelvinSign)
  {
  }

  // ---------------------------------------------------------------------------
  // includes
  // ---------------------------------------------------------------------------

  ghost predicate OccursAt<T>(hay: seq<T>, needle: seq<T>, i: int)
  {
    0 <= i && i + |needle| <= |hay| && hay[i..i + |needle|] == needle
  }

  /** `hay.includes(needle)`: the empty needle occurs everywhere. */
  function Includes<T(==)>(hay: seq<T>, needle: seq<T>): (b: bool)
    ensures b <==> exists i :: OccursAt(hay, needle, i)
    decreases |hay|
  {
    if |needle| <= |hay| && hay[..|needle|] == needle then
      assert OccursAt(hay, needle, 0);
      true
    else if hay == [] then
      false
    else
      OccurrenceInTail(hay, needle);
      Includes(hay[1..], needle)
  }

  /** Without a match at the front, `needle` occurs in `hay` exactly when it occurs in `hay[1..]`. */
  lemma OccurrenceInTail<T>(hay: seq<T>, needle: seq<T>)
    requires hay != [] && !OccursAt(hay, needle, 0)
    ensures (exists i :: OccursAt(hay, needle, i)) <==> (exists i :: OccursAt(hay[1..], needle, i))
  {
    forall i | OccursAt(hay[1..], needle, i) ensures OccursAt(hay, needle, i + 1) {
      assert hay[1..][i..i + |needle|] == hay[i + 1..i + 1 + |needle|];
    }
    forall i | OccursAt(hay, needle, i) ensures OccursAt(hay[1..], needle, i - 1) {
      assert hay[1..][i - 1..i - 1 + |needle|] == hay[i..i + |needle|];
    }
  }

  // ---------------------------------------------------------------------------
  // split
  // ---------------------------------------------------------------------------

  /** `s.split(sep)` for a one-character separator: never empty, `"".split(sep) == [""]`. */
  function Split(s: string, sep: char): (parts: seq<string>)
    ensures |parts| >= 1
    ensures forall k :: 0 <= k < |parts| ==> sep !in parts[k]
  {
    if s == [] then [[]]
    else
      var init := Split(s[..|s| - 1], sep);
      var c := s[|s| - 1];
      if c == sep then init + [[]]
      else init[..|init| - 1] + [init[|init| - 1] + [c]]
  }

  /** `parts.join(sep)`, the inverse of Split. */
  function Join(parts: seq<string>, sep: char): string
    requires |parts| >= 1
  {
    if |parts| == 1 then parts[0]
    else Join(parts[..|parts| - 1], sep) + [sep] + parts[|parts| - 1]
  }

  /** Splitting loses nothing: joining the pieces with the separator gives back the string. */
  lemma {:induction false} SplitJoin(s: string, sep: char)
    ensures Join(Split(s, sep), sep) == s
  {
    if s != [] {
      var pre := s[..|s| - 1];
      var init := Split(pre, sep);
      var c := s[|s| - 1];
      SplitJoin(pre, sep);
      if c == sep {
        var parts := init + [[]];
        assert parts[..|parts| - 1] == init;
      } else {
        var parts := init[..|init| - 1] + [init[|init| - 1] + [c]];
        if |init| == 1 {
          assert Join(parts, sep) == init[0] + [c];
        } else {
          assert parts[..|parts| - 1] == init[..|init| - 1];
          assert init[..|init| - 1][..|init| - 2] == init[..|init| - 2];
          calc {
            Join(parts, sep);
            Join(init[..|init| - 1], sep) + [sep] + (init[|init| - 1] + [c]);
            (Join(init[..|init| - 1], sep) + [sep] + init[|init| - 1]) + [c];
            Join(init, sep) + [c];
          }
        }
        assert pre + [c] == s;
      }
    }
  }

  /** The last piece of Split is the text after the last separator (all of `s` when it has none). */
  lemma {:induction false} SplitLast(s: string, sep: char)
    ensures var last := Split(s, sep)[|Split(s, sep)| - 1];
      && |last| <= |s|
      && s[|s| - |last|..] == last
      && sep !in last
      && (|last| < |s| ==> s[|s| - |last| - 1] == sep)
  {
    if s != [] {
      var pre := s[..|s| - 1];
      SplitLast(pre, sep);
      var init := Split(pre, sep);
      var c := s[|s| - 1];
      if c != sep {
        var last := init[|init| - 1] + [c];
        assert Split(s, sep)[|Split(s, sep)| - 1] == last;
        assert s[|s| - |last|..] == pre[|pre| - |init[|init| - 1]|..] + [c];
      }
    }
  }

  // ---------------------------------------------------------------------------
  // Buffer.toString('hex')
  // ---------------------------------------------------------------------------

  predicate IsHexChar(c: char) { IsDigit(c) || 'a' <= c <= 'f' }

  /** The lower-case hexadecimal digit of a nibble. */
  function HexDigit(k: nat): (c: char)
    requires k < 16
    ensures IsHexChar(c)
  {
    if k < 10 then ('0' as int + k) as char else ('a' as int + k - 10) as char
  }

  function HexValue(c: char): (v: nat)
    requires IsHexChar(c)
    ensures v < 16 && HexDigit(v) == c
  {
    if IsDigit(c) then c as int - '0' as int else c as int - 'a' as int + 10
  }

  lemma HexValueOfDigit(k: nat)
    requires k < 16
    ensures HexValue(HexDigit(k)) == k
  {
  }

  /** The two lower-case hexadecimal digits of one byte, high nibble first. */
  function HexByte(b: byte): (h: string)
    ensures |h| == 2 && IsHexChar(h[0]) && IsHexChar(h[1])
    ensures HexValue(h[0]) * 16 + HexValue(h[1]) == b as int
  {
    var hi, lo := b as int / 16, b as int % 16;
    HexValueOfDigit(hi);
    HexValueOfDigit(lo);
    [HexDigit(hi), HexDigit(lo)]
  }

  /** `buffer.toString('hex')`: two lower-case digits per byte. */
  function HexEncode(bytes: seq<byte>): (hex: string)
    ensures |hex| == 2 * |bytes|
  {
    if bytes == [] then [] else HexByte(bytes[0]) + HexEncode(bytes[1..])
  }

  /** Every character of the hexadecimal text is a lower-case hexadecimal digit. */
  lemma {:induction false} HexEncodeChars(bytes: seq<byte>)
    ensures forall i :: 0 <= i < |HexEncode(bytes)| ==> IsHexChar(HexEncode(bytes)[i])
  {
    if bytes != [] {
      HexEncodeChars(bytes[1..]);
      var h, rest := HexByte(bytes[0]), HexEncode(bytes[1..]);
      assert HexEncode(bytes) == h + rest;
      forall i | 2 <= i < |h + rest| ensures (h + rest)[i] == rest[i - 2] { }
    }
  }

  /** Reads back a string of hexadecimal digit pairs, the inverse of HexEncode. */
  function HexDecode(hex: string): seq<byte>
    requires |hex| % 2 == 0
    requires forall i :: 0 <= i < |hex| ==> IsHexChar(hex[i])
  {
    if hex == [] then [] else [(HexValue(hex[0]) * 16 + HexValue(hex[1])) as byte] + HexDecode(hex[2..])
  }

  lemma {:induction false} HexRoundTrip(bytes: seq<byte>)
    ensures forall i :: 0 <= i < |HexEncode(bytes)| ==> IsHexChar(HexEncode(bytes)[i])
    ensures HexDecode(HexEncode(bytes)) == bytes
  {
    HexEncodeChars(bytes);
    if bytes != [] {
      var hex := HexEncode(bytes);
      assert hex[2..] == HexEncode(bytes[1..]);
      HexRoundTrip(bytes[1..]);
    }
  }

  /** Encoding distributes over concatenation. */
  lemma {:induction false} HexEncodeAppend(a: seq<byte>, b: seq<byte>)
    ensures HexEncode(a + b) == HexEncode(a) + HexEncode(b)
  {
    if a != [] {
      assert (a + b)[0] == a[0];
      assert (a + b)[1..] == a[1..] + b;
      HexEncodeAppend(a[1..], b);
      calc {
        HexEncode(a + b);
        HexByte(a[0]) + HexEncode(a[1..] + b);
        HexByte(a[0]) + (HexEncode(a[1..]) + HexEncode(b));
        (HexByte(a[0]) + HexEncode(a[1..])) + HexEncode(b);
      }
    } else {
      assert a + b == b;
    }
  }

  /** The middle part of a concatenation occurs right after the first part. */
  lemma OccursInMiddle<T>(a: seq<T>, b: seq<T>, c: seq<T>)
    ensures OccursAt(a + b + c, b, |a|)
  {
    assert (a + b + c)[|a|..|a| + |b|] == b;
  }

  /** Hexadecimal output is already lower case, so `toLowerCase` leaves it alone. */
  lemma HexIsLower(bytes: seq<byte>)
    ensures ToLower(HexEncode(bytes)) == HexEncode(bytes)
  {
    HexEncodeChars(bytes);
    ToLowerOfLower(HexEncode(bytes));
  }

  // ---------------------------------------------------------------------------
  // Decimal rendering of a non-negative integer
  // ---------------------------------------------------------------------------

  function DigitChar(d: nat): (c: char)
    requires d < 10
    ensures IsDigit(c) && c as int - '0' as int == d
  {
    ('0' as int + d) as char
  }

  /** `${n}` for a non-negative integer: its decimal digits, without leading zeros. */
  function Decimal(n: nat): (s: string)
    ensures |s| >= 1
    ensures forall i :: 0 <= i < |s| ==> IsDigit(s[i])
    ensures |s| > 1 ==> s[0] != '0'
  {
    if n < 10 then [DigitChar(n)] else Decimal(n / 10) + [DigitChar(n % 10)]
  }

  /** The number a string of decimal digits denotes. */
  function DecimalValue(s: string): nat
    requires forall i :: 0 <= i < |s| ==> IsDigit(s[i])
  {
    if s == [] then 0
    else
      var last := s[|s| - 1];
      assert IsDigit(last);
      DecimalValue(s[..|s| - 1]) * 10 + (last as int - '0' as int)
  }

  lemma {:induction false} DecimalRoundTrip(n: nat)
    ensures DecimalValue(Decimal(n)) == n
  {
    if n >= 10 {
      var s := Decimal(n);
      assert s[..|s| - 1] == Decimal(n / 10);
      DecimalRoundTrip(n / 10);
    }
  }
}
