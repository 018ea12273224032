/**
 * The offline threshold-address calculator: 32-bit two's-complement masking
 * of an already-rounded Q(M).10 value, its signed reading, the x"XXXXXXXX"
 * hex literal, the two-byte input parser and the even/odd address pair
 * built from the top ten bits of a 16-bit identifier.
 */
module ThresholdAddressGenerator {
  import opened Wrappers
  import opened Numerals
  import opened Bytes
  import MetricPacketServer

  // ------------------------------------------------- two's complement

  /**
   * to_q_format_32 from the rounded integer on: `scaled & 0xFFFFFFFF`. The
   * result is the one 32-bit word congruent to the input; nothing is clamped.
   */
  function ToQFormat32(scaled: int): (r: int)
    ensures 0 <= r < Two32
    ensures (scaled - r) % Two32 == 0
    ensures 0 <= scaled < Two32 ==> r == scaled
  {
    Mask32(scaled)
  }

  /** to_signed_32: subtract 2^32 when bit 31 is set. */
  function ToSigned32(value: int): (r: int)
    ensures 0 <= value < Two31 ==> r == value
    ensures Two31 <= value < Two32 ==> r == value - Two32
    ensures 0 <= value < Two32 ==> -Two31 <= r < Two31
  {
    if Bit31Set(value) then value - Two32 else value
  }

  /** A signed 32-bit value survives masking and sign restoration. */
  lemma SignedRoundTrip(n: int)
    requires -Two31 <= n < Two31
    ensures ToSigned32(ToQFormat32(n)) == n
  {
  }

  /** An unsigned 32-bit word survives sign restoration and masking. */
  lemma UnsignedRoundTrip(v: int)
    requires 0 <= v < Two32
    ensures ToQFormat32(ToSigned32(v)) == v
  {
  }

  /**
   * The server's decoder reads back the value this tool encodes: for a signed
   * 32-bit n, from_q_format_32 of n and of its 32-bit word are both
   * to_signed_32(n & 0xFFFFFFFF) / 1024.
   */
  lemma ServerReadsBack(n: int)
    requires -Two31 <= n < Two31
    ensures MetricPacketServer.FromQFormat32(n) == ToSigned32(ToQFormat32(n)) as real / 1024.0
    ensures MetricPacketServer.FromQFormat32(ToQFormat32(n)) == n as real / 1024.0
  {
    SignedRoundTrip(n);
  }

  // -------------------------------------------------------- hex literal

  function Zeros(n: nat): (z: string)
    ensures |z| == n && forall i :: 0 <= i < n ==> z[i] == '0'
  {
    if n == 0 then "" else "0" + Zeros(n - 1)
  }

  /** Zero padding on the left up to width w; a numeral already that wide is left as it is. */
  function ZeroPad(w: nat, digits: string): (r: string)
    requires IsUpperHexString(digits)
    ensures |r| == if |digits| < w then w else |digits|
    ensures IsUpperHexString(r) && HexValue(r) == HexValue(digits)
    ensures |digits| >= w ==> r == digits
  {
    var z := Zeros(if |digits| < w then w - |digits| else 0);
    HexValueLeadingZeros(z, digits);
    assert |digits| >= w ==> z + digits == digits;
    z + digits
  }

  /**
   * Python's format(v, '08X'): at least eight characters, an upper-case hex
   * numeral of |v| after the sign of a negative v, and zero padding only up
   * to the width.
   */
  function Format08X(v: int): (r: string)
    ensures |r| >= 8
    ensures v >= 0 ==> IsUpperHexString(r) && HexValue(r) == v
    ensures v < 0 ==> r[0] == '-' && IsUpperHexString(r[1..]) && HexValue(r[1..]) == -v
    ensures |r| > 8 ==> r[0] != '0'
    ensures v < 0 && |r| > 8 ==> r[1] != '0'
  {
    if v < 0 then
      var p := ZeroPad(7, UpperHex(-v));
      assert ("-" + p)[1..] == p && ("-" + p)[1] == p[0];
      "-" + p
    else
      ZeroPad(8, UpperHex(v))
  }

  /**
   * to_hex_string_32: the VHDL-style literal x"XXXXXXXX", whose body
   * between the quotes is the value in hex (after a '-' when negative).
   */
  function ToHexString32(value32: int): (r: string)
    ensures |r| >= 11 && r[0] == 'x' && r[1] == '"' && r[|r| - 1] == '"'
    ensures value32 >= 0 ==> IsUpperHexString(r[2..|r| - 1]) && HexValue(r[2..|r| - 1]) == value32
    ensures value32 < 0 ==> r[2] == '-' && IsUpperHexString(r[3..|r| - 1]) && HexValue(r[3..|r| - 1]) == -value32
    ensures |r| > 11 ==> r[2] != '0'
    ensures value32 < 0 && |r| > 11 ==> r[3] != '0'
  {
    var f := Format08X(value32);
    Quoted(f);
    "x\"" + f + "\""
  }

  /** The characters of x"f": the prefix, f itself between the quotes, and the closing quote. */
  lemma Quoted(f: string)
    requires |f| >= 1
    ensures var r := "x\"" + f + "\"";
      && |r| == |f| + 3 && r[0] == 'x' && r[1] == '"' && r[|r| - 1] == '"'
      && r[2..|r| - 1] == f && r[2] == f[0] && r[3..|r| - 1] == f[1..]
      && (|f| >= 2 ==> r[3] == f[1])
  {
    var r := "x\"" + f + "\"";
    assert r[2..|r| - 1] == f;
  }

  /**
   * For a 32-bit word the literal is x" then exactly eight upper-case hex
   * digits then ", eleven characters in all, and the digits read back as the word.
   */
  lemma {:induction false} HexString32Shape(v: int)
    requires 0 <= v < Two32
    ensures var r := ToHexString32(v);
      && |r| == 11 && r[0] == 'x' && r[1] == '"' && r[10] == '"'
      && IsUpperHexString(r[2..10])
      && HexValue(r[2..10]) == v
  {
    var digits := UpperHex(v);
    assert Pow(16, 8) == Two32;
    UpperHexLength(v, 8);
    var r := ToHexString32(v);
    assert |Format08X(v)| == 8;
  }

  // ------------------------------------------------------ input parser

  /** Python's str.replace(pat, "") for a non-empty pat: drop occurrences left to right. */
  function RemoveAll(s: string, pat: string): (r: string)
    requires |pat| > 0
    ensures |r| <= |s|
    decreases |s|
  {
    if |s| < |pat| then s
    else if s[..|pat|] == pat then RemoveAll(s[|pat|..], pat)
    else [s[0]] + RemoveAll(s[1..], pat)
  }

  predicate OccursAt(pat: string, s: string, i: int) {
    0 <= i && i + |pat| <= |s| && s[i..i + |pat|] == pat
  }

  predicate Occurs(pat: string, s: string) {
    exists i | 0 <= i <= |s| :: OccursAt(pat, s, i)
  }

  /** Removing a pattern that does not occur leaves the string as it was. */
  lemma {:induction false} RemoveAllAbsent(s: string, pat: string)
    requires |pat| > 0 && !Occurs(pat, s)
    ensures RemoveAll(s, pat) == s
    decreases |s|
  {
    if |s| >= |pat| {
      assert !OccursAt(pat, s, 0);
      assert s[0..0 + |pat|] == s[..|pat|];
      forall i ensures !OccursAt(pat, s[1..], i) {
        if OccursAt(pat, s[1..], i) {
          assert s[1..][i..i + |pat|] == s[i + 1..i + 1 + |pat|];
          assert OccursAt(pat, s, i + 1);
        }
      }
      RemoveAllAbsent(s[1..], pat);
      assert s == [s[0]] + s[1..];
    }
  }

  /** Removal shortens the string exactly when the pattern occurs in it. */
  lemma {:induction false} RemoveAllShortensIffOccurs(s: string, pat: string)
    requires |pat| > 0
    ensures |RemoveAll(s, pat)| < |s| <==> Occurs(pat, s)
    decreases |s|
  {
    if |s| < |pat| {
      assert !Occurs(pat, s);
    } else if s[..|pat|] == pat {
      assert s[0..0 + |pat|] == s[..|pat|];
      assert OccursAt(pat, s, 0);
    } else {
      RemoveAllShortensIffOccurs(s[1..], pat);
      assert s[0..0 + |pat|] == s[..|pat|];
      if Occurs(pat, s) {
        var i :| 0 <= i <= |s| && OccursAt(pat, s, i);
        assert i != 0;
        assert s[1..][i - 1..i - 1 + |pat|] == s[i..i + |pat|];
        assert OccursAt(pat, s[1..], i - 1);
      }
      if Occurs(pat, s[1..]) {
        var i :| 0 <= i <= |s[1..]| && OccursAt(pat, s[1..], i);
        assert s[1..][i..i + |pat|] == s[i + 1..i + 1 + |pat|];
        assert OccursAt(pat, s, i + 1);
      }
    }
  }

  /** s.replace("0x", "").replace("\\x", ""): never longer than s. */
  function Normalize(s: string): (r: string)
    ensures |r| <= |s|
  {
    RemoveAll(RemoveAll(s, "0x"), "\\x")
  }

  /**
   * The white space int() skips around the digits of an ASCII string:
   * space, tab, line feed, vertical tab, form feed and carriage return.
   */
  predicate IsAsciiSpace(c: char) {
    c == ' ' || '\t' <= c <= '\r'
  }

  /**
   * int(h, 16) for a two-character h: two hex digits, a sign and a digit, or
   * a digit with white space before or after it; anything else is a ValueError.
   */
  function IntBase16Of2(h: string): (r: Option<int>)
    requires |h| == 2
    ensures r.Some? <==>
      || (IsHexDigit(h[0]) && IsHexDigit(h[1]))
      || ((h[0] == '+' || h[0] == '-' || IsAsciiSpace(h[0])) && IsHexDigit(h[1]))
      || (IsHexDigit(h[0]) && IsAsciiSpace(h[1]))
    ensures IsHexString(h) ==> r == Some(HexValue(h))
    ensures (h[0] == '+' || IsAsciiSpace(h[0])) && IsHexDigit(h[1]) ==> r == Some(HexDigitValue(h[1]))
    ensures h[0] == '-' && IsHexDigit(h[1]) ==> r == Some(-(HexDigitValue(h[1]) as int))
    ensures IsHexDigit(h[0]) && IsAsciiSpace(h[1]) ==> r == Some(HexDigitValue(h[0]))
    ensures r.Some? ==> -16 < r.value < 256
  {
    if IsHexDigit(h[0]) && IsHexDigit(h[1]) then
      HexValueTwo(h);
      Some(HexDigitValue(h[0]) * 16 + HexDigitValue(h[1]))
    else if h[0] == '+' && IsHexDigit(h[1]) then Some(HexDigitValue(h[1]))
    else if h[0] == '-' && IsHexDigit(h[1]) then Some(-(HexDigitValue(h[1]) as int))
    else if IsAsciiSpace(h[0]) && IsHexDigit(h[1]) then Some(HexDigitValue(h[1]))
    else if IsHexDigit(h[0]) && IsAsciiSpace(h[1]) then Some(HexDigitValue(h[0]))
    else None
  }

  /**
   * The ASCII separators U+001C..U+001F are not white space to int(): a half
   * holding one beside a digit, in either order, is a ValueError.
   */
  lemma IntBase16Of2RejectsSeparators(c: char, d: char)
    requires '\U{1C}' <= c <= '\U{1F}'
    ensures IntBase16Of2([c, d]).None? && IntBase16Of2([d, c]).None?
  {
  }

  /** The ValueError parse_two_bytes raises. */
  datatype ParseError = ValueError

  /** parse_two_bytes */
  function ParseTwoBytes(input: string): (r: Result<(int, int), ParseError>)
    ensures r.Ok? ==> |Normalize(input)| == 2 || |Normalize(input)| == 4
    ensures r.Ok? ==> -16 < r.value.0 < 256 && -16 < r.value.1 < 256
  {
    var s := Normalize(input);
    if |s| == 2 && (forall i :: 0 <= i < |s| ==> s[i] as int < 256) then
      Ok((s[0] as int, s[1] as int))
    else if |s| == 4 then
      match (IntBase16Of2(s[..2]), IntBase16Of2(s[2..]))
      case (Some(b1), Some(b2)) => Ok((b1, b2))
      case _ => Err(ValueError)
    else Err(ValueError)
  }

  /**
   * The three outcomes of parse_two_bytes, after the "0x" and "\x" removal:
   * two characters below 256 are their code points, four hex digits are the
   * values of their halves, and any length other than two or four is an error.
   * Every result lies in (-16, 256), and in [0, 255] without a sign.
   */
  lemma ParseTwoBytesCases(input: string)
    ensures var s, r := Normalize(input), ParseTwoBytes(input);
      && (|s| == 2 && (forall i :: 0 <= i < 2 ==> s[i] as int < 256) ==>
            r == Ok((s[0] as int, s[1] as int)) && 0 <= r.value.0 < 256 && 0 <= r.value.1 < 256)
      && (|s| == 2 && (exists i :: 0 <= i < 2 && s[i] as int >= 256) ==> r == Err(ValueError))
      && (|s| == 4 ==> (r.Ok? <==> IntBase16Of2(s[..2]).Some? && IntBase16Of2(s[2..]).Some?))
      && (|s| == 4 && r.Ok? ==> r.value == (IntBase16Of2(s[..2]).value, IntBase16Of2(s[2..]).value))
      && (|s| == 4 && IsHexString(s) ==>
            r == Ok((HexValue(s[..2]), HexValue(s[2..]))) && 0 <= r.value.0 < 256 && 0 <= r.value.1 < 256)
      && (|s| != 2 && |s| != 4 ==> r == Err(ValueError))
      && (r.Ok? ==> -16 < r.value.0 < 256 && -16 < r.value.1 < 256)
  {
    var s := Normalize(input);
    if |s| == 4 && IsHexString(s) {
      assert IsHexString(s[..2]) && IsHexString(s[2..]);
    }
  }

  /** An input with no '0' and no '\\' in it has nothing to normalise. */
  lemma NormalizeNoPrefixChars(input: string)
    requires forall i :: 0 <= i < |input| ==> input[i] != '0' && input[i] != '\\'
    ensures Normalize(input) == input
  {
    RemoveAllNoFirstChar(input, "0x");
    RemoveAllNoFirstChar(input, "\\x");
  }

  /** Halves that int() rejects raise ValueError: "zzzz" is not read. */
  lemma ParseTwoBytesRejectsNonHex()
    ensures ParseTwoBytes("zzzz") == Err(ValueError)
  {
    NormalizeNoPrefixChars("zzzz");
    assert "zzzz"[..2] == "zz" && "zzzz"[2..] == "zz";
    assert IntBase16Of2("zz").None?;
  }

  /** A signed half is read with its sign: "-1ff" is (-1, 255). */
  lemma ParseTwoBytesSignedHalf()
    ensures ParseTwoBytes("-1ff") == Ok((-1, 255))
  {
    NormalizeNoPrefixChars("-1ff");
    assert "-1ff"[..2] == "-1" && "-1ff"[2..] == "ff";
    assert IntBase16Of2("-1") == Some(-1);
    assert IntBase16Of2("ff") == Some(255);
  }

  /** An input with no "0x" and no "\x" in it is parsed as it stands. */
  lemma NormalizeUnchanged(input: string)
    requires !Occurs("0x", input) && !Occurs("\\x", input)
    ensures Normalize(input) == input
  {
    RemoveAllAbsent(input, "0x");
    RemoveAllAbsent(input, "\\x");
  }

  /** A string of lower-case hex digits contains neither "0x" nor "\x". */
  lemma LowerHexHasNoPrefix(h: string)
    requires IsLowerHexString(h)
    ensures !Occurs("0x", h) && !Occurs("\\x", h)
  {
    forall i ensures !OccursAt("0x", h, i) && !OccursAt("\\x", h, i) {
      if 0 <= i && i + 2 <= |h| {
        assert h[i..i + 2][1] == h[i + 1];
      }
    }
  }

  /** Round trip: the four hex digits bytes.hex() prints for two bytes parse back to them. */
  lemma ParseTwoBytesOfHex(b1: byte, b2: byte)
    ensures ParseTwoBytes(Hex([b1, b2])) == Ok((b1 as int, b2 as int))
  {
    var h := Hex([b1, b2]);
    HexTwo(b1, b2);
    LowerHexHasNoPrefix(h);
    NormalizeUnchanged(h);
    ParseTwoBytesCases(h);
    HexValueTwo(h[..2]);
    HexValueTwo(h[2..]);
  }

  /**
   * Round trip: two characters below 256 parse back to their code points,
   * unless they are "0x" or "\x", which the normalisation erases.
   */
  lemma ParseTwoBytesOfChars(c1: char, c2: char)
    requires c1 as int < 256 && c2 as int < 256
    requires [c1, c2] != "0x" && [c1, c2] != "\\x"
    ensures ParseTwoBytes([c1, c2]) == Ok((c1 as int, c2 as int))
  {
    var s := [c1, c2];
    assert s[0..2] == s;
    assert !OccursAt("0x", s, 0) && !OccursAt("\\x", s, 0);
    assert forall i :: OccursAt("0x", s, i) || OccursAt("\\x", s, i) ==> i == 0;
    NormalizeUnchanged(s);
    ParseTwoBytesCases(s);
  }

  /** "0x" typed as two raw characters is erased by the normalisation and rejected. */
  lemma ParseTwoBytesRejectsRawPrefix()
    ensures ParseTwoBytes("0x").Err?
  {
    assert "0x"[..2] == "0x";
    assert RemoveAll("0x", "0x") == "";
  }

  // ------------------------------------------- the help text's example

  lemma RemoveAllSkip(pat: string, t: string)
    requires |pat| > 0
    ensures RemoveAll(pat + t, pat) == RemoveAll(t, pat)
  {
    assert (pat + t)[..|pat|] == pat && (pat + t)[|pat|..] == t;
  }

  /** A character that does not start "0x" is kept. */
  lemma KeepBeforeNonX(c: char, t: string)
    requires t == [] || c != '0' || t[0] != 'x'
    ensures RemoveAll([c] + t, "0x") == [c] + RemoveAll(t, "0x")
  {
    assert ([c] + t)[1..] == t;
    if t != [] {
      assert ([c] + t)[..2] == [c, t[0]];
    }
  }

  /** A string without the pattern's first character is left alone. */
  lemma {:induction false} RemoveAllNoFirstChar(s: string, pat: string)
    requires |pat| > 0 && forall i :: 0 <= i < |s| ==> s[i] != pat[0]
    ensures RemoveAll(s, pat) == s
    decreases |s|
  {
    if |s| >= |pat| {
      assert s[..|pat|][0] == s[0];
      RemoveAllNoFirstChar(s[1..], pat);
      assert s == [s[0]] + s[1..];
    }
  }

  /** Removing one character distributes over concatenation. */
  lemma {:induction false} RemoveCharConcat(a: string, b: string, c: char)
    ensures RemoveAll(a + b, [c]) == RemoveAll(a, [c]) + RemoveAll(b, [c])
    decreases |a|
  {
    if a != [] {
      assert (a + b)[1..] == a[1..] + b;
      assert (a + b)[..1] == a[..1];
      RemoveCharConcat(a[1..], b, c);
    } else {
      assert a + b == b;
    }
  }

  /** The two digits of a hex byte, either case; neither is 'x', ' ' or '\\'. */
  predicate PlainHexPair(x: char, y: char) {
    IsHexDigit(x) && IsHexDigit(y)
  }

  /** The help text's form "0x41 0x42": two prefixed hex bytes separated by a space. */
  function Spaced(x1: char, y1: char, x2: char, y2: char): string {
    ['0', 'x', x1, y1, ' ', '0', 'x', x2, y2]
  }

  /** A hex byte written "0xXY" loses its prefix and keeps its two digits. */
  lemma StripPrefixed(x: char, y: char, t: string)
    requires PlainHexPair(x, y)
    requires t == [] || t[0] != 'x'
    ensures RemoveAll(['0', 'x', x, y] + t, "0x") == [x, y] + RemoveAll(t, "0x")
  {
    assert ['0', 'x', x, y] + t == "0x" + ([x] + ([y] + t));
    RemoveAllSkip("0x", [x] + ([y] + t));
    KeepBeforeNonX(x, [y] + t);
    KeepBeforeNonX(y, t);
  }

  lemma SpacedStripped(x1: char, y1: char, x2: char, y2: char)
    requires PlainHexPair(x1, y1) && PlainHexPair(x2, y2)
    ensures RemoveAll(Spaced(x1, y1, x2, y2), "0x") == [x1, y1, ' ', x2, y2]
  {
    var t := ['0', 'x', x2, y2];
    assert Spaced(x1, y1, x2, y2) == ['0', 'x', x1, y1] + ([' '] + t);
    StripPrefixed(x1, y1, [' '] + t);
    KeepBeforeNonX(' ', t);
    assert t == ['0', 'x', x2, y2] + [];
    StripPrefixed(x2, y2, []);
  }

  /** As written, the spaced form is rejected: it is five characters after normalisation. */
  lemma SpacedRejected(x1: char, y1: char, x2: char, y2: char)
    requires PlainHexPair(x1, y1) && PlainHexPair(x2, y2)
    ensures ParseTwoBytes(Spaced(x1, y1, x2, y2)) == Err(ValueError)
  {
    SpacedStripped(x1, y1, x2, y2);
    RemoveAllNoFirstChar([x1, y1, ' ', x2, y2], "\\x");
  }

  /**
   * parse_two_bytes as its help text means it: an input that is rejected as
   * given is tried once more with its spaces removed.
   */
  function ParseTwoBytesCorrected(input: string): (r: Result<(int, int), ParseError>)
    ensures ParseTwoBytes(input).Ok? ==> r == ParseTwoBytes(input)
  {
    match ParseTwoBytes(input)
    case Ok(v) => Ok(v)
    case Err(_) => ParseTwoBytes(RemoveAll(input, " "))
  }

  lemma {:induction false} SpacedUnspaced(x1: char, y1: char, x2: char, y2: char)
    requires PlainHexPair(x1, y1) && PlainHexPair(x2, y2)
    ensures RemoveAll(Spaced(x1, y1, x2, y2), " ") == ['0', 'x', x1, y1, '0', 'x', x2, y2]
  {
    var a, b := ['0', 'x', x1, y1], ['0', 'x', x2, y2];
    assert Spaced(x1, y1, x2, y2) == (a + " ") + b;
    RemoveCharConcat(a + " ", b, ' ');
    RemoveCharConcat(a, " ", ' ');
    RemoveAllSkip(" ", "");
    RemoveAllNoFirstChar(a, " ");
    RemoveAllNoFirstChar(b, " ");
    assert a + b == ['0', 'x', x1, y1, '0', 'x', x2, y2];
  }

  lemma UnspacedStripped(x1: char, y1: char, x2: char, y2: char)
    requires PlainHexPair(x1, y1) && PlainHexPair(x2, y2)
    ensures Normalize(['0', 'x', x1, y1, '0', 'x', x2, y2]) == [x1, y1, x2, y2]
  {
    var t := ['0', 'x', x2, y2];
    assert ['0', 'x', x1, y1, '0', 'x', x2, y2] == ['0', 'x', x1, y1] + t;
    StripPrefixed(x1, y1, t);
    assert t == ['0', 'x', x2, y2] + [];
    StripPrefixed(x2, y2, []);
    assert RemoveAll(['0', 'x', x1, y1, '0', 'x', x2, y2], "0x") == [x1, y1, x2, y2];
    RemoveAllNoFirstChar([x1, y1, x2, y2], "\\x");
  }

  /**
   * The corrected parser reads the spaced form "0xXY 0xZW" of any two hex
   * bytes, with digits of either case, as those two bytes.
   */
  lemma SpacedAccepted(x1: char, y1: char, x2: char, y2: char)
    requires PlainHexPair(x1, y1) && PlainHexPair(x2, y2)
    ensures ParseTwoBytesCorrected(Spaced(x1, y1, x2, y2))
         == Ok((HexValue([x1, y1]), HexValue([x2, y2])))
  {
    SpacedRejected(x1, y1, x2, y2);
    SpacedUnspaced(x1, y1, x2, y2);
    var u := ['0', 'x', x1, y1, '0', 'x', x2, y2];
    UnspacedStripped(x1, y1, x2, y2);
    var h := [x1, y1, x2, y2];
    assert h[..2] == [x1, y1] && h[2..] == [x2, y2];
    ParseTwoBytesCases(u);
  }

  /** The example of the help text, as written: "0x41 0x42" is rejected. */
  lemma HelpExampleRejected()
    ensures Spaced('4', '1', '4', '2') == "0x41 0x42"
    ensures ParseTwoBytes(Spaced('4', '1', '4', '2')) == Err(ValueError)
  {
    SpacedRejected('4', '1', '4', '2');
  }

  /** The example of the help text, corrected: "0x41 0x42" is read as the bytes 0x41 and 0x42. */
  lemma HelpExampleAccepted()
    ensures ParseTwoBytesCorrected(Spaced('4', '1', '4', '2')) == Ok((0x41, 0x42))
  {
    var a, b := HexValue(['4', '1']), HexValue(['4', '2']);
    HexValueTwo(['4', '1']);
    HexValueTwo(['4', '2']);
    assert a == 0x41 && b == 0x42;
    SpacedAccepted('4', '1', '4', '2');
  }

  // -------------------------------------------------- address arithmetic

  /**
   * msb10 = (((b1 << 8) | b2) >> 6) & 0x3FF: ten bits of the combined value,
   * the top ten of the 16-bit identifier when both inputs are bytes.
   */
  function Msb10(b1: int, b2: int): (m: int)
    ensures 0 <= m < 1024
    ensures 0 <= b1 < 256 && 0 <= b2 < 256 ==> m == (b1 * 256 + b2) / 64
  {
    var value := BitOr(b1 * 256, b2);
    if 0 <= b1 < 256 && 0 <= b2 < 256 then
      OrInByte(b1, b2);
      assert 0 <= value < 65536;
      assert 0 <= value / 64 < 1024;
      (value / 64) % 1024
    else
      (value / 64) % 1024
  }

  /**
   * The address pair of main: (msb10 << 1, (msb10 << 1) | 1). Whatever
   * parse_two_bytes returned, the lower address is even and in [0, 2046]
   * and the upper one is the next odd number.
   */
  function ThresholdAddresses(b1: int, b2: int): (r: (int, int))
    ensures 0 <= r.0 <= 2046 && r.0 % 2 == 0
    ensures r.1 == r.0 + 1
    ensures r.0 == 2 * Msb10(b1, b2)
  {
    var msb10 := Msb10(b1, b2);
    var lower := msb10 * 2;
    assert 0 <= lower <= 2046 && lower % 2 == 0;
    var upper := BitOr(lower, 1);
    assert upper == lower + 1 by { ShiftInOne(msb10); }
    (lower, upper)
  }

  /** (m << 1) | 1 == 2m + 1 */
  lemma ShiftInOne(m: int)
    ensures BitOr(m * 2, 1) == m * 2 + 1
  {
    assert Pow(2, 1) == 2;
    BitOrDisjoint(m, 1, 1);
  }

  /** (b1 << 8) | b2 == 256 b1 + b2 for a byte b2 */
  lemma OrInByte(b1: int, b2: int)
    requires 0 <= b2 < 256
    ensures BitOr(b1 * 256, b2) == b1 * 256 + b2
  {
    assert Pow(2, 8) == 256;
    BitOrDisjoint(b1, b2, 8);
  }

  /**
   * main from parse_two_bytes(args.input) to the address pair, with the
   * parser as its help text means it: an unreadable input is a ValueError,
   * and every input parse_two_bytes accepts gets the pair main computes.
   */
  function AddressesOfInput(input: string): (r: Result<(int, int), ParseError>)
    ensures r.Ok? <==> ParseTwoBytesCorrected(input).Ok?
    ensures r.Ok? ==> 0 <= r.value.0 <= 2046 && r.value.0 % 2 == 0 && r.value.1 == r.value.0 + 1
    ensures ParseTwoBytes(input).Ok? ==>
      r == Ok(ThresholdAddresses(ParseTwoBytes(input).value.0, ParseTwoBytes(input).value.1))
  {
    match ParseTwoBytesCorrected(input)
    case Err(e) => Err(e)
    case Ok((b1, b2)) => Ok(ThresholdAddresses(b1, b2))
  }
}
