/** `UIColor.init(hex:)`: reading a colour from a string of hexadecimal
    digits such as "#FF8800" or "FF880080". */
module HexColor {
  import opened Options

  type Byte = b: int | 0 <= b < 256

  /** The four channels as bytes; `init(hex:)` hands each to
      `UIColor(red:green:blue:alpha:)` divided by 255. */
  datatype RgbaBytes = RgbaBytes(red: Byte, green: Byte, blue: Byte, alpha: Byte)

  datatype Rgba = Rgba(red: real, green: real, blue: real, alpha: real)

  /** The colour of a string that cannot be read: red, green and blue keep
      their initial 0 and alpha its initial 1. */
  const OpaqueBlack: RgbaBytes := RgbaBytes(0, 0, 0, 255)

  // ---------------------------------------------------------------------------
  // Hexadecimal digits and the scanner
  // ---------------------------------------------------------------------------

  function DigitValue(c: char): (d: Option<nat>)
    ensures d.Some? ==> d.value < 16
  {
    if '0' <= c <= '9' then Some(c as nat - '0' as nat)
    else if 'a' <= c <= 'f' then Some(c as nat - 'a' as nat + 10)
    else if 'A' <= c <= 'F' then Some(c as nat - 'A' as nat + 10)
    else None
  }

  predicate IsHexDigit(c: char) {
    DigitValue(c).Some?
  }

  predicate AllHex(s: string) {
    forall i :: 0 <= i < |s| ==> IsHexDigit(s[i])
  }

  function Pow16(n: nat): (p: nat)
    ensures p >= 1
  {
    if n == 0 then 1 else 16 * Pow16(n - 1)
  }

  /** The digits the scanner consumes: the longest prefix of `s` made of
      hexadecimal digits. */
  function HexPrefix(s: string): (p: string)
    ensures p <= s
    ensures AllHex(p)
    ensures |p| < |s| ==> !IsHexDigit(s[|p|])
  {
    if |s| == 0 || !IsHexDigit(s[0]) then "" else [s[0]] + HexPrefix(s[1..])
  }

  /** The number a string of hexadecimal digits denotes, most significant
      digit first. */
  function HexValue(digits: string): (v: nat)
    requires AllHex(digits)
    ensures v < Pow16(|digits|)
  {
    if |digits| == 0 then 0
    else HexValue(digits[..|digits| - 1]) * 16 + DigitValue(digits[|digits| - 1]).value
  }

  /** `Scanner.scanHexInt32`, taken as: read the longest prefix of hex digits,
      and fail when there is none. */
  function ScanHexInt32(s: string): (v: Option<nat>)
    ensures v.Some? <==> |s| > 0 && IsHexDigit(s[0])
    ensures v.Some? ==> v.value < Pow16(|HexPrefix(s)|)
  {
    var digits := HexPrefix(s);
    if |digits| == 0 then None else Some(HexValue(digits))
  }

  // ---------------------------------------------------------------------------
  // init(hex:)
  // ---------------------------------------------------------------------------

  /** Drops one leading "#", if there is one. */
  function StripHash(s: string): (body: string)
    ensures |body| <= |s| && |s| - |body| <= 1 && body == s[|s| - |body|..]
    ensures |body| < |s| <==> |s| > 0 && s[0] == '#'
  {
    if |s| > 0 && s[0] == '#' then s[1..] else s
  }

  /** `(v & (0xFF << 8k)) >> 8k`: byte `k` of `v`, counting from the least
      significant. */
  function ByteAt(v: nat, k: nat): Byte {
    if k == 0 then v % 256 else ByteAt(v / 256, k - 1)
  }

  /** The channel bytes `init(hex:)` reads. An 8-character body is RRGGBBAA,
      a 6-character body is RRGGBB with alpha left at 255; the length test is
      on the whole body, not on the digits the scanner consumed. */
  function DecodeBytes(hex: string): (c: RgbaBytes)
    ensures ScanHexInt32(StripHash(hex)).None? ==> c == OpaqueBlack
    ensures |StripHash(hex)| != 6 && |StripHash(hex)| != 8 ==> c == OpaqueBlack
    ensures |StripHash(hex)| != 8 ==> c.alpha == 255
  {
    var body := StripHash(hex);
    match ScanHexInt32(body)
    case None => OpaqueBlack
    case Some(v) =>
      if |body| == 8 then RgbaBytes(ByteAt(v, 3), ByteAt(v, 2), ByteAt(v, 1), ByteAt(v, 0))
      else if |body| == 6 then RgbaBytes(ByteAt(v, 2), ByteAt(v, 1), ByteAt(v, 0), 255)
      else OpaqueBlack
  }

  function Unit(b: Byte): (x: real)
    ensures 0.0 <= x <= 1.0
  {
    b as real / 255.0
  }

  /** `UIColor(hex:)`: the components passed to `UIColor(red:green:blue:alpha:)`,
      each a byte over 255. */
  function Decode(hex: string): (c: Rgba)
    ensures 0.0 <= c.red <= 1.0 && 0.0 <= c.green <= 1.0 && 0.0 <= c.blue <= 1.0
    ensures 0.0 <= c.alpha <= 1.0
    ensures |StripHash(hex)| != 8 ==> c.alpha == 1.0
    ensures ScanHexInt32(StripHash(hex)).None? ==> c == Rgba(0.0, 0.0, 0.0, 1.0)
    ensures |StripHash(hex)| != 6 && |StripHash(hex)| != 8 ==> c == Rgba(0.0, 0.0, 0.0, 1.0)
  {
    var b := DecodeBytes(hex);
    Rgba(Unit(b.red), Unit(b.green), Unit(b.blue), Unit(b.alpha))
  }

  // ---------------------------------------------------------------------------
  // Encoding, the partner of decoding
  // ---------------------------------------------------------------------------

  function Digit(d: nat): (c: char)
    requires d < 16
    ensures DigitValue(c) == Some(d)
  {
    "0123456789ABCDEF"[d]
  }

  /** Two hex digits for one byte. */
  function Hex2(b: Byte): (s: string)
    ensures |s| == 2 && AllHex(s)
    ensures HexValue(s) == b
  {
    var s := [Digit(b / 16), Digit(b % 16)];
    assert s[..1] == [Digit(b / 16)];
    s
  }

  /** "RRGGBB" or "RRGGBBAA", optionally behind a "#". */
  function EncodeHex(c: RgbaBytes, withAlpha: bool, withHash: bool): (s: string)
    ensures |s| == (if withAlpha then 8 else 6) + (if withHash then 1 else 0)
    ensures withHash <==> |s| > 0 && s[0] == '#'
    ensures AllHex(s[(if withHash then 1 else 0)..])
  {
    var digits := Hex2(c.red) + Hex2(c.green) + Hex2(c.blue) + (if withAlpha then Hex2(c.alpha) else "");
    assert AllHex(digits);
    assert !withHash ==> !IsHexDigit('#') && IsHexDigit(digits[0]);
    var s := (if withHash then "#" else "") + digits;
    assert s[(if withHash then 1 else 0)..] == digits;
    s
  }

  // ---------------------------------------------------------------------------
  // Properties of the decoder
  // ---------------------------------------------------------------------------

  lemma {:induction false} Pow16Monotone(m: nat, n: nat)
    requires m <= n
    ensures Pow16(m) <= Pow16(n)
  {
    if m < n {
      Pow16Monotone(m, n - 1);
    }
  }

  /** A body of at most eight characters scans to a value that fits the
      scanner's 32-bit result, so the overflow behaviour of
      `scanHexInt32` never reaches a colour. */
  lemma ScanFitsUInt32(s: string)
    requires |s| <= 8
    ensures ScanHexInt32(s).Some? ==> ScanHexInt32(s).value < 0x1_0000_0000
  {
    Pow16Monotone(|HexPrefix(s)|, 8);
    assert Pow16(8) == 0x1_0000_0000;
  }

  /** When every character is a hex digit, the scanner consumes all of them. */
  lemma {:induction false} HexPrefixOfAllHex(s: string)
    requires AllHex(s)
    ensures HexPrefix(s) == s
  {
    if |s| > 0 {
      assert AllHex(s[1..]) by {
        forall i | 0 <= i < |s[1..]| ensures IsHexDigit(s[1..][i]) {
          assert s[1..][i] == s[i + 1];
        }
      }
      HexPrefixOfAllHex(s[1..]);
      assert s == [s[0]] + s[1..];
    }
  }

  /** Digits written after a number shift it left by four bits each. */
  lemma {:induction false} HexValueAppend(s: string, t: string)
    requires AllHex(s) && AllHex(t)
    ensures AllHex(s + t)
    ensures HexValue(s + t) == HexValue(s) * Pow16(|t|) + HexValue(t)
  {
    assert AllHex(s + t) by {
      forall i | 0 <= i < |s + t| ensures IsHexDigit((s + t)[i]) {
        if i < |s| { assert (s + t)[i] == s[i]; } else { assert (s + t)[i] == t[i - |s|]; }
      }
    }
    if |t| > 0 {
      var t' := t[..|t| - 1];
      assert AllHex(t') by {
        forall i | 0 <= i < |t'| ensures IsHexDigit(t'[i]) { assert t'[i] == t[i]; }
      }
      HexValueAppend(s, t');
      assert (s + t)[..|s + t| - 1] == s + t';
      assert (s + t)[|s + t| - 1] == t[|t| - 1];
      var d := DigitValue(t[|t| - 1]).value;
      assert HexValue(s + t) == HexValue(s + t') * 16 + d;
      assert HexValue(t) == HexValue(t') * 16 + d;
      assert Pow16(|t|) == Pow16(|t'|) * 16;
      ShiftDigit(HexValue(s), Pow16(|t'|), HexValue(t'), d);
    } else {
      assert s + t == s;
    }
  }

  lemma ShiftDigit(a: int, p: int, b: int, d: int)
    ensures (a * p + b) * 16 + d == a * (p * 16) + (b * 16 + d)
  {
  }

  lemma ByteAtShift(q: nat, x: Byte, k: nat)
    ensures ByteAt(q * 256 + x, 0) == x
    ensures ByteAt(q * 256 + x, k + 1) == ByteAt(q, k)
  {
    assert (q * 256 + x) / 256 == q;
  }

  /** The value of the digits of channels r, g, b (and a). */
  lemma EncodedValue(c: RgbaBytes, withAlpha: bool)
    ensures var digits := Hex2(c.red) + Hex2(c.green) + Hex2(c.blue) + (if withAlpha then Hex2(c.alpha) else "");
            AllHex(digits) &&
            HexValue(digits) == if withAlpha then ((c.red * 256 + c.green) * 256 + c.blue) * 256 + c.alpha
                                else (c.red * 256 + c.green) * 256 + c.blue
  {
    assert Pow16(2) == 256;
    var rg := Hex2(c.red) + Hex2(c.green);
    HexValueAppend(Hex2(c.red), Hex2(c.green));
    var rgb := rg + Hex2(c.blue);
    HexValueAppend(rg, Hex2(c.blue));
    if withAlpha {
      HexValueAppend(rgb, Hex2(c.alpha));
    } else {
      assert rgb + "" == rgb;
    }
  }

  /** Bytes 3 to 0 of a value packed as RRGGBBAA, and bytes 2 to 0 of one
      packed as RRGGBB, are its channels. */
  lemma UnpackBytes(r: Byte, g: Byte, b: Byte, a: Byte)
    ensures var v := ((r * 256 + g) * 256 + b) * 256 + a;
            ByteAt(v, 3) == r && ByteAt(v, 2) == g && ByteAt(v, 1) == b && ByteAt(v, 0) == a
    ensures var v := (r * 256 + g) * 256 + b;
            ByteAt(v, 2) == r && ByteAt(v, 1) == g && ByteAt(v, 0) == b
  {
    var rgb := (r * 256 + g) * 256 + b;
    var rg := r * 256 + g;
    ByteAtShift(rgb, a, 0);
    ByteAtShift(rgb, a, 1);
    ByteAtShift(rgb, a, 2);
    ByteAtShift(rg, b, 0);
    ByteAtShift(rg, b, 1);
    ByteAtShift(r, g, 0);
    ByteAtShift(0, r, 0);
    assert r == 0 * 256 + r;
  }

  /** Round trip: writing the channels as two hex digits each, with or
      without alpha and with or without a leading "#", and decoding gives
      back exactly those channels; without alpha the decoder supplies 255. */
  lemma DecodeEncode(c: RgbaBytes, withAlpha: bool, withHash: bool)
    ensures DecodeBytes(EncodeHex(c, withAlpha, withHash)) == if withAlpha then c else c.(alpha := 255)
  {
    var digits := Hex2(c.red) + Hex2(c.green) + Hex2(c.blue) + (if withAlpha then Hex2(c.alpha) else "");
    EncodedValue(c, withAlpha);
    EncodedBody(c, withAlpha, withHash);
    HexPrefixOfAllHex(digits);
    DecodeDigits(c, withAlpha, digits);
  }

  /** Stripping the optional "#" of an encoding leaves its digits. */
  lemma EncodedBody(c: RgbaBytes, withAlpha: bool, withHash: bool)
    ensures StripHash(EncodeHex(c, withAlpha, withHash))
            == Hex2(c.red) + Hex2(c.green) + Hex2(c.blue) + (if withAlpha then Hex2(c.alpha) else "")
  {
    var digits := Hex2(c.red) + Hex2(c.green) + Hex2(c.blue) + (if withAlpha then Hex2(c.alpha) else "");
    var s := EncodeHex(c, withAlpha, withHash);
    assert IsHexDigit(digits[0]);
    if withHash { assert s == "#" + digits; } else { assert s == digits; }
  }

  lemma DecodeDigits(c: RgbaBytes, withAlpha: bool, digits: string)
    requires AllHex(digits) && HexPrefix(digits) == digits
    requires |digits| == if withAlpha then 8 else 6
    requires HexValue(digits) == if withAlpha then ((c.red * 256 + c.green) * 256 + c.blue) * 256 + c.alpha
                                 else (c.red * 256 + c.green) * 256 + c.blue
    ensures DecodeBytes(digits) == if withAlpha then c else c.(alpha := 255)
  {
    assert StripHash(digits) == digits by { assert IsHexDigit(digits[0]); }
    var v := HexValue(digits);
    assert ScanHexInt32(digits) == Some(v);
    UnpackBytes(c.red, c.green, c.blue, c.alpha);
  }

  /** The same round trip on the colour components handed to UIKit. */
  lemma DecodeEncodeComponents(c: RgbaBytes, withAlpha: bool, withHash: bool)
    ensures Decode(EncodeHex(c, withAlpha, withHash))
            == Rgba(c.red as real / 255.0, c.green as real / 255.0, c.blue as real / 255.0,
                    if withAlpha then c.alpha as real / 255.0 else 1.0)
  {
    DecodeEncode(c, withAlpha, withHash);
    ComponentsOfBytes(EncodeHex(c, withAlpha, withHash), c, withAlpha);
  }

  lemma ComponentsOfBytes(hex: string, c: RgbaBytes, withAlpha: bool)
    requires DecodeBytes(hex) == if withAlpha then c else c.(alpha := 255)
    ensures Decode(hex) == Rgba(c.red as real / 255.0, c.green as real / 255.0, c.blue as real / 255.0,
                                if withAlpha then c.alpha as real / 255.0 else 1.0)
  {
  }

  /** Exactly one leading "#" is optional: it does not change the colour of
      a body that does not itself start with "#". */
  lemma HashIsOptional(body: string)
    requires |body| == 0 || body[0] != '#'
    ensures DecodeBytes("#" + body) == DecodeBytes(body)
  {
    assert StripHash("#" + body) == body;
  }

  /** A second "#" is not stripped: the scanner then meets a non-digit
      first and the colour is opaque black. */
  lemma TwoHashesIsBlack(rest: string)
    ensures DecodeBytes("##" + rest) == OpaqueBlack
  {
    assert StripHash("##" + rest) == "#" + rest;
    assert !IsHexDigit('#');
  }

  /** The length test counts the whole body: "12zz56" has six characters,
      the scanner stops after "12", and that value becomes the blue byte. */
  lemma LengthCountsWholeBody()
    ensures DecodeBytes("12zz56") == RgbaBytes(0, 0, 0x12, 255)
  {
    assert HexPrefix("zz56") == "";
    assert HexPrefix("2zz56") == "2";
    assert HexPrefix("12zz56") == "12";
    assert HexValue("1") == 1;
    assert HexValue("12") == 0x12;
  }

  // ---------------------------------------------------------------------------
  // Letter case
  // ---------------------------------------------------------------------------

  /** 'a' to 'f' written as 'A' to 'F'; every other character unchanged. */
  function UpperDigit(c: char): (u: char)
    ensures DigitValue(u) == DigitValue(c)
    ensures u == '#' <==> c == '#'
  {
    if 'a' <= c <= 'f' then (c as int - 32) as char else c
  }

  function UpperHex(s: string): (t: string)
    ensures |t| == |s| && forall i :: 0 <= i < |s| ==> t[i] == UpperDigit(s[i])
  {
    seq(|s|, i requires 0 <= i < |s| => UpperDigit(s[i]))
  }

  lemma UpperHexCons(c: char, s: string)
    ensures UpperHex([c] + s) == [UpperDigit(c)] + UpperHex(s)
  {
  }

  lemma {:induction false} HexPrefixUpper(s: string)
    ensures HexPrefix(UpperHex(s)) == UpperHex(HexPrefix(s))
    decreases |s|
  {
    var t := UpperHex(s);
    if |s| == 0 || !IsHexDigit(s[0]) {
      assert HexPrefix(s) == [];
      assert HexPrefix(t) == [];
    } else {
      assert IsHexDigit(t[0]);
      assert t[1..] == UpperHex(s[1..]);
      assert HexPrefix(t) == [t[0]] + HexPrefix(UpperHex(s[1..]));
      HexPrefixUpper(s[1..]);
      assert HexPrefix(s) == [s[0]] + HexPrefix(s[1..]);
      UpperHexCons(s[0], HexPrefix(s[1..]));
    }
  }

  lemma {:induction false} HexValueUpper(digits: string)
    requires AllHex(digits)
    ensures AllHex(UpperHex(digits)) && HexValue(UpperHex(digits)) == HexValue(digits)
    decreases |digits|
  {
    if |digits| > 0 {
      var init := digits[..|digits| - 1];
      assert AllHex(init) by {
        forall i | 0 <= i < |init| ensures IsHexDigit(init[i]) { assert init[i] == digits[i]; }
      }
      HexValueUpper(init);
      assert UpperHex(digits)[..|digits| - 1] == UpperHex(init);
    }
  }

  /** The case of the letter digits does not matter: "#ff8800" and
      "#FF8800" are the same colour, and so is any mix of cases. */
  lemma DecodeIgnoresCase(hex: string)
    ensures DecodeBytes(UpperHex(hex)) == DecodeBytes(hex)
  {
    var body := StripHash(hex);
    assert StripHash(UpperHex(hex)) == UpperHex(body) by {
      if |hex| > 0 && hex[0] == '#' {
        assert UpperHex(hex)[1..] == UpperHex(hex[1..]);
      }
    }
    HexPrefixUpper(body);
    HexValueUpper(HexPrefix(body));
  }
}

