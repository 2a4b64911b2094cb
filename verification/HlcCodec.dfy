/** The sortable text form of a stamp (src/hlc.rs:46-78): twelve lowercase hex digits of wall
    time, a dash, four of counter. A text is the sequence of its bytes. */
module HlcCodec {
  import opened Wrappers
  import opened Hlc

  // ------------------------------------------------------------------ hexadecimal

  const DIGITS := "0123456789abcdef"

  function Digit(d: nat): char
    requires d < 16
  {
    DIGITS[d]
  }

  predicate IsHex(c: char) {
    '0' <= c <= '9' || 'a' <= c <= 'f'
  }

  predicate LowerHex(text: string) {
    forall i :: 0 <= i < |text| ==> IsHex(text[i])
  }

  function HexValue(c: char): nat
    requires IsHex(c)
  {
    if c <= '9' then c as nat - '0' as nat else c as nat - 'a' as nat + 10
  }

  lemma DigitIsHex(d: nat)
    requires d < 16
    ensures IsHex(Digit(d)) && HexValue(Digit(d)) == d
  {
  }

  lemma HexIsDigit(c: char)
    requires IsHex(c)
    ensures HexValue(c) < 16 && Digit(HexValue(c)) == c
  {
  }

  /** `{:x}`: as many digits as the number needs, at least one. */
  function Hex(n: nat): string {
    (if n < 16 then "" else Hex(n / 16)) + [Digit(n % 16)]
  }

  /** `{:0width$x}`: zeros on the left up to the width, longer numbers unharmed. */
  function PadLeft(text: string, width: nat): string
    decreases width - |text|
  {
    if |text| < width then PadLeft("0" + text, width) else text
  }

  /** `from_str_radix(text, 16)`. */
  function ParseHex(text: string): nat
    requires LowerHex(text)
  {
    if text == "" then 0 else ParseHex(text[..|text| - 1]) * 16 + HexValue(text[|text| - 1])
  }

  function Power16(width: nat): nat {
    if width == 0 then 1 else 16 * Power16(width - 1)
  }

  /** Exactly `width` digits, the lowest ones of the number. */
  function Fixed(n: nat, width: nat): (text: string)
    ensures |text| == width && LowerHex(text)
  {
    if width == 0 then ""
    else
      DigitIsHex(n % 16);
      Fixed(n / 16, width - 1) + [Digit(n % 16)]
  }

  lemma {:induction false} PaddedZeros(text: string, width: nat)
    ensures PadLeft(text, |text| + width) == Fixed(0, width) + text
    decreases width
  {
    if width > 0 {
      PaddedZeros("0" + text, width - 1);
      ZerosFirst(width - 1);
      assert Fixed(0, width - 1) + ("0" + text) == Fixed(0, width) + text;
    }
  }

  lemma {:induction false} ZerosFirst(width: nat)
    ensures Fixed(0, width + 1) == Fixed(0, width) + "0"
  {
  }

  lemma {:induction false} PadAppend(text: string, width: nat, c: char)
    ensures PadLeft(text + [c], width + 1) == PadLeft(text, width) + [c]
    decreases width - |text|
  {
    if |text| < width {
      PadAppend("0" + text, width, c);
      assert "0" + (text + [c]) == ("0" + text) + [c];
    }
  }

  /** A number that fits is formatted to exactly the width. */
  lemma {:induction false} PaddedIsFixed(n: nat, width: nat)
    requires 0 < width && n < Power16(width)
    ensures PadLeft(Hex(n), width) == Fixed(n, width)
  {
    if n < 16 {
      OneDigit(n, width);
    } else {
      LastDigit(n, width);
      PaddedIsFixed(n / 16, width - 1);
      PadAppend(Hex(n / 16), width - 1, Digit(n % 16));
    }
  }

  lemma {:induction false} OneDigit(n: nat, width: nat)
    requires 0 < width && n < 16
    ensures PadLeft(Hex(n), width) == Fixed(n, width)
  {
    assert Hex(n) == [Digit(n)];
    PaddedZeros([Digit(n)], width - 1);
    assert Fixed(n, width) == Fixed(0, width - 1) + [Digit(n)];
  }

  lemma {:induction false} LastDigit(n: nat, width: nat)
    requires 0 < width && 16 <= n < Power16(width)
    ensures 1 < width && n / 16 < Power16(width - 1)
    ensures Hex(n) == Hex(n / 16) + [Digit(n % 16)]
    ensures Fixed(n, width) == Fixed(n / 16, width - 1) + [Digit(n % 16)]
  {
    assert Power16(width) == 16 * Power16(width - 1);
  }

  lemma {:induction false} ParseFixed(n: nat, width: nat)
    requires n < Power16(width)
    ensures ParseHex(Fixed(n, width)) == n
  {
    if width > 0 {
      ParseFixed(n / 16, width - 1);
      DigitIsHex(n % 16);
      assert Fixed(n, width)[..width - 1] == Fixed(n / 16, width - 1);
    }
  }

  lemma {:induction false} FixedParse(text: string)
    requires LowerHex(text)
    ensures ParseHex(text) < Power16(|text|) && Fixed(ParseHex(text), |text|) == text
  {
    if text != "" {
      var last := |text| - 1;
      FixedParse(text[..last]);
      HexIsDigit(text[last]);
      assert ParseHex(text) / 16 == ParseHex(text[..last]) && ParseHex(text) % 16 == HexValue(text[last]);
      assert text == text[..last] + [text[last]];
    }
  }

  // -------------------------------------------------------------------- the codec

  function Encode(s: Stamp): string {
    PadLeft(Hex(ClampWall(s.wallMs)), 12) + "-" + PadLeft(Hex(s.counter % 0x1_0000), 4)
  }

  /** `split_once('-')`: the position of the first dash. */
  function FirstDash(text: string): (at: Option<nat>)
    ensures at.Some? ==> at.value < |text| && text[at.value] == '-' && '-' !in text[..at.value]
    ensures at.None? ==> '-' !in text
  {
    if text == "" then None
    else if text[0] == '-' then Some(0)
    else
      var rest := FirstDash(text[1..]);
      if rest.None? then None
      else
        assert text[..rest.value + 1] == [text[0]] + text[1..][..rest.value];
        Some(rest.value + 1)
  }

  function Decode(text: string): Option<Stamp> {
    var dash := FirstDash(text);
    if dash.None? then None
    else
      var wallHex, counterHex := text[..dash.value], text[dash.value + 1..];
      if |wallHex| != 12 || |counterHex| != 4 then None
      else if !LowerHex(wallHex) || !LowerHex(counterHex) then None
      else
        FitsWidth(wallHex, counterHex);
        Some(Stamp(ParseHex(wallHex), ParseHex(counterHex)))
  }

  lemma {:induction false} FitsWidth(wallHex: string, counterHex: string)
    requires |wallHex| == 12 && |counterHex| == 4 && LowerHex(wallHex) && LowerHex(counterHex)
    ensures ParseHex(wallHex) <= HLC_MAX_WALL_MS && ParseHex(counterHex) <= HLC_MAX_COUNTER
  {
    FixedParse(wallHex);
    FixedParse(counterHex);
    Widths();
  }

  lemma Widths()
    ensures Power16(12) == HLC_MAX_WALL_MS + 1 && Power16(4) == HLC_MAX_COUNTER + 1
  {
    assert Power16(4) == 0x1_0000;
    assert Power16(8) == 0x1_0000_0000;
  }

  /** The canonical texts: twelve digits, a dash, four digits. */
  predicate Canonical(text: string) {
    |text| == 17 && text[12] == '-' && LowerHex(text[..12]) && LowerHex(text[13..])
  }

  lemma PaddedHex(n: nat, width: nat) returns (text: string)
    requires 0 < width && n < Power16(width)
    ensures text == PadLeft(Hex(n), width) && |text| == width && LowerHex(text) && ParseHex(text) == n
  {
    text := Fixed(n, width);
    PaddedIsFixed(n, width);
    ParseFixed(n, width);
  }

  /** What encoding writes: the nearest in-range wall time and the counter's low bits. */
  lemma EncodedParts(s: Stamp) returns (wall: string, counter: string)
    ensures |wall| == 12 && |counter| == 4 && LowerHex(wall) && LowerHex(counter)
    ensures Encode(s) == wall + "-" + counter
    ensures ParseHex(wall) == ClampWall(s.wallMs) && ParseHex(counter) == s.counter % 0x1_0000
  {
    Widths();
    wall := PaddedHex(ClampWall(s.wallMs), 12);
    counter := PaddedHex(s.counter % 0x1_0000, 4);
  }

  /** Exactly the canonical texts are accepted. */
  lemma AcceptsCanonical(text: string)
    ensures Decode(text).Some? <==> Canonical(text)
    ensures Canonical(text) ==> Decode(text) == Some(Stamp(ParseHex(text[..12]), ParseHex(text[13..])))
  {
    var dash := FirstDash(text);
    if Canonical(text) {
      forall i | 0 <= i < 12 ensures text[i] != '-' {
        assert IsHex(text[..12][i]);
      }
      assert dash.Some? && dash.value == 12;
    }
  }

  lemma {:induction false} DecodeParts(wall: string, counter: string)
    requires |wall| == 12 && |counter| == 4 && LowerHex(wall) && LowerHex(counter)
    ensures ParseHex(wall) <= HLC_MAX_WALL_MS && ParseHex(counter) <= HLC_MAX_COUNTER
    ensures Decode(wall + "-" + counter) == Some(Stamp(ParseHex(wall), ParseHex(counter)))
  {
    FitsWidth(wall, counter);
    var text := wall + "-" + counter;
    assert text[..12] == wall && text[13..] == counter;
    AcceptsCanonical(text);
  }

  /** Decoding inverts encoding; out-of-range stamps come back moved into range. */
  lemma DecodeEncode(s: Stamp)
    ensures Decode(Encode(s)) == Some(Stamp(ClampWall(s.wallMs), s.counter % 0x1_0000))
    ensures InRange(s) ==> Decode(Encode(s)) == Some(s)
  {
    var wall, counter := EncodedParts(s);
    DecodeParts(wall, counter);
  }

  lemma {:induction false} EncodeParts(wall: string, counter: string)
    requires |wall| == 12 && |counter| == 4 && LowerHex(wall) && LowerHex(counter)
    ensures ParseHex(wall) <= HLC_MAX_WALL_MS && ParseHex(counter) <= HLC_MAX_COUNTER
    ensures Encode(Stamp(ParseHex(wall), ParseHex(counter))) == wall + "-" + counter
  {
    FitsWidth(wall, counter);
    var wall', counter' := EncodedParts(Stamp(ParseHex(wall), ParseHex(counter)));
    SameDigits(wall, wall');
    SameDigits(counter, counter');
  }

  /** Digits of equal number and equal value are the same. */
  lemma {:induction false} SameDigits(x: string, y: string)
    requires |x| == |y| && LowerHex(x) && LowerHex(y) && ParseHex(x) == ParseHex(y)
    ensures x == y
  {
    FixedParse(x);
    FixedParse(y);
  }

  /** Encoding inverts decoding: no stamp has two accepted texts. */
  lemma EncodeDecode(text: string)
    requires Decode(text).Some?
    ensures InRange(Decode(text).value) && Encode(Decode(text).value) == text
  {
    AcceptsCanonical(text);
    EncodeParts(text[..12], text[13..]);
    assert text == text[..12] + "-" + text[13..];
  }

  // -------------------------------------------------------------------- the order

  /** Lexicographic order of texts. */
  predicate TextBefore(a: string, b: string) {
    if b == "" then false
    else if a == "" then true
    else a[0] < b[0] || (a[0] == b[0] && TextBefore(a[1..], b[1..]))
  }

  /** Texts compare by their first parts, and by their last parts when those are equal. */
  lemma {:induction false} SplitOrder(x: string, y: string, a: string, b: string)
    requires |x| == |y|
    ensures TextBefore(x + a, y + b) <==> TextBefore(x, y) || (x == y && TextBefore(a, b))
    decreases |x|
  {
    if x == "" {
      assert x + a == a && y + b == b;
    } else {
      SplitOrder(x[1..], y[1..], a, b);
      assert (x + a)[1..] == x[1..] + a && (y + b)[1..] == y[1..] + b;
      assert x == [x[0]] + x[1..] && y == [y[0]] + y[1..];
    }
  }

  /** Digits of equal number compare as their values do. */
  lemma {:induction false} DigitsOrder(x: string, y: string)
    requires |x| == |y| && LowerHex(x) && LowerHex(y)
    ensures TextBefore(x, y) <==> ParseHex(x) < ParseHex(y)
    decreases |x|
  {
    if x != "" {
      var last := |x| - 1;
      var c, d := x[last], y[last];
      DigitsOrder(x[..last], y[..last]);
      SplitOrder(x[..last], y[..last], [c], [d]);
      HexRises(c, d);
      if ParseHex(x[..last]) == ParseHex(y[..last]) {
        SameDigits(x[..last], y[..last]);
      }
      assert x == x[..last] + [c] && y == y[..last] + [d];
    }
  }

  lemma HexRises(c: char, d: char)
    requires IsHex(c) && IsHex(d)
    ensures c < d <==> HexValue(c) < HexValue(d)
    ensures c == d <==> HexValue(c) == HexValue(d)
    ensures HexValue(c) < 16 && HexValue(d) < 16
  {
  }

  /** Accepted texts sort as the stamps they stand for. */
  lemma {:induction false} AcceptedOrder(t: string, u: string)
    requires Decode(t).Some? && Decode(u).Some?
    ensures TextBefore(t, u) <==> Before(Decode(t).value, Decode(u).value)
  {
    AcceptsCanonical(t);
    AcceptsCanonical(u);
    var x, y, a, b := t[..12], u[..12], t[13..], u[13..];
    assert t == x + (['-'] + a) && u == y + (['-'] + b);
    SplitOrder(x, y, ['-'] + a, ['-'] + b);
    SplitOrder(['-'], ['-'], a, b);
    DigitsOrder(x, y);
    DigitsOrder(a, b);
    if ParseHex(x) == ParseHex(y) {
      SameDigits(x, y);
    }
  }

  /** Sorting the encodings sorts the stamps. */
  lemma EncodingKeepsOrder(s: Stamp, t: Stamp)
    requires InRange(s) && InRange(t)
    ensures TextBefore(Encode(s), Encode(t)) <==> Before(s, t)
  {
    DecodeEncode(s);
    DecodeEncode(t);
    AcceptedOrder(Encode(s), Encode(t));
  }

  /** So the texts of a run of the clock come out sorted, as long as it is not saturated. */
  lemma {:induction false} RunIsSorted(s: Stamp, events: seq<Event>, i: nat, j: nat)
    requires InRange(s) && i < j < |Stamps(s, events)|
    ensures var stamps := Stamps(s, events);
            TextBefore(Encode(stamps[i]), Encode(stamps[j])) <==> Count(stamps[i]) != TOP
  {
    StampIsReach(s, events, i);
    StampIsReach(s, events, j);
    StampsRise(s, events, i, j);
    EncodingKeepsOrder(Stamps(s, events)[i], Stamps(s, events)[j]);
  }
}
