/**
 * Role palette and the 24-bit hex colour arithmetic of `lightenColor`
 * (assets/js/taxonomy.js:6-25).
 *
 * The decoder reads the digits after the first character as ONE base-16
 * number (`parseInt(color.slice(1), 16)`), splits it into three channels with
 * the 32-bit shift and mask operators, adds the same amount to each channel,
 * clamps, and re-encodes through `0x1000000 + ...` so that `toString(16)`
 * always yields seven digits, of which the leading `1` is cut off.
 */
module Colors {
  import opened Wrappers

  /** `roleColors[role]`: the palette entry of a role name, if it is one of the three. */
  function Palette(role: Option<string>): (c: Option<string>)
    ensures c.Some? <==> role in {Some("protagonist"), Some("antagonist"), Some("innocent")}
  {
    if role == Some("protagonist") then Some("#1f77b4")
    else if role == Some("antagonist") then Some("#d62728")
    else if role == Some("innocent") then Some("#2ca02c")
    else None
  }

  /** `roleColors[role] || fallback`. */
  function PaletteOr(role: Option<string>, fallback: string): string
  {
    match Palette(role)
    case Some(c) => c
    case None => fallback
  }

  // ---------------------------------------------------------------------------
  // Hex digits

  predicate IsHexDigit(c: char)
  {
    '0' <= c <= '9' || 'a' <= c <= 'f' || 'A' <= c <= 'F'
  }

  predicate IsLowerHexDigit(c: char)
  {
    '0' <= c <= '9' || 'a' <= c <= 'f'
  }

  predicate AllHex(s: string)
  {
    forall i :: 0 <= i < |s| ==> IsHexDigit(s[i])
  }

  predicate AllLowerHex(s: string)
  {
    forall i :: 0 <= i < |s| ==> IsLowerHexDigit(s[i])
  }

  /** Value of one hex digit, either case. */
  function DigitValue(c: char): (v: nat)
    requires IsHexDigit(c)
    ensures v < 16
  {
    if '0' <= c <= '9' then c as int - '0' as int
    else if 'a' <= c <= 'f' then c as int - 'a' as int + 10
    else c as int - 'A' as int + 10
  }

  /** The lower-case digit `toString(16)` writes for a value below 16. */
  function DigitChar(v: nat): (c: char)
    requires v < 16
    ensures IsLowerHexDigit(c) && DigitValue(c) == v
  {
    if v < 10 then ('0' as int + v) as char else ('a' as int + v - 10) as char
  }

  lemma DigitCharOfValue(c: char)
    requires IsLowerHexDigit(c)
    ensures DigitChar(DigitValue(c)) == c
  {
  }

  /** Value of a string of hex digits, most significant first. */
  function HexValue(s: string): nat
    requires AllHex(s)
  {
    if s == [] then 0 else HexValue(s[..|s| - 1]) * 16 + DigitValue(s[|s| - 1])
  }

  /** Length of the leading run of hex digits, where `parseInt` stops reading. */
  function HexRun(s: string): (k: nat)
    ensures k <= |s| && AllHex(s[..k])
    ensures k < |s| ==> !IsHexDigit(s[k])
  {
    if s == [] || !IsHexDigit(s[0]) then 0
    else
      var k := 1 + HexRun(s[1..]);
      assert s[..k] == [s[0]] + s[1..][..k - 1];
      k
  }

  /**
   * `parseInt(s, 16)` on a string that starts with its digits: the value of the
   * leading run of hex digits, or None (NaN) when there is none.
   */
  function ParseInt16(s: string): (r: Option<nat>)
    ensures r.None? <==> (s == [] || !IsHexDigit(s[0]))
  {
    var k := HexRun(s);
    if k == 0 then None else Some(HexValue(s[..k]))
  }

  lemma {:induction false} HexRunAll(s: string)
    requires AllHex(s)
    ensures HexRun(s) == |s|
  {
    if s != [] {
      assert AllHex(s[1..]);
      HexRunAll(s[1..]);
    }
  }

  /** A string made only of hex digits is read whole. */
  lemma ParseAllHex(s: string)
    requires s != [] && AllHex(s)
    ensures ParseInt16(s) == Some(HexValue(s))
  {
    HexRunAll(s);
    assert s[..|s|] == s;
  }

  // ---------------------------------------------------------------------------
  // 32-bit operator semantics

  /** ECMAScript ToInt32: the signed 32-bit integer congruent to `n` modulo 2^32. */
  function ToInt32(n: int): (r: int)
    ensures -0x8000_0000 <= r < 0x8000_0000
    ensures (n - r) % 0x1_0000_0000 == 0
  {
    var m := n % 0x1_0000_0000;
    if m < 0x8000_0000 then m else m - 0x1_0000_0000
  }

  /** The operand `>>` and `&` see for a parsed number; NaN converts to 0. */
  function BitOperand(num: Option<nat>): (w: int)
    ensures num.None? ==> w == 0
    ensures num.Some? && num.value < 0x8000_0000 ==> w == num.value
  {
    match num
    case None => 0
    case Some(v) => ToInt32(v)
  }

  datatype Rgb = Rgb(r: int, g: int, b: int)

  /**
   * `num >> 16`, `num >> 8 & 0x00FF` and `num & 0x0000FF`: `>>` shifts the
   * signed 32-bit operand arithmetically (floor division by a power of two)
   * and `& 0xFF` keeps the low eight bits (Euclidean remainder by 256).
   */
  function Channels(num: Option<nat>): Rgb
  {
    Split(BitOperand(num))
  }

  /** `w >> 16`, `w >> 8 & 0xFF`, `w & 0xFF` on a 32-bit operand `w`; the first is not masked. */
  function Split(w: int): Rgb
  {
    Rgb(w / 0x10000, (w / 0x100) % 0x100, w % 0x100)
  }

  /** The decoder half of `lightenColor`: `color.slice(1)` parsed and split. */
  function Decode(color: string): Rgb
  {
    Channels(ParseInt16(if |color| >= 1 then color[1..] else ""))
  }

  /** `R<255?R<1?0:R:255`: clamp to the byte range. */
  function Clamp(v: int): (r: int)
    ensures 0 <= r <= 255
    ensures 0 <= v <= 255 ==> r == v
    ensures v < 0 ==> r == 0
    ensures v > 255 ==> r == 255
  {
    if v < 255 then (if v < 1 then 0 else v) else 255
  }

  // ---------------------------------------------------------------------------
  // Encoding

  function Pow16(w: nat): (p: nat)
    ensures p >= 1
  {
    if w == 0 then 1 else 16 * Pow16(w - 1)
  }

  /** `Number.prototype.toString(16)` on a non-negative integer. */
  function ToHex(n: nat): (s: string)
    ensures |s| >= 1
  {
    if n < 16 then [DigitChar(n)] else ToHex(n / 16) + [DigitChar(n % 16)]
  }

  /** `toString(16)` writes lower-case digits without a leading zero, and they read back as the number. */
  lemma {:induction false} ToHexSpec(n: nat)
    ensures var s := ToHex(n);
      && AllLowerHex(s) && AllHex(s)
      && HexValue(s) == n
      && (|s| > 1 ==> s[0] != '0')
  {
    if n >= 16 {
      ToHexSpec(n / 16);
      var s, t := ToHex(n), ToHex(n / 16);
      assert s == t + [DigitChar(n % 16)];
      assert s[..|s| - 1] == t;
      assert s[0] == t[0];
    }
  }

  /** The low `w` hex digits of `v`, zero-padded. */
  function HexFixed(v: nat, w: nat): (s: string)
    ensures |s| == w && AllLowerHex(s) && AllHex(s)
  {
    if w == 0 then [] else HexFixed(v / 16, w - 1) + [DigitChar(v % 16)]
  }

  lemma DivMod16(a: nat, b: nat)
    ensures (16 * a + b) / 16 == a + b / 16
    ensures (16 * a + b) % 16 == b % 16
  {
    var q, r := b / 16, b % 16;
    assert b == 16 * q + r;
    assert 16 * a + b == 16 * (a + q) + r;
  }

  lemma DivBelow16(v: nat, p: nat)
    requires v < 16 * p
    ensures v / 16 < p
  {
  }

  /** The last digit of `toString(16)` and the digits before it. */
  lemma ToHexLast(n: nat)
    requires n >= 16
    ensures ToHex(n) == ToHex(n / 16) + [DigitChar(n % 16)]
  {
  }

  /** The sentinel trick: a leading 1 digit above `w` digits keeps their leading zeros. */
  lemma {:induction false} ToHexSentinel(v: nat, w: nat)
    requires v < Pow16(w)
    ensures ToHex(Pow16(w) + v) == ['1'] + HexFixed(v, w)
  {
    if w == 0 {
      assert v == 0 && DigitChar(1) == '1';
      assert ToHex(Pow16(w) + v) == ['1'] + HexFixed(v, w);
    } else {
      var p := Pow16(w - 1);
      var n := Pow16(w) + v;
      var q, r := v / 16, v % 16;
      DivMod16(p, v);
      assert n / 16 == p + q && n % 16 == r;
      DivBelow16(v, p);
      ToHexSentinel(q, w - 1);
      ToHexLast(n);
      PrefixSnoc(ToHex(n), HexFixed(v, w), ['1'], HexFixed(q, w - 1), DigitChar(r));
      assert ToHex(n) == ['1'] + HexFixed(v, w);
    }
  }

  lemma PrefixSnoc(t: string, u: string, x: string, a: string, c: char)
    requires t == (x + a) + [c] && u == a + [c]
    ensures t == x + u
  {
  }

  lemma {:induction false} HexFixedValue(v: nat, w: nat)
    requires v < Pow16(w)
    ensures HexValue(HexFixed(v, w)) == v
  {
    if w > 0 {
      var s := HexFixed(v, w);
      assert s[..|s| - 1] == HexFixed(v / 16, w - 1);
      HexFixedValue(v / 16, w - 1);
    }
  }

  lemma {:induction false} HexFixedOfValue(s: string)
    requires AllLowerHex(s)
    ensures HexValue(s) < Pow16(|s|)
    ensures HexFixed(HexValue(s), |s|) == s
  {
    if s != [] {
      var t, c := s[..|s| - 1], s[|s| - 1];
      assert AllLowerHex(t);
      HexFixedOfValue(t);
      DivMod16(HexValue(t), DigitValue(c));
      assert HexValue(s) == 16 * HexValue(t) + DigitValue(c);
      DigitCharOfValue(c);
      assert s == t + [c];
    }
  }

  predicate IsBytes(c: Rgb)
  {
    0 <= c.r <= 255 && 0 <= c.g <= 255 && 0 <= c.b <= 255
  }

  /** `R * 0x10000 + G * 0x100 + B`: three bytes packed into a 24-bit number, which splits back into them. */
  function Pack(c: Rgb): (v: nat)
    requires IsBytes(c)
    ensures v < 0x1000000 && Split(v) == c
  {
    var v := c.r * 0x10000 + c.g * 0x100 + c.b;
    assert v == 0x100 * (c.r * 0x100 + c.g) + c.b;
    assert v / 0x100 == c.r * 0x100 + c.g;
    assert v == 0x10000 * c.r + (c.g * 0x100 + c.b);
    v
  }

  /** Every 24-bit number is the packing of its three bytes. */
  lemma SplitIsPacked(v: int)
    requires 0 <= v < 0x1000000
    ensures IsBytes(Split(v)) && Pack(Split(v)) == v
  {
    var q := v / 0x100;
    assert v == q * 0x100 + v % 0x100;
    assert q == (q / 0x100) * 0x100 + q % 0x100;
    assert q / 0x100 == v / 0x10000;
  }

  /** Each channel moved by `amt` and clamped: `R`, `G`, `B` of lines 16-18 after the clamps of 21-23. */
  function Lightened(c: Rgb, amt: int): (l: Rgb)
    ensures IsBytes(l)
  {
    Rgb(Clamp(c.r + amt), Clamp(c.g + amt), Clamp(c.b + amt))
  }

  // ---------------------------------------------------------------------------
  // lightenColor

  /**
   * `"#" + (0x1000000 + v).toString(16).slice(1)`: the sentinel digit keeps the
   * six digits of a 24-bit `v`, leading zeros included.
   */
  function Encode(v: nat): (out: string)
    requires v < 0x1000000
    ensures out == "#" + HexFixed(v, 6)
  {
    assert Pow16(6) == 0x1000000;
    ToHexSentinel(v, 6);
    assert (['1'] + HexFixed(v, 6))[1..] == HexFixed(v, 6);
    "#" + ToHex(0x1000000 + v)[1..]
  }

  /** `lightenColor(color, percent)` with `amt = Math.round(2.55 * percent)` passed in. */
  function LightenColor(color: string, amt: int): (out: string)
    ensures |out| == 7 && out[0] == '#' && AllLowerHex(out[1..])
  {
    Encode(Pack(Lightened(Decode(color), amt)))
  }

  /** Decoding a `#` plus six digits gives back the three bytes of the number they encode. */
  lemma DecodeFixed(v: nat)
    requires v < 0x1000000
    ensures Decode("#" + HexFixed(v, 6)) == Split(v)
  {
    var digits := HexFixed(v, 6);
    assert Pow16(6) == 0x1000000;
    HexFixedValue(v, 6);
    assert ("#" + digits)[1..] == digits;
    ParseAllHex(digits);
    assert ToInt32(v) == v;
  }

  /** Decoding the output finds every input channel shifted by `amt` and clamped. */
  lemma LightenChannels(color: string, amt: int)
    ensures var c := Decode(color);
      Decode(LightenColor(color, amt)) == Rgb(Clamp(c.r + amt), Clamp(c.g + amt), Clamp(c.b + amt))
  {
    DecodeFixed(Pack(Lightened(Decode(color), amt)));
  }

  /** With `amt = 0` every lower-case six-digit colour comes back unchanged. */
  lemma LightenZeroIdentity(color: string)
    requires |color| == 7 && color[0] == '#' && AllLowerHex(color[1..])
    ensures LightenColor(color, 0) == color
  {
    var s := color[1..];
    assert color == "#" + s;
    HexFixedOfValue(s);
    var v := HexValue(s);
    assert Pow16(6) == 0x1000000;
    DecodeFixed(v);
    SplitIsPacked(v);
    assert Lightened(Split(v), 0) == Split(v);
  }

  /** The 3-digit fallback "#999" is read as the number 0x999, not as CSS shorthand. */
  lemma ShorthandIsOneNumber()
    ensures Decode("#999") == Rgb(0, 9, 153)
  {
    assert "#999"[1..] == "999";
    assert HexRun("999") == 3;
    assert "999"[..3] == "999";
    assert "999"[..2] == "99" && "99"[..1] == "9" && "9"[..0] == "";
    assert HexValue("999") == 0x999;
  }

  /** Decoding `#` plus six lower-case digits reads their three bytes. */
  lemma DecodeSix(s: string)
    requires |s| == 6 && AllLowerHex(s)
    ensures Decode("#" + s) == Split(HexValue(s))
  {
    HexFixedOfValue(s);
    assert Pow16(6) == 0x1000000;
    DecodeFixed(HexValue(s));
  }

  lemma HexValueSnoc(t: string, c: char)
    requires AllHex(t) && IsHexDigit(c)
    ensures AllHex(t + [c]) && HexValue(t + [c]) == HexValue(t) * 16 + DigitValue(c)
  {
    assert (t + [c])[..|t|] == t;
  }

  /** `lightenColor` computed stage by stage: decode, shift and clamp, pack, and write six digits. */
  lemma LightenVia(color: string, amt: int, c: Rgb, l: Rgb, v: nat)
    requires Decode(color) == c
    requires l == Rgb(Clamp(c.r + amt), Clamp(c.g + amt), Clamp(c.b + amt))
    requires v == l.r * 0x10000 + l.g * 0x100 + l.b
    ensures LightenColor(color, amt) == "#" + HexFixed(v, 6)
  {
    assert Lightened(c, amt) == l;
    assert Pack(l) == v;
  }

  lemma HexOfBlue()
    ensures AllHex("1f77b4") && HexValue("1f77b4") == 0x1f77b4
  {
    HexValueSnoc("", '1');
    assert "" + ['1'] == "1";
    HexValueSnoc("1", 'f');
    assert "1" + ['f'] == "1f";
    HexValueSnoc("1f", '7');
    assert "1f" + ['7'] == "1f7";
    HexValueSnoc("1f7", '7');
    assert "1f7" + ['7'] == "1f77";
    HexValueSnoc("1f77", 'b');
    assert "1f77" + ['b'] == "1f77b";
    HexValueSnoc("1f77b", '4');
    assert "1f77b" + ['4'] == "1f77b4";
  }

  lemma HexOfLightBlue()
    ensures AllHex("9ef6ff") && HexValue("9ef6ff") == 0x9ef6ff
  {
    HexValueSnoc("", '9');
    assert "" + ['9'] == "9";
    HexValueSnoc("9", 'e');
    assert "9" + ['e'] == "9e";
    HexValueSnoc("9e", 'f');
    assert "9e" + ['f'] == "9ef";
    HexValueSnoc("9ef", '6');
    assert "9ef" + ['6'] == "9ef6";
    HexValueSnoc("9ef6", 'f');
    assert "9ef6" + ['f'] == "9ef6f";
    HexValueSnoc("9ef6f", 'f');
    assert "9ef6f" + ['f'] == "9ef6ff";
  }

  lemma DecodeBlue()
    ensures Decode("#1f77b4") == Rgb(31, 119, 180)
  {
    assert "#1f77b4" == "#" + "1f77b4";
    HexOfBlue();
    DecodeSix("1f77b4");
    assert Pack(Rgb(31, 119, 180)) == 0x1f77b4;
  }

  lemma FixedLightBlue()
    ensures "#" + HexFixed(0x9ef6ff, 6) == "#9ef6ff"
  {
    HexOfLightBlue();
    HexFixedOfValue("9ef6ff");
    assert "#" + "9ef6ff" == "#9ef6ff";
  }

  /** The default blue lightened by 127, the amount `Math.round(2.55 * 50)` yields in doubles. */
  lemma LightenBlueExample()
    ensures LightenColor("#1f77b4", 127) == "#9ef6ff"
  {
    DecodeBlue();
    FixedLightBlue();
    LightenVia("#1f77b4", 127, Rgb(31, 119, 180), Rgb(158, 246, 255), 0x9ef6ff);
  }

  lemma HexOfPaleViolet()
    ensures AllHex("7f88ff") && HexValue("7f88ff") == 0x7f88ff
  {
    HexValueSnoc("", '7');
    assert "" + ['7'] == "7";
    HexValueSnoc("7", 'f');
    assert "7" + ['f'] == "7f";
    HexValueSnoc("7f", '8');
    assert "7f" + ['8'] == "7f8";
    HexValueSnoc("7f8", '8');
    assert "7f8" + ['8'] == "7f88";
    HexValueSnoc("7f88", 'f');
    assert "7f88" + ['f'] == "7f88f";
    HexValueSnoc("7f88f", 'f');
    assert "7f88f" + ['f'] == "7f88ff";
  }

  lemma FixedPaleViolet()
    ensures "#" + HexFixed(0x7f88ff, 6) == "#7f88ff"
  {
    HexOfPaleViolet();
    HexFixedOfValue("7f88ff");
    assert "#" + "7f88ff" == "#7f88ff";
  }

  /**
   * The grey fallback lightened as a child fill: since "#999" decodes to
   * (0, 9, 153), the result is a light violet rather than a lighter grey.
   */
  lemma LightenFallbackExample()
    ensures LightenColor("#999", 127) == "#7f88ff"
  {
    ShorthandIsOneNumber();
    FixedPaleViolet();
    LightenVia("#999", 127, Rgb(0, 9, 153), Rgb(127, 136, 255), 0x7f88ff);
  }
}
