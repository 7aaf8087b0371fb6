/**
 * The miscellaneous cog: the full-width translation table, colour argument
 * parsing, the "joined ... ago" phrase, the coin-flip tally and the code
 * string shown by `charinfo`.
 */
module Misc {
  import opened Wrappers
  import opened Text
  import Utils
  import UtilsPkg

  // ---------------------------------------------------------------- full width

  /** `string.punctuation + string.digits + string.ascii_letters` is exactly `!` through `~`. */
  predicate IsPrintableAscii(c: char) { 33 <= c as int <= 126 }

  /** One entry of `FW_TRANS`. */
  function FwChar(c: char): (r: char)
    ensures IsPrintableAscii(c) ==> r as int == c as int + 65248
    ensures c == ' ' ==> r as int == 12288
    ensures !IsPrintableAscii(c) && c != ' ' ==> r == c
  {
    if IsPrintableAscii(c) then (c as int + 65248) as char
    else if c == ' ' then (' ' as int + 12256) as char
    else c
  }

  /** `chars.translate(FW_TRANS)`. */
  function Fullwidth(s: string): (r: string)
    ensures |r| == |s|
    ensures forall i :: 0 <= i < |s| ==> r[i] == FwChar(s[i])
  {
    seq(|s|, i requires 0 <= i < |s| => FwChar(s[i]))
  }

  /** A character that `FW_TRANS` can produce. */
  predicate IsFullwidthForm(c: char) { 65281 <= c as int <= 65374 || c as int == 12288 }

  /** The inverse of the table, for checking it. */
  function HalfChar(c: char): char {
    if 65281 <= c as int <= 65374 then (c as int - 65248) as char
    else if c as int == 12288 then ' '
    else c
  }

  /** Text with no full-width characters in it is recovered from its translation. */
  lemma FullwidthRoundTrip(s: string)
    requires forall i :: 0 <= i < |s| ==> !IsFullwidthForm(s[i])
    ensures seq(|s|, i requires 0 <= i < |s| => HalfChar(Fullwidth(s)[i])) == s
  {
  }

  /** Every translated character is full-width, or was left alone. */
  lemma FullwidthImage(s: string, i: nat)
    requires i < |s|
    ensures IsFullwidthForm(Fullwidth(s)[i]) <==> IsPrintableAscii(s[i]) || s[i] == ' ' || IsFullwidthForm(s[i])
  {
  }

  // ---------------------------------------------------------------- colours

  const HexMsg := "A single argument must be passed as hex (`0x7289DA`, `#7289DA`, `7289DA`)"
  const RgbFormatMsg := "Three arguments must be passed as RGB (`114 137 218`, `153 170 181`)"
  const RgbRangeMsg := "RGB colors must be in the range `[0, 255]`"
  const CountMsg := "You must pass 1 (hex) or 3 (RGB) arguments."

  /** The base a letter after a leading `0` selects, 0 for none. */
  function PrefixBase(c: char): nat {
    if c == 'x' || c == 'X' then 16 else if c == 'o' || c == 'O' then 8 else if c == 'b' || c == 'B' then 2 else 0
  }

  /**
   * The magnitude `int(s, 0)` reads: a `0x`, `0o` or `0b` prefix (either case,
   * optionally followed by one underscore) selects the base; otherwise a
   * decimal literal, where a leading zero is allowed only in an all-zero one.
   */
  function Base0Magnitude(body: string): Option<nat> {
    if |body| >= 2 && body[0] == '0' && PrefixBase(body[1]) > 0 then
      var base := PrefixBase(body[1]);
      var rest := body[2..];
      var digits := if |rest| > 0 && rest[0] == '_' then rest[1..] else rest;
      if GroupsIn(digits, base) then Some(ValueIn(digits, base)) else None
    else if GroupsIn(body, 10) && (body[0] != '0' || forall i :: 0 <= i < |body| ==> body[i] == '0' || body[i] == '_') then
      Some(ValueIn(body, 10))
    else None
  }

  /** `int(arg, 0)`, or `None` where it raises ValueError. */
  function IntBase0(arg: string): Option<int> {
    SignedBase0(StripSpace(arg))
  }

  /** An optional sign, then the magnitude. */
  function SignedBase0(t: string): Option<int> {
    var signed := |t| > 0 && (t[0] == '-' || t[0] == '+');
    match Base0Magnitude(if signed then t[1..] else t)
    case None => None
    case Some(v) =>
      var w: int := v;
      Some(if signed && t[0] == '-' then -w else w)
  }

  /** A channel value is usable when it is in `[0, 255]`. */
  predicate InByte(c: int) { 0 <= c <= 255 }

  /** A six-character colour gets a `0x` prefix; in a seven-character one every `#` becomes `0x`. */
  function PrepareHex(color: string): string {
    if |color| == 6 then "0x" + color
    else if |color| == 7 then ReplaceAll(color, '#', "0x")
    else color
  }

  /** The single-argument branch. */
  function HexColor(color: string): (r: Result<int, string>)
    ensures r.Ok? || r == Err(HexMsg)
    ensures r.Ok? <==> IntBase0(PrepareHex(color)).Some?
    ensures r.Ok? ==> r.value == IntBase0(PrepareHex(color)).value
  {
    match IntBase0(PrepareHex(color))
    case Some(v) => Ok(v)
    case None => Err(HexMsg)
  }

  /** The three-argument branch: `int` of each part, then the range check. */
  function RgbColor(parts: seq<string>): (r: Result<int, string>)
    requires |parts| == 3
    ensures r.Err? ==> r == Err(RgbFormatMsg) || r == Err(RgbRangeMsg)
    ensures r.Ok? ==> 0 <= r.value < 0x100_0000
  {
    RgbOf(UtilsPkg.IntLiteral(parts[0]), UtilsPkg.IntLiteral(parts[1]), UtilsPkg.IntLiteral(parts[2]))
  }

  /**
   * `discord.Color.from_rgb` after the checks: a part that is not an integer
   * gives the format message, a channel outside a byte the range message,
   * and otherwise the colour whose three bytes are the channels.
   */
  function RgbOf(r: Option<int>, g: Option<int>, b: Option<int>): (c: Result<int, string>)
    ensures c.Err? ==> c == Err(RgbFormatMsg) || c == Err(RgbRangeMsg)
    ensures c == Err(RgbFormatMsg) <==> r.None? || g.None? || b.None?
    ensures c == Err(RgbRangeMsg) <==>
      r.Some? && g.Some? && b.Some? && !(InByte(r.value) && InByte(g.value) && InByte(b.value))
    ensures c.Ok? ==> 0 <= c.value < 0x100_0000
    ensures c.Ok? ==> c.value / 0x1_0000 == r.value && c.value / 0x100 % 0x100 == g.value && c.value % 0x100 == b.value
  {
    if r.None? || g.None? || b.None? then Err(RgbFormatMsg)
    else if !InByte(r.value) || !InByte(g.value) || !InByte(b.value) then Err(RgbRangeMsg)
    else Ok(r.value * 0x1_0000 + g.value * 0x100 + b.value)
  }

  /**
   * `hex_or_rgb(arg)`: one space-separated part is a hexadecimal colour, three
   * are decimal RGB channels; the result is the colour's integer value.
   */
  function HexOrRgb(arg: string): (r: Result<int, string>)
    ensures var n := |Split(arg, ' ')|; n != 1 && n != 3 ==> r == Err(CountMsg)
    ensures |Split(arg, ' ')| == 1 ==> r == HexColor(arg)
    ensures |Split(arg, ' ')| == 3 ==> r == RgbColor(Split(arg, ' '))
  {
    var s := Split(arg, ' ');
    if |s| == 1 then
      assert s[0] == arg by { SplitJoin(arg, ' '); }
      HexColor(s[0])
    else if |s| == 3 then RgbColor(s)
    else Err(CountMsg)
  }

  predicate HexDigits(h: string) { forall i :: 0 <= i < |h| ==> IsDigitIn(h[i], 16) }

  lemma HexDigitsNoSpace(h: string)
    requires HexDigits(h)
    ensures ' ' !in h && '#' !in h && '_' !in h
  {
    forall i | 0 <= i < |h| ensures h[i] != ' ' && h[i] != '#' && h[i] != '_' {
      assert IsDigitIn(h[i], 16);
    }
  }

  lemma StripZeroX(h: string)
    requires |h| > 0 && HexDigits(h)
    ensures StripSpace("0x" + h) == "0x" + h
  {
    HexDigitsNoSpace(h);
    var color := "0x" + h;
    assert IsDigitIn(color[|color| - 1], 16);
    StripKeeps(color, Whitespace);
  }

  lemma ZeroXMagnitude(h: string)
    requires |h| > 0 && HexDigits(h)
    ensures Base0Magnitude("0x" + h) == Some(ValueIn(h, 16))
  {
    HexDigitsNoSpace(h);
    var color := "0x" + h;
    assert color[2..] == h;
    assert GroupsIn(h, 16);
  }

  /** `0x` and hexadecimal digits read as the digits' value. */
  lemma ZeroXValue(h: string)
    requires |h| > 0 && HexDigits(h)
    ensures IntBase0("0x" + h) == Some(ValueIn(h, 16))
  {
    var color := "0x" + h;
    ZeroXMagnitude(h);
    Unsigned(color, ValueIn(h, 16));
    StripZeroX(h);
  }

  /** Without a sign the magnitude is the value. */
  lemma Unsigned(t: string, v: nat)
    requires |t| > 0 && t[0] != '-' && t[0] != '+' && Base0Magnitude(t) == Some(v)
    ensures SignedBase0(t) == Some(v)
  {
  }

  /** Six hexadecimal digits, bare, are read in base 16. */
  lemma HexSix(h: string)
    requires |h| == 6 && HexDigits(h)
    ensures HexOrRgb(h) == Ok(ValueIn(h, 16))
  {
    HexDigitsNoSpace(h);
    ZeroXValue(h);
  }

  /** `#` followed by six hexadecimal digits reads as the same colour. */
  lemma HexHash(h: string)
    requires |h| == 6 && HexDigits(h)
    ensures HexOrRgb("#" + h) == Ok(ValueIn(h, 16))
  {
    HexDigitsNoSpace(h);
    ZeroXValue(h);
    var arg := "#" + h;
    assert arg == [] + ['#'] + h;
    assert ' ' !in arg by {
      assert forall i :: 1 <= i < |arg| ==> arg[i] == h[i - 1];
    }
    assert arg[1..] == h;
    assert ReplaceAll(arg, '#', "0x") == "0x" + h;
    assert PrepareHex(arg) == "0x" + h;
  }

  /** The three decimal channels, space-separated. */
  function RgbText(r: nat, g: nat, b: nat): string {
    NatToString(r) + " " + NatToString(g) + " " + NatToString(b)
  }

  lemma RgbTextSplit(r: nat, g: nat, b: nat)
    ensures Split(RgbText(r, g, b), ' ') == [NatToString(r), NatToString(g), NatToString(b)]
  {
    var sr, sg, sb := NatToString(r), NatToString(g), NatToString(b);
    NoSpaceInDigits(sr);
    NoSpaceInDigits(sg);
    NoSpaceInDigits(sb);
    assert RgbText(r, g, b) == sr + [' '] + (sg + [' '] + sb);
    SplitThree(sr, sg, sb, ' ');
  }

  lemma RgbTextValues(r: nat, g: nat, b: nat)
    ensures RgbColor([NatToString(r), NatToString(g), NatToString(b)]) == RgbOf(Some(r), Some(g), Some(b))
  {
    UtilsPkg.IntegerOfIntToString(r);
    UtilsPkg.IntegerOfIntToString(g);
    UtilsPkg.IntegerOfIntToString(b);
  }

  lemma RgbOfChannels(r: int, g: int, b: int)
    ensures InByte(r) && InByte(g) && InByte(b) ==> RgbOf(Some(r), Some(g), Some(b)) == Ok(r * 0x1_0000 + g * 0x100 + b)
    ensures !(InByte(r) && InByte(g) && InByte(b)) ==> RgbOf(Some(r), Some(g), Some(b)) == Err(RgbRangeMsg)
  {
  }

  /** Three in-range channels written in decimal give `(r << 16) + (g << 8) + b`. */
  lemma RgbChannels(r: nat, g: nat, b: nat)
    requires InByte(r) && InByte(g) && InByte(b)
    ensures HexOrRgb(RgbText(r, g, b)) == Ok(r * 0x1_0000 + g * 0x100 + b)
  {
    RgbTextSplit(r, g, b);
    RgbTextValues(r, g, b);
    RgbOfChannels(r, g, b);
  }

  /** A channel above 255 is reported as out of range. */
  lemma RgbOutOfRange(r: nat, g: nat, b: nat)
    requires !(InByte(r) && InByte(g) && InByte(b))
    ensures HexOrRgb(RgbText(r, g, b)) == Err(RgbRangeMsg)
  {
    RgbTextSplit(r, g, b);
    RgbTextValues(r, g, b);
    RgbOfChannels(r, g, b);
  }

  lemma NoSpaceInDigits(s: string)
    requires AllDigits(s)
    ensures ' ' !in s
  {
    forall i | 0 <= i < |s| ensures s[i] != ' ' {
      assert IsDigit(s[i]);
    }
  }

  // ---------------------------------------------------------------- fancy_time

  /**
   * `fancy_time`: whole years (only from 365 days on), the remaining days and
   * "ago", then the timestamp in parentheses: `full` with " UTC" when `utc`,
   * otherwise the `%Y-%m-%d` rendering `date`.
   */
  function FancyTime(days: int, utc: bool, full: string, date: string): (nice: string)
  {
    (if days >= 365 then Utils.Pluralize("year", "years", days / 365, [Utils.Num, Utils.Lit(" "), Utils.Word, Utils.Lit(", ")]) else "")
    + Utils.Pluralize("day", "days", days % 365, [Utils.Num, Utils.Lit(" "), Utils.Word, Utils.Lit(" ago")])
    + (if utc then " (" + full + " UTC)" else " (" + date + ")")
  }

  function Word(n: int, singular: string, plural: string): string {
    if n == 1 then singular else plural
  }

  lemma FourFormat(n: string, s: string, tail: string)
    ensures Utils.Format([Utils.Num, Utils.Lit(" "), Utils.Word, Utils.Lit(tail)], n, s) == n + " " + s + tail
  {
    var f := [Utils.Num, Utils.Lit(" "), Utils.Word, Utils.Lit(tail)];
    assert Utils.Format(f[3..], n, s) == tail;
    assert Utils.Format(f[2..], n, s) == s + tail;
    assert Utils.Format(f[1..], n, s) == " " + s + tail;
  }

  /** The years part appears exactly from 365 days on; the remaining days and the stamp always follow. */
  lemma FancyTimeShape(days: int, utc: bool, full: string, date: string)
    ensures var stamp := if utc then " (" + full + " UTC)" else " (" + date + ")";
      var rest := IntToString(days % 365) + " " + Word(days % 365, "day", "days") + " ago" + stamp;
      FancyTime(days, utc, full, date)
        == (if days >= 365 then IntToString(days / 365) + " " + Word(days / 365, "year", "years") + ", " else "") + rest
  {
    FourFormat(IntToString(days % 365), Word(days % 365, "day", "days"), " ago");
    FourFormat(IntToString(days / 365), Word(days / 365, "year", "years"), ", ");
  }

  // ---------------------------------------------------------------- flip

  /** How the loop classifies a draw of `randint(0, 6000)`. */
  function CountWhere(draws: seq<int>, kind: nat): (n: nat)
    ensures n <= |draws|
  {
    if |draws| == 0 then 0
    else CountWhere(draws[..|draws| - 1], kind) + (if Kind(draws[|draws| - 1]) == kind then 1 else 0)
  }

  /** 0 for Heads (odd), 1 for Tails (non-zero even), 2 for Edge (zero). */
  function Kind(rand: int): nat {
    if rand != 0 then (if rand % 2 != 0 then 0 else 1) else 2
  }

  lemma {:induction false} CountsAddUp(draws: seq<int>)
    ensures CountWhere(draws, 0) + CountWhere(draws, 1) + CountWhere(draws, 2) == |draws|
  {
    if |draws| > 0 {
      CountsAddUp(draws[..|draws| - 1]);
    }
  }

  const FaceNames: seq<string> := ["Heads", "Tails", "Edge"]

  /** The message lines: non-zero faces as `<face>: <count>`, or only the face for one coin. */
  function FlipLines(coins: int, counts: seq<nat>, from: nat): (lines: seq<string>)
    requires |counts| == 3 && from <= 3
    decreases 3 - from
  {
    if from == 3 then []
    else if counts[from] != 0 then
      if coins == 1 then [FaceNames[from]]
      else [FaceNames[from] + ": " + NatToString(counts[from])] + FlipLines(coins, counts, from + 1)
    else FlipLines(coins, counts, from + 1)
  }

  /**
   * `flip(coins)`, with the `randint(0, 6000)` results given as `draws`, one
   * per coin: fewer than one coin counts as one; every draw adds to exactly
   * one face; the message lists the faces that came up.
   */
  method Flip(coins: int, draws: seq<int>) returns (counts: seq<nat>, message: string)
    requires |draws| == if coins >= 1 then coins else 1
    ensures |counts| == 3
    ensures forall k :: 0 <= k < 3 ==> counts[k] == CountWhere(draws, k)
    ensures counts[0] + counts[1] + counts[2] == |draws|
    ensures message == Join("\n", FlipLines(|draws|, counts, 0))
  {
    var n := if coins >= 1 then coins else 1;
    counts := [0, 0, 0];
    var i := 0;
    while i < n
      invariant 0 <= i <= n && |counts| == 3
      invariant forall k :: 0 <= k < 3 ==> counts[k] == CountWhere(draws[..i], k)
    {
      var rand := draws[i];
      assert draws[..i + 1][..i] == draws[..i];
      if rand != 0 {
        if rand % 2 != 0 {
          counts := counts[0 := counts[0] + 1];
        } else {
          counts := counts[1 := counts[1] + 1];
        }
      } else {
        counts := counts[2 := counts[2] + 1];
      }
      i := i + 1;
    }
    assert draws[..i] == draws;
    CountsAddUp(draws);
    message := FlipMessage(n, counts);
  }

  /** The message loop of `flip`: stops after the first face when there is one coin. */
  method FlipMessage(coins: int, counts: seq<nat>) returns (message: string)
    requires |counts| == 3
    ensures message == Join("\n", FlipLines(coins, counts, 0))
  {
    var lines: seq<string> := [];
    var f := 0;
    while f < 3
      invariant 0 <= f <= 3
      invariant lines + FlipLines(coins, counts, f) == FlipLines(coins, counts, 0)
    {
      if counts[f] != 0 {
        if coins == 1 {
          lines := lines + [FaceNames[f]];
          assert lines == FlipLines(coins, counts, 0);
          break;
        }
        lines := lines + [FaceNames[f] + ": " + NatToString(counts[f])];
      }
      f := f + 1;
    }
    if f == 3 {
      assert lines + [] == lines;
    }
    assert lines == FlipLines(coins, counts, 0);
    message := Join("\n", lines);
  }

  /** A single coin reports just the face it showed. */
  lemma SingleCoin(rand: int)
    ensures var counts := [CountWhere([rand], 0), CountWhere([rand], 1), CountWhere([rand], 2)];
      Join("\n", FlipLines(1, counts, 0)) == FaceNames[Kind(rand)]
  {
    assert [rand][..0] == [];
  }

  // ---------------------------------------------------------------- charinfo

  /** A code point's hex digits, zero-filled to 4 in the BMP and to 8 beyond it. */
  function CodeDigits(c: char): (digits: string)
    ensures c as int < 0x1_0000 ==> |digits| == 4
    ensures c as int >= 0x1_0000 ==> |digits| == 8
    ensures HexDigits(digits) && ValueIn(digits, 16) == c as int
  {
    var n := c as int;
    var uc := HexLower(n);
    HexLowerLength(n, 4);
    HexLowerLength(n, 8);
    HexLowerValue(n);
    var w := if |uc| <= 4 then 4 else 8;
    ValueInLeadingZeros(w - |uc|, uc, 16);
    ZFill(uc, w)
  }

  /** The escape shown for one character: `\u` and 4 hex digits in the BMP, `\U` and 8 beyond. */
  function CodeString(c: char): (code: string)
    ensures code == "`\\" + (if c as int < 0x1_0000 then "u" else "U") + CodeDigits(c) + "`"
  {
    var uc := HexLower(c as int);
    HexLowerLength(c as int, 4);
    var short := |uc| <= 4;
    "`\\" + (if short then "u" else "U") + ZFill(uc, if short then 4 else 8) + "`"
  }

  /**
   * What `charinfo` sends for the NFC-normalised text `chars` (the normalisation
   * itself is not modelled): nothing for empty text, a refusal above 25
   * characters, else one code per character.
   */
  datatype CharinfoReply = Silent | TooMany | Codes(codes: seq<string>)

  function Charinfo(chars: string): (r: CharinfoReply)
    ensures |chars| == 0 <==> r == Silent
    ensures |chars| > 25 <==> r == TooMany
    ensures r.Codes? ==> |r.codes| == |chars| && forall i :: 0 <= i < |chars| ==> r.codes[i] == CodeString(chars[i])
  {
    if |chars| == 0 then Silent
    else if |chars| > 25 then TooMany
    else Codes(seq(|chars|, i requires 0 <= i < |chars| => CodeString(chars[i])))
  }
}
