/**
 * Character and string helpers that stand for the Python built-ins the bot
 * relies on: `str.isdigit`, `str.lower`/`str.upper` (ASCII letters only),
 * `int(str)` on digit strings, `str(int)`, `hex`, `str.zfill`, `str.split`
 * on one separator character and `str.join`.
 */
module Text {

  predicate IsDigit(c: char) { '0' <= c <= '9' }

  /** `s.isdigit()`: non-empty and made of decimal digits only. */
  predicate AllDigits(s: string) {
    |s| > 0 && forall i :: 0 <= i < |s| ==> IsDigit(s[i])
  }

  predicate IsAsciiUpper(c: char) { 'A' <= c <= 'Z' }
  predicate IsAsciiLower(c: char) { 'a' <= c <= 'z' }
  predicate IsAsciiLetter(c: char) { IsAsciiUpper(c) || IsAsciiLower(c) }

  function LowerChar(c: char): (r: char)
    ensures IsAsciiUpper(c) ==> IsAsciiLower(r) && r as int == c as int + 32
    ensures !IsAsciiUpper(c) ==> r == c
  {
    if IsAsciiUpper(c) then (c as int + 32) as char else c
  }

  function UpperChar(c: char): (r: char)
    ensures IsAsciiLower(c) ==> IsAsciiUpper(r) && r as int == c as int - 32
    ensures !IsAsciiLower(c) ==> r == c
  {
    if IsAsciiLower(c) then (c as int - 32) as char else c
  }

  function Lower(s: string): (r: string)
    ensures |r| == |s|
    ensures forall i :: 0 <= i < |s| ==> r[i] == LowerChar(s[i])
  {
    seq(|s|, i requires 0 <= i < |s| => LowerChar(s[i]))
  }

  function Upper(s: string): (r: string)
    ensures |r| == |s|
    ensures forall i :: 0 <= i < |s| ==> r[i] == UpperChar(s[i])
  {
    seq(|s|, i requires 0 <= i < |s| => UpperChar(s[i]))
  }

  predicate StartsWith(s: string, prefix: string) {
    |prefix| <= |s| && s[..|prefix|] == prefix
  }

  predicate EndsWith(s: string, suffix: string) {
    |suffix| <= |s| && s[|s| - |suffix|..] == suffix
  }

  function DigitChar(d: nat): (c: char)
    requires d < 10
    ensures IsDigit(c) && c as int - '0' as int == d
  {
    ('0' as int + d) as char
  }

  function DigitValue(c: char): (d: nat)
    requires IsDigit(c)
    ensures d < 10 && DigitChar(d) == c
  {
    c as int - '0' as int
  }

  /** The value of a string of decimal digits, most significant first. */
  function DigitsValue(s: string): nat
    requires forall i :: 0 <= i < |s| ==> IsDigit(s[i])
  {
    if |s| == 0 then 0 else DigitsValue(s[..|s| - 1]) * 10 + DigitValue(s[|s| - 1])
  }

  /** `str(n)` for a natural number: no leading zeros, "0" for zero. */
  function NatToString(n: nat): (r: string)
    ensures AllDigits(r)
    ensures r[0] == '0' ==> n == 0 && r == "0"
    decreases n
  {
    if n < 10 then [DigitChar(n)] else NatToString(n / 10) + [DigitChar(n % 10)]
  }

  lemma {:induction false} NatToStringRoundTrip(n: nat)
    ensures DigitsValue(NatToString(n)) == n
    decreases n
  {
    if n >= 10 {
      var s := NatToString(n);
      assert s[..|s| - 1] == NatToString(n / 10);
      NatToStringRoundTrip(n / 10);
    }
  }

  /** `str(i)` for any integer. */
  function IntToString(i: int): (r: string)
    ensures i >= 0 ==> r == NatToString(i)
    ensures i < 0 ==> r == ['-'] + NatToString(-i)
  {
    if i >= 0 then NatToString(i) else ['-'] + NatToString(-i)
  }

  function HexDigitChar(d: nat): (c: char)
    requires d < 16
  {
    if d < 10 then DigitChar(d) else ('a' as int + d - 10) as char
  }

  /** `hex(n)[2:]`: lower-case hexadecimal digits, "0" for zero. */
  function HexLower(n: nat): (r: string)
    ensures |r| >= 1
    ensures n < 16 <==> |r| == 1
    decreases n
  {
    if n < 16 then [HexDigitChar(n)] else HexLower(n / 16) + [HexDigitChar(n % 16)]
  }

  function Zeros(z: nat): (r: string)
    ensures |r| == z && forall i :: 0 <= i < z ==> r[i] == '0'
  {
    seq(z, _ => '0')
  }

  /** `s.zfill(width)` for a string without a sign: zeros on the left up to `width`. */
  function ZFill(s: string, width: nat): (r: string)
    ensures |r| == if |s| >= width then |s| else width
    ensures EndsWith(r, s)
    ensures forall i :: 0 <= i < |r| - |s| ==> r[i] == '0'
  {
    if |s| >= width then s else Zeros(width - |s|) + s
  }

  function IndexOf(s: string, c: char): (i: nat)
    requires c in s
    ensures i < |s| && s[i] == c && c !in s[..i]
  {
    if s[0] == c then 0 else 1 + IndexOf(s[1..], c)
  }

  /** `s.split(c)` for a one-character separator. */
  function Split(s: string, c: char): (parts: seq<string>)
    ensures |parts| >= 1
    ensures forall k :: 0 <= k < |parts| ==> c !in parts[k]
    decreases |s|
  {
    if c !in s then [s]
    else
      var i := IndexOf(s, c);
      [s[..i]] + Split(s[i + 1..], c)
  }

  /** `sep.join(parts)`. */
  function Join(sep: string, parts: seq<string>): string
  {
    if |parts| == 0 then ""
    else if |parts| == 1 then parts[0]
    else parts[0] + sep + Join(sep, parts[1..])
  }

  lemma JoinTwo(sep: string, a: string, b: string)
    ensures Join(sep, [a, b]) == a + sep + b
  {
    assert [a, b][1..] == [b];
  }

  lemma {:induction false} SplitJoin(s: string, c: char)
    ensures Join([c], Split(s, c)) == s
    decreases |s|
  {
    if c in s {
      var i := IndexOf(s, c);
      var rest := Split(s[i + 1..], c);
      var parts := [s[..i]] + rest;
      assert Split(s, c) == parts;
      assert parts[0] == s[..i] && parts[1..] == rest;
      SplitJoin(s[i + 1..], c);
      assert Join([c], parts) == s[..i] + [c] + s[i + 1..];
      assert s == s[..i] + [c] + s[i + 1..];
    }
  }

  /** A string that splits into exactly two parts is those parts around one separator. */
  lemma SplitTwo(s: string, c: char)
    requires |Split(s, c)| == 2
    ensures s == Split(s, c)[0] + [c] + Split(s, c)[1]
  {
    SplitJoin(s, c);
  }

  lemma {:induction false} IndexOfAt(s: string, c: char, k: nat)
    requires k < |s| && s[k] == c && c !in s[..k]
    ensures IndexOf(s, c) == k
  {
    if k > 0 {
      assert s[0] == s[..k][0];
      assert s[1..][..k - 1] == s[1..k];
      IndexOfAt(s[1..], c, k - 1);
    }
  }

  /** Splitting at a first separator peels off the text before it. */
  lemma SplitCons(a: string, c: char, b: string)
    requires c !in a
    ensures Split(a + [c] + b, c) == [a] + Split(b, c)
  {
    var s := a + [c] + b;
    assert s[..|a|] == a;
    IndexOfAt(s, c, |a|);
    assert s[|a| + 1..] == b;
  }

  lemma SplitAround(a: string, c: char, b: string)
    requires c !in a && c !in b
    ensures Split(a + [c] + b, c) == [a, b]
  {
    SplitCons(a, c, b);
  }

  /** Splitting at the first separator, wherever it is. */
  lemma SplitAt(s: string, c: char, i: nat)
    requires i < |s| && s[i] == c && c !in s[..i]
    ensures Split(s, c) == [s[..i]] + Split(s[i + 1..], c)
  {
    IndexOfAt(s, c, i);
  }

  /** The text after a last separator is the last part. */
  lemma {:induction false} SplitSnoc(a: string, c: char, b: string)
    requires c !in b
    ensures Split(a + [c] + b, c) == Split(a, c) + [b]
    decreases |a|
  {
    var s := a + [c] + b;
    if c !in a {
      SplitAround(a, c, b);
    } else {
      var i := IndexOf(a, c);
      var y := a[i + 1..];
      assert s[..i] == a[..i];
      SplitAt(s, c, i);
      assert s[i + 1..] == y + [c] + b;
      SplitSnoc(y, c, b);
      assert Split(a, c) == [a[..i]] + Split(y, c);
    }
  }

  lemma SplitThree(a: string, b: string, c: string, sep: char)
    requires sep !in a && sep !in b && sep !in c
    ensures Split(a + [sep] + (b + [sep] + c), sep) == [a, b, c]
  {
    SplitCons(a, sep, b + [sep] + c);
    SplitAround(b, sep, c);
  }

  lemma SplitFour(a: string, b: string, c: string, d: string, sep: char)
    requires sep !in a && sep !in b && sep !in c && sep !in d
    ensures Split(a + [sep] + (b + [sep] + (c + [sep] + d)), sep) == [a, b, c, d]
  {
    SplitCons(a, sep, b + [sep] + (c + [sep] + d));
    SplitCons(b, sep, c + [sep] + d);
    SplitAround(c, sep, d);
  }

  function Reverse(s: string): (r: string)
    ensures |r| == |s|
    ensures forall i :: 0 <= i < |s| ==> r[i] == s[|s| - 1 - i]
  {
    seq(|s|, i requires 0 <= i < |s| => s[|s| - 1 - i])
  }

  /** `s.replace(old, new, 1)` for a one-character `old`: the first occurrence only. */
  function ReplaceFirst(s: string, from: char, to: string): (r: string)
    ensures from !in s ==> r == s
    ensures from in s ==> r == s[..IndexOf(s, from)] + to + s[IndexOf(s, from) + 1..]
  {
    if from in s then s[..IndexOf(s, from)] + to + s[IndexOf(s, from) + 1..] else s
  }

  /** `s.replace(old, new)` for a one-character `old`: every occurrence. */
  function ReplaceAll(s: string, from: char, to: string): (r: string)
    ensures from !in s ==> r == s
  {
    if |s| == 0 then ""
    else (if s[0] == from then to else [s[0]]) + ReplaceAll(s[1..], from, to)
  }

  lemma {:induction false} ReplaceAllAppend(s: string, c: char, from: char, to: string)
    ensures ReplaceAll(s + [c], from, to) == ReplaceAll(s, from, to) + (if c == from then to else [c])
  {
    if |s| == 0 {
      assert s + [c] == [c];
    } else {
      var t := s + [c];
      var head := if s[0] == from then to else [s[0]];
      assert t[0] == s[0] && t[1..] == s[1..] + [c];
      assert ReplaceAll(t, from, to) == head + ReplaceAll(s[1..] + [c], from, to);
      assert ReplaceAll(s, from, to) == head + ReplaceAll(s[1..], from, to);
      ReplaceAllAppend(s[1..], c, from, to);
    }
  }

  /** The last part of a split is a suffix of the string. */
  lemma {:induction false} SplitLast(s: string, c: char)
    ensures EndsWith(s, Split(s, c)[|Split(s, c)| - 1])
    decreases |s|
  {
    if c in s {
      var i := IndexOf(s, c);
      var t := s[i + 1..];
      SplitLast(t, c);
      var tail := Split(t, c);
      var parts := Split(s, c);
      assert parts == [s[..i]] + tail;
      var last := tail[|tail| - 1];
      assert parts[|parts| - 1] == last;
      assert s[|s| - |last|..] == t[|t| - |last|..];
    }
  }

  /** What follows the last separator: the last part of `Split(s, c)`. */
  function LastPart(s: string, c: char): (r: string)
    ensures |r| <= |s|
    decreases |s|
  {
    if c !in s then s else LastPart(s[IndexOf(s, c) + 1..], c)
  }

  lemma {:induction false} LastPartOfSplit(s: string, c: char)
    ensures Split(s, c)[|Split(s, c)| - 1] == LastPart(s, c)
    decreases |s|
  {
    if c in s {
      var t := s[IndexOf(s, c) + 1..];
      LastPartOfSplit(t, c);
      assert Split(s, c) == [s[..IndexOf(s, c)]] + Split(t, c);
    }
  }

  /** A suffix that follows a separator in `s[i + 1..]`, or is all of it, follows one in `s`. */
  lemma SeparatorShift(s: string, i: nat, c: char, n: nat)
    requires i < |s| && s[i] == c && n <= |s| - i - 1
    requires n == |s| - i - 1 || s[i + 1..][|s| - i - 1 - n - 1] == c
    ensures n < |s| && s[|s| - n - 1] == c
  {
  }

  /** The last part is the whole text, or follows a separator. */
  lemma {:induction false} LastPartAfter(s: string, c: char)
    ensures |LastPart(s, c)| < |s| ==> s[|s| - |LastPart(s, c)| - 1] == c
    decreases |s|
  {
    if c in s {
      var i := IndexOf(s, c);
      var t := s[i + 1..];
      LastPartAfter(t, c);
      SeparatorShift(s, i, c, |LastPart(t, c)|);
    }
  }

  /** The last part of a split is the whole text, or follows a separator. */
  lemma SplitLastAfter(s: string, c: char)
    ensures var last := Split(s, c)[|Split(s, c)| - 1]; |last| == |s| || (|last| < |s| && s[|s| - |last| - 1] == c)
  {
    LastPartOfSplit(s, c);
    LastPartAfter(s, c);
  }

  /** The value of an alphanumeric digit in any base up to 36 (either case), 36 for anything else. */
  function CharValue(c: char): (v: nat)
    ensures v <= 36
    ensures IsDigit(c) ==> v == DigitValue(c)
  {
    if IsDigit(c) then DigitValue(c)
    else if IsAsciiLower(c) then c as int - 'a' as int + 10
    else if IsAsciiUpper(c) then c as int - 'A' as int + 10
    else 36
  }

  predicate IsDigitIn(c: char, base: nat) { CharValue(c) < base }

  /** Digits of `base` with single underscores between them, as `int(s, base)` accepts. */
  predicate GroupsIn(s: string, base: nat) {
    && |s| > 0 && IsDigitIn(s[0], base) && IsDigitIn(s[|s| - 1], base)
    && (forall i :: 0 <= i < |s| ==> IsDigitIn(s[i], base) || s[i] == '_')
    && (forall i :: 0 <= i < |s| - 1 ==> s[i] == '_' ==> s[i + 1] != '_')
  }

  /**
   * The value of digits of `base`, most significant first, underscores
   * skipped; only used on text that `GroupsIn` accepts.
   */
  function ValueIn(s: string, base: nat): nat
  {
    if |s| == 0 then 0
    else if s[|s| - 1] == '_' then ValueIn(s[..|s| - 1], base)
    else ValueIn(s[..|s| - 1], base) * base + CharValue(s[|s| - 1])
  }

  /** On plain decimal digits `ValueIn` is `DigitsValue`. */
  lemma {:induction false} ValueInDecimal(s: string)
    requires forall i :: 0 <= i < |s| ==> IsDigit(s[i])
    ensures ValueIn(s, 10) == DigitsValue(s)
  {
    if |s| > 0 {
      ValueInDecimal(s[..|s| - 1]);
    }
  }

  lemma HexDigitValue(d: nat)
    requires d < 16
    ensures CharValue(HexDigitChar(d)) == d
  {
  }

  /** `hex` and base-16 parsing are inverse. */
  lemma {:induction false} HexLowerValue(n: nat)
    ensures forall i :: 0 <= i < |HexLower(n)| ==> IsDigitIn(HexLower(n)[i], 16)
    ensures ValueIn(HexLower(n), 16) == n
    decreases n
  {
    HexDigitValue(n % 16);
    if n < 16 {
      assert HexLower(n)[..0] == "";
    } else {
      HexLowerValue(n / 16);
      var s := HexLower(n);
      assert s[..|s| - 1] == HexLower(n / 16);
    }
  }

  /** Leading zeros add nothing to a value. */
  lemma {:induction false} ValueInLeadingZeros(z: nat, s: string, base: nat)
    requires base >= 1
    requires forall i :: 0 <= i < |s| ==> IsDigitIn(s[i], base) || s[i] == '_'
    ensures forall i :: 0 <= i < |Zeros(z) + s| ==> IsDigitIn((Zeros(z) + s)[i], base) || (Zeros(z) + s)[i] == '_'
    ensures ValueIn(Zeros(z) + s, base) == ValueIn(s, base)
    decreases |s|, z
  {
    var t := Zeros(z) + s;
    if |s| > 0 {
      assert t[..|t| - 1] == Zeros(z) + s[..|s| - 1];
      ValueInLeadingZeros(z, s[..|s| - 1], base);
    } else if z > 0 {
      assert t[..|t| - 1] == Zeros(z - 1) + s;
      ValueInLeadingZeros(z - 1, s, base);
    }
  }

  /** The ASCII characters Python counts as white space (`str.isspace`). */
  predicate IsSpace(c: char) {
    c == ' ' || 9 <= c as int <= 13 || 28 <= c as int <= 31
  }

  /** The character sets the bot strips: `strip()` and `strip('` \n')`. */
  datatype StripSet = Whitespace | Fence

  predicate InSet(c: char, cs: StripSet) {
    match cs
    case Whitespace => IsSpace(c)
    case Fence => c == '`' || c == ' ' || c == '\n'
  }

  /** How many characters of the set `s` starts with. */
  function LeftCount(s: string, cs: StripSet): (n: nat)
    ensures n <= |s|
    ensures n < |s| ==> !InSet(s[n], cs)
  {
    if |s| > 0 && InSet(s[0], cs) then 1 + LeftCount(s[1..], cs) else 0
  }

  /** How many characters of the set `s` ends with. */
  function RightCount(s: string, cs: StripSet): (n: nat)
    ensures n <= |s|
    ensures n < |s| ==> !InSet(s[|s| - 1 - n], cs)
  {
    if |s| > 0 && InSet(s[|s| - 1], cs) then 1 + RightCount(s[..|s| - 1], cs) else 0
  }

  /** `s.lstrip(chars)`. */
  function TrimLeft(s: string, cs: StripSet): (r: string)
    ensures |r| > 0 ==> !InSet(r[0], cs)
  {
    s[LeftCount(s, cs)..]
  }

  /** `s.rstrip(chars)`. */
  function TrimRight(s: string, cs: StripSet): (r: string)
    ensures |r| > 0 ==> !InSet(r[|r| - 1], cs)
  {
    s[..|s| - RightCount(s, cs)]
  }

  /** `s.strip(chars)`. */
  function Strip(s: string, cs: StripSet): (r: string)
    ensures |r| > 0 ==> !InSet(r[0], cs) && !InSet(r[|r| - 1], cs)
  {
    TrimRight(TrimLeft(s, cs), cs)
  }

  /** `s.strip()`. */
  function StripSpace(s: string): string { Strip(s, Whitespace) }

  /** Everything `TrimLeft` drops is in the set. */
  lemma {:induction false} LeftCountDrops(s: string, cs: StripSet)
    ensures forall k :: 0 <= k < LeftCount(s, cs) ==> InSet(s[k], cs)
  {
    if |s| > 0 && InSet(s[0], cs) {
      LeftCountDrops(s[1..], cs);
      assert forall k :: 1 <= k < LeftCount(s, cs) ==> s[k] == s[1..][k - 1];
    }
  }

  /** Everything `TrimRight` drops is in the set. */
  lemma {:induction false} RightCountDrops(s: string, cs: StripSet)
    ensures forall k :: |s| - RightCount(s, cs) <= k < |s| ==> InSet(s[k], cs)
  {
    if |s| > 0 && InSet(s[|s| - 1], cs) {
      RightCountDrops(s[..|s| - 1], cs);
    }
  }

  /**
   * `strip` removes characters of the set from the two ends and nothing else:
   * the result is the slice between the first and the last character outside
   * the set, and everything cut off on either side is in the set.
   */
  lemma {:induction false} StripSlice(s: string, cs: StripSet)
    ensures var i := LeftCount(s, cs);
      && i + |Strip(s, cs)| <= |s|
      && Strip(s, cs) == s[i..i + |Strip(s, cs)|]
      && (forall k :: 0 <= k < i ==> InSet(s[k], cs))
      && (forall k :: i + |Strip(s, cs)| <= k < |s| ==> InSet(s[k], cs))
  {
    var i := LeftCount(s, cs);
    var t := s[i..];
    assert t == TrimLeft(s, cs);
    var j := RightCount(t, cs);
    var r := t[..|t| - j];
    assert r == Strip(s, cs);
    var n := |r|;
    assert |t| == |s| - i && n == |t| - j;
    LeftCountDrops(s, cs);
    RightCountDrops(t, cs);
    assert r == s[i..i + n] by {
      assert forall k :: 0 <= k < n ==> r[k] == t[k] == s[i + k];
    }
    forall k | i + n <= k < |s|
      ensures InSet(s[k], cs)
    {
      assert s[k] == t[k - i] && |t| - j <= k - i < |t|;
    }
  }

  lemma StripKeeps(s: string, cs: StripSet)
    requires |s| > 0 && !InSet(s[0], cs) && !InSet(s[|s| - 1], cs)
    ensures Strip(s, cs) == s
  {
  }

  /** One stripped character on each side of an unstripped text is dropped. */
  lemma StripPadded(a: char, s: string, b: char, cs: StripSet)
    requires InSet(a, cs) && InSet(b, cs)
    requires |s| > 0 && !InSet(s[0], cs) && !InSet(s[|s| - 1], cs)
    ensures Strip([a] + s + [b], cs) == s
  {
    var t := [a] + s + [b];
    assert t[1..] == s + [b];
    assert LeftCount(s + [b], cs) == 0;
    assert LeftCount(t, cs) == 1;
    var u := s + [b];
    assert u[..|u| - 1] == s;
    assert RightCount(s, cs) == 0;
    assert RightCount(u, cs) == 1;
  }

  function Pow16(k: nat): (p: nat)
    ensures p >= 1
  {
    if k == 0 then 1 else 16 * Pow16(k - 1)
  }

  /** `hex(n)` has at most `k` digits exactly when `n < 16^k`. */
  lemma {:induction false} HexLowerLength(n: nat, k: nat)
    requires k >= 1
    ensures |HexLower(n)| <= k <==> n < Pow16(k)
    decreases n
  {
    if n >= 16 {
      if k == 1 {
        assert |HexLower(n)| >= 2;
      } else {
        HexLowerLength(n / 16, k - 1);
        assert n / 16 < Pow16(k - 1) <==> n < 16 * Pow16(k - 1);
      }
    } else {
      assert Pow16(k) >= 16 by {
        assert Pow16(k) == 16 * Pow16(k - 1);
      }
    }
  }
}
