/**
 * The helpers of the `utils.utils` package module: `between` and the
 * integer branch of the `integer` argument converter. Its `rzip` and
 * `pluralize` are the same code as the top-level `utils` module's and are
 * modelled once, by `Utils.Rzip` and `Utils.Pluralize`; the lemmas here state
 * what this module's docstrings promise of them.
 */
module UtilsPkg {
  import opened Wrappers
  import opened Text
  import Utils

  /** `rzip` right-aligns its inputs: every tuple ends where the inputs end. */
  lemma RzipRightAligned<T>(its: seq<seq<T>>)
    requires |its| > 0
    ensures Utils.Rzip(its).Some?
    ensures |Utils.Rzip(its).value| == Utils.MinLen(its)
    ensures forall i, j :: 0 <= i < Utils.MinLen(its) && 0 <= j < |its| ==>
      Utils.Rzip(its).value[i][j] == its[j][|its[j]| - Utils.MinLen(its)..][i]
  {
  }

  /** `pluralize` picks the singular word exactly when `n == 1`. */
  lemma {:induction false} PluralizeSingularIff(singular: string, plural: string, n: int)
    requires singular != plural
    ensures (Utils.Pluralize(singular, plural, n, Utils.DefaultFmt)
             == IntToString(n) + " " + singular) <==> n == 1
  {
    Utils.PluralizeDefault(singular, plural, n);
    if n != 1 {
      var head := IntToString(n) + " ";
      assert (head + plural)[|head|..] == plural;
      assert (head + singular)[|head|..] == singular;
    }
  }

  /**
   * `between(num, num_min, num_max, inclusive)`. The inclusive form clamps into
   * `[num_min, num_max]`; the exclusive form moves a value at or past a bound
   * one step inside it. The upper bound is tested first in both forms.
   */
  function Between(num: int, numMin: int, numMax: int, inclusive: bool): (r: int)
    ensures inclusive && num > numMax ==> r == numMax
    ensures inclusive && num <= numMax && num < numMin ==> r == numMin
    ensures !inclusive && num >= numMax ==> r == numMax - 1
    ensures !inclusive && num < numMax && num <= numMin ==> r == numMin + 1
    ensures (if inclusive then numMin <= num <= numMax else numMin < num < numMax) ==> r == num
  {
    if inclusive then
      if num > numMax then numMax
      else if num < numMin then numMin
      else num
    else
      if num >= numMax then numMax - 1
      else if num <= numMin then numMin + 1
      else num
  }

  /** Inclusive `between` lands in the range whenever the range is non-empty. */
  lemma BetweenInRange(num: int, numMin: int, numMax: int)
    requires numMin <= numMax
    ensures numMin <= Between(num, numMin, numMax, true) <= numMax
  {
  }

  /** Inclusive `between` is idempotent. */
  lemma BetweenIdempotent(num: int, numMin: int, numMax: int)
    requires numMin <= numMax
    ensures Between(Between(num, numMin, numMax, true), numMin, numMax, true)
         == Between(num, numMin, numMax, true)
  {
  }

  /** What `int(arg)` yields for a base-10 literal, or `None` where it raises. */
  function IntLiteral(arg: string): (r: Option<int>)
  {
    StrippedLiteral(StripSpace(arg))
  }

  /** The literal once the surrounding white space is gone: an optional sign, then digit groups. */
  function StrippedLiteral(t: string): (r: Option<int>)
  {
    var signed := |t| > 0 && (t[0] == '-' || t[0] == '+');
    var body := if signed then t[1..] else t;
    if !GroupsIn(body, 10) then None
    else
      var v: int := ValueIn(body, 10);
      Some(if signed && t[0] == '-' then -v else v)
  }

  /**
   * The outcome of `integer(arg)`: the value when `int(arg)` succeeds, or the
   * hand-over to the `float` branch that rounds or raises BadArgument.
   */
  datatype IntegerOutcome = IntValue(value: int) | TryFloat

  function Integer(arg: string): (r: IntegerOutcome)
    ensures r.IntValue? <==> IntLiteral(arg).Some?
    ensures r.IntValue? ==> r.value == IntLiteral(arg).value
  {
    match IntLiteral(arg)
    case Some(v) => IntValue(v)
    case None => TryFloat
  }

  /** `IntLiteral` of a stripped string with no sign. */
  lemma IntLiteralUnsigned(arg: string, t: string)
    requires StripSpace(arg) == t && |t| > 0 && t[0] != '-' && t[0] != '+'
    ensures GroupsIn(t, 10) ==> IntLiteral(arg) == Some(ValueIn(t, 10))
    ensures !GroupsIn(t, 10) ==> IntLiteral(arg) == None
  {
  }

  /** `IntLiteral` of a stripped string with a leading minus sign. */
  lemma IntLiteralNegative(arg: string, t: string)
    requires StripSpace(arg) == t && |t| > 0 && t[0] == '-'
    ensures GroupsIn(t[1..], 10) ==> IntLiteral(arg) == Some(-(ValueIn(t[1..], 10) as int))
    ensures !GroupsIn(t[1..], 10) ==> IntLiteral(arg) == None
  {
  }

  /** `integer(str(i)) == i` for every integer. */
  lemma IntegerOfIntToString(i: int)
    ensures Integer(IntToString(i)) == IntValue(i)
  {
    var n: nat := if i >= 0 then i else -i;
    var d := NatToString(n);
    NatToStringGroups(n);
    if i >= 0 {
      PlainLiteral(d);
    } else {
      NegativeLiteral(d);
    }
  }

  /** Digit groups on their own read as their value. */
  lemma PlainLiteral(d: string)
    requires GroupsIn(d, 10) && d[0] != '+' && d[0] != '-'
    ensures IntLiteral(d) == Some(ValueIn(d, 10))
  {
    assert StripSpace(d) == d by {
      StripKeeps(d, Whitespace);
    }
    IntLiteralUnsigned(d, d);
  }

  /** A minus sign and digit groups read as the negated value. */
  lemma NegativeLiteral(d: string)
    requires GroupsIn(d, 10)
    ensures IntLiteral(['-'] + d) == Some(-(ValueIn(d, 10) as int))
  {
    var s := ['-'] + d;
    assert s[1..] == d;
    assert StripSpace(s) == s by {
      assert s[0] == '-' && s[|s| - 1] == d[|d| - 1];
      StripKeeps(s, Whitespace);
    }
    IntLiteralNegative(s, s);
  }

  /** `str(n)` is one group of decimal digits worth `n`. */
  lemma NatToStringGroups(n: nat)
    ensures GroupsIn(NatToString(n), 10) && ValueIn(NatToString(n), 10) == n
  {
    var d := NatToString(n);
    NatToStringRoundTrip(n);
    ValueInDecimal(d);
    assert forall k :: 0 <= k < |d| ==> IsDigitIn(d[k], 10);
  }

  // The examples below take their string as a parameter fixed by `requires`:
  // a literal argument lets the solver unfold the parser without bound.

  /** `int` sees only the stripped text. */
  lemma SameStripped(a: string, b: string)
    requires StripSpace(a) == StripSpace(b)
    ensures IntLiteral(a) == IntLiteral(b) && Integer(a) == Integer(b)
  {
  }

  /** Surrounding white space is ignored. */
  lemma IntegerPadded(i: int)
    ensures Integer(" " + IntToString(i) + "\n") == IntValue(i)
  {
    var x := IntToString(i);
    StripKeeps(x, Whitespace);
    StripPadded(' ', x, '\n', Whitespace);
    SameStripped(" " + x + "\n", x);
    IntegerOfIntToString(i);
  }

  /** A single underscore between two digits is accepted. */
  lemma IntegerUnderscore(a: char, b: char)
    requires IsDigit(a) && IsDigit(b)
    ensures Integer([a, '_', b]) == IntValue(DigitValue(a) * 10 + DigitValue(b))
  {
    var s := [a, '_', b];
    StripKeeps(s, Whitespace);
    assert GroupsIn(s, 10);
    assert s[..2] == [a, '_'] && s[..2][..1] == [a] && s[..2][..1][..0] == [];
    assert ValueIn([a], 10) == DigitValue(a);
    assert ValueIn([a, '_'], 10) == DigitValue(a);
    assert ValueIn(s, 10) == DigitValue(a) * 10 + DigitValue(b);
    IntLiteralUnsigned(s, s);
  }

  /** Doubled underscores and the empty string are not integer literals. */
  lemma IntegerRejects(s: string)
    requires s == "1__0"
    ensures Integer(s) == TryFloat
    ensures Integer("") == TryFloat
  {
    StripKeeps(s, Whitespace);
    assert !GroupsIn(s, 10) by { assert s[1] == '_' && s[2] == '_'; }
    IntLiteralUnsigned(s, s);
  }
}
