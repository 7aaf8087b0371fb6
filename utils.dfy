/**
 * The small helpers of the top-level `utils` module: right-aligned zipping,
 * number-aware pluralisation, English list joining and clamping.
 */
module Utils {
  import opened Wrappers
  import opened Text

  /** The length of the shortest of several sequences (`min(lens)`). */
  function MinLen<T>(its: seq<seq<T>>): (m: nat)
    requires |its| > 0
    ensures forall j :: 0 <= j < |its| ==> m <= |its[j]|
    ensures exists j :: 0 <= j < |its| && m == |its[j]|
  {
    if |its| == 1 then |its[0]|
    else
      var rest := MinLen(its[1..]);
      assert forall j :: 1 <= j < |its| ==> its[1..][j - 1] == its[j];
      if |its[0]| <= rest then |its[0]| else rest
  }

  /**
   * `rzip(*its)`: like `zip`, but a longer sequence contributes its right end.
   * The i-th tuple takes element `i + len(it) - min_len` of every `it`.
   * With no sequences at all `min` of an empty list raises, modelled as `None`.
   */
  function Rzip<T>(its: seq<seq<T>>): (r: Option<seq<seq<T>>>)
    ensures r.None? <==> |its| == 0
    ensures r.Some? ==> |r.value| == MinLen(its)
    ensures r.Some? ==> forall i :: 0 <= i < |r.value| ==> |r.value[i]| == |its|
    ensures r.Some? ==> forall i, j :: 0 <= i < |r.value| && 0 <= j < |its| ==>
      r.value[i][j] == its[j][i + |its[j]| - MinLen(its)]
  {
    if |its| == 0 then None
    else
      var m := MinLen(its);
      Some(seq(m, i requires 0 <= i < m =>
        seq(|its|, j requires 0 <= j < |its| => its[j][i + |its[j]| - m])))
  }

  /** The last tuple of `rzip` is made of the last elements of every input. */
  lemma RzipLast<T>(its: seq<seq<T>>, j: nat)
    requires |its| > 0 && MinLen(its) > 0 && j < |its|
    ensures Rzip(its).Some?
    ensures Rzip(its).value[MinLen(its) - 1][j] == its[j][|its[j]| - 1]
  {
  }

  /** On inputs of equal length `rzip` is the ordinary `zip`. */
  lemma RzipEqualLengths<T>(its: seq<seq<T>>, n: nat)
    requires |its| > 0
    requires forall j :: 0 <= j < |its| ==> |its[j]| == n
    ensures Rzip(its).Some? && |Rzip(its).value| == n
    ensures forall i, j :: 0 <= i < n && 0 <= j < |its| ==> Rzip(its).value[i][j] == its[j][i]
  {
    assert MinLen(its) == n;
  }

  /** `rzip([1,2,3], [4,5]) == ((2, 4), (3, 5))`, the example in the docstring. */
  lemma RzipExample()
    ensures Rzip([[1, 2, 3], [4, 5]]) == Some([[2, 4], [3, 5]])
  {
    var its := [[1, 2, 3], [4, 5]];
    assert MinLen(its) == 2 by {
      assert MinLen(its[1..]) == 2;
    }
    var r := Rzip(its).value;
    assert |r| == 2 && |r[0]| == 2 && |r[1]| == 2;
    assert r[0][0] == 2 && r[0][1] == 4 && r[1][0] == 3 && r[1][1] == 5;
    assert r[0] == [2, 4] && r[1] == [3, 5];
    assert r == [[2, 4], [3, 5]];
  }

  /**
   * A `pluralize` format string: literal text and the two fields it may name,
   * `{n}` (the number) and `{s}` (the chosen word).
   */
  datatype Piece = Lit(text: string) | Num | Word

  function Format(fmt: seq<Piece>, n: string, s: string): string
  {
    if |fmt| == 0 then ""
    else
      (match fmt[0]
       case Lit(t) => t
       case Num => n
       case Word => s) + Format(fmt[1..], n, s)
  }

  lemma {:induction false} FormatAppend(a: seq<Piece>, b: seq<Piece>, n: string, s: string)
    ensures Format(a + b, n, s) == Format(a, n, s) + Format(b, n, s)
  {
    if |a| == 0 {
      assert a + b == b;
    } else {
      assert (a + b)[0] == a[0];
      assert (a + b)[1..] == a[1..] + b;
      FormatAppend(a[1..], b, n, s);
    }
  }

  /** The default format `'{n} {s}'`. */
  const DefaultFmt: seq<Piece> := [Num, Lit(" "), Word]

  lemma DefaultFormat(n: string, s: string)
    ensures Format(DefaultFmt, n, s) == n + " " + s
  {
    assert Format(DefaultFmt[2..], n, s) == s;
    assert Format(DefaultFmt[1..], n, s) == " " + s;
  }

  /** `pluralize(singular, plural, n, fmt)`: the singular word exactly when `n == 1`. */
  function Pluralize(singular: string, plural: string, n: int, fmt: seq<Piece>): (r: string)
    ensures n == 1 ==> r == Format(fmt, "1", singular)
    ensures n != 1 ==> r == Format(fmt, IntToString(n), plural)
  {
    Format(fmt, IntToString(n), if n == 1 then singular else plural)
  }

  /** With the default format the result is the number, a space and the chosen word. */
  lemma PluralizeDefault(singular: string, plural: string, n: int)
    ensures Pluralize(singular, plural, n, DefaultFmt)
         == IntToString(n) + " " + (if n == 1 then singular else plural)
  {
    DefaultFormat(IntToString(n), if n == 1 then singular else plural);
  }

  /** The docstring's examples `'1 dog'` and `'3 dogs'`, and a template that puts the word before the number. */
  lemma PluralizeExamples()
    ensures Pluralize("dog", "dogs", 1, DefaultFmt) == "1 dog"
    ensures Pluralize("dog", "dogs", 3, DefaultFmt) == "3 dogs"
    ensures Pluralize("dog", "dogs", 3, [Word, Lit(" ... "), Num]) == "dogs ... 3"
  {
    PluralizeDefault("dog", "dogs", 1);
    PluralizeDefault("dog", "dogs", 3);
    var f: seq<Piece> := [Word, Lit(" ... "), Num];
    assert Format(f[2..], "3", "dogs") == "3";
    assert Format(f[1..], "3", "dogs") == " ... 3";
  }

  /** `commaize(seq)`: an English list, with the serial comma from three items on. */
  function Commaize(items: seq<string>): (r: string)
    ensures |items| == 0 ==> r == ""
    ensures |items| == 1 ==> r == items[0]
    ensures |items| == 2 ==> r == items[0] + " and " + items[1]
    ensures |items| >= 3 ==> r == Join(", ", items[..|items| - 1]) + ", and " + items[|items| - 1]
  {
    if |items| == 0 then ""
    else if |items| == 1 then items[0]
    else if |items| == 2 then
      JoinTwo(" and ", items[0], items[1]);
      assert items == [items[0], items[1]];
      Join(" and ", items)
    else
      var pair := [Join(", ", items[..|items| - 1]), items[|items| - 1]];
      JoinTwo(", and ", pair[0], pair[1]);
      Join(", and ", pair)
  }

  /** A non-empty list reads from its first item to its last one. */
  lemma {:induction false} CommaizeEnds(items: seq<string>)
    requires |items| >= 1
    ensures StartsWith(Commaize(items), items[0])
    ensures EndsWith(Commaize(items), items[|items| - 1])
  {
    if |items| >= 3 {
      JoinStarts(", ", items[..|items| - 1]);
    }
  }

  lemma {:induction false} JoinStarts(sep: string, parts: seq<string>)
    requires |parts| >= 1
    ensures StartsWith(Join(sep, parts), parts[0])
  {
    if |parts| >= 2 {
      var j := Join(sep, parts);
      assert j == parts[0] + (sep + Join(sep, parts[1..]));
      assert j[..|parts[0]|] == parts[0];
    }
  }

  lemma CommaizeExamples()
    ensures Commaize(["a", "b"]) == "a and b"
    ensures Commaize(["a", "b", "c"]) == "a, b, and c"
  {
    var three := ["a", "b", "c"];
    assert three[..2] == ["a", "b"];
    JoinTwo(", ", "a", "b");
    JoinTwo(" and ", "a", "b");
  }

  /**
   * `clamp(value, low, high)`. The two bounds are tested in turn with `elif`,
   * so a value below `low` becomes `low` even when `low` exceeds `high`.
   */
  function Clamp(value: int, low: Option<int>, high: Option<int>): (r: int)
    ensures low.Some? && value < low.value ==> r == low.value
    ensures !(low.Some? && value < low.value) && high.Some? && value > high.value ==> r == high.value
    ensures (low.None? || low.value <= value) && (high.None? || value <= high.value) ==> r == value
    ensures low.Some? && high.Some? && low.value <= high.value ==> low.value <= r <= high.value
  {
    if low.Some? && value < low.value then low.value
    else if high.Some? && value > high.value then high.value
    else value
  }

  /** With a single bound `clamp` is `max` or `min`. */
  lemma ClampOneSided(value: int, bound: int)
    ensures Clamp(value, Some(bound), None) == if value < bound then bound else value
    ensures Clamp(value, None, Some(bound)) == if value > bound then bound else value
  {
  }

  /** Clamping twice into a non-empty range is clamping once. */
  lemma ClampIdempotent(value: int, low: Option<int>, high: Option<int>)
    requires low.Some? && high.Some? ==> low.value <= high.value
    ensures Clamp(Clamp(value, low, high), low, high) == Clamp(value, low, high)
  {
  }
}
