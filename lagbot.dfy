/**
 * The uptime string of the bot class: total seconds split into days, hours,
 * minutes and seconds, leading zero units dropped, each kept unit rendered
 * through `pluralize`.
 */
module LagBot {
  import opened Wrappers
  import opened Text
  import Utils

  /** An uptime split into units; Python's `divmod` floors, as Dafny's `/` and `%` do here. */
  datatype Span = Span(days: int, hours: int, minutes: int, seconds: int)

  function Decompose(total: int): (d: Span)
    ensures d.days * 86400 + d.hours * 3600 + d.minutes * 60 + d.seconds == total
    ensures 0 <= d.hours < 24 && 0 <= d.minutes < 60 && 0 <= d.seconds < 60
  {
    var hours, remainder := total / 3600, total % 3600;
    var minutes, seconds := remainder / 60, remainder % 60;
    Span(hours / 24, hours % 24, minutes, seconds)
  }

  /** The amounts in the order the loop visits them. */
  function Amounts(d: Span): (a: seq<int>)
    ensures |a| == 4
  {
    [d.days, d.hours, d.minutes, d.seconds]
  }

  /** The index of the first non-zero unit, or 3 (seconds) when all are zero. */
  function FirstShown(a: seq<int>): (k: nat)
    requires |a| == 4
    ensures k <= 3
    ensures forall j :: 0 <= j < k ==> a[j] == 0
    ensures k < 3 || a[3] != 0 ==> a[k] != 0
  {
    if a[0] != 0 then 0 else if a[1] != 0 then 1 else if a[2] != 0 then 2 else 3
  }

  const Singular: seq<string> := ["day", "hour", "minute", "second"]
  const Plural: seq<string> := ["days", "hours", "minutes", "seconds"]
  const Letter: seq<string> := ["d", "h", "m", "s"]

  /** `'{n}{s}'` for the brief form, `'{n} {s}'` for the long one. */
  function UnitFmt(brief: bool): seq<Utils.Piece> {
    if brief then [Utils.Num, Utils.Word] else Utils.DefaultFmt
  }

  function Joiner(brief: bool): string { if brief then " " else ", " }

  /** One unit rendered: `pluralize(*units[u], amount, fmt)`. */
  function Part(u: nat, amount: int, brief: bool): string
    requires u < 4
  {
    if brief then Utils.Pluralize(Letter[u], Letter[u], amount, UnitFmt(true))
    else Utils.Pluralize(Singular[u], Plural[u], amount, UnitFmt(false))
  }

  /** The parts shown, from the first non-zero unit through seconds. */
  function Parts(total: int, brief: bool): (ps: seq<string>)
    ensures |ps| == 4 - FirstShown(Amounts(Decompose(total)))
  {
    var a := Amounts(Decompose(total));
    var k := FirstShown(a);
    seq(4 - k, i requires 0 <= i < 4 - k => Part(k + i, a[k + i], brief))
  }

  /** The format entries are all the same unit format. */
  predicate Uniform(fmt: seq<seq<Utils.Piece>>, brief: bool) {
    forall j :: 0 <= j < |fmt| ==> fmt[j] == UnitFmt(brief)
  }

  /** `rzip(units, amounts, fmt)` rendered: the last `|fmt|` units, each with its format entry. */
  function RzipParts(amounts: seq<int>, fmt: seq<seq<Utils.Piece>>, brief: bool): (ps: seq<string>)
    requires |amounts| == 4 && |fmt| <= 4
    ensures |ps| == |fmt|
  {
    var k := 4 - |fmt|;
    seq(|fmt|, i requires 0 <= i < |fmt| =>
      if brief then Utils.Pluralize(Letter[k + i], Letter[k + i], amounts[k + i], fmt[i])
      else Utils.Pluralize(Singular[k + i], Plural[k + i], amounts[k + i], fmt[i]))
  }

  /** With a uniform format kept from the first non-zero unit, `rzip` gives the shown parts. */
  lemma RzipShown(total: int, fmt: seq<seq<Utils.Piece>>, brief: bool)
    requires Uniform(fmt, brief)
    requires |fmt| == 4 - FirstShown(Amounts(Decompose(total)))
    ensures RzipParts(Amounts(Decompose(total)), fmt, brief) == Parts(total, brief)
  {
    var a := Amounts(Decompose(total));
    var k := FirstShown(a);
    var ps := RzipParts(a, fmt, brief);
    forall i | 0 <= i < |fmt| ensures ps[i] == Part(k + i, a[k + i], brief) {
      assert fmt[i] == UnitFmt(brief);
    }
  }

  lemma FirstShownAt(a: seq<int>, k: nat)
    requires |a| == 4 && k <= 3
    requires forall j :: 0 <= j < k ==> a[j] == 0
    requires k == 3 || a[k] != 0
    ensures FirstShown(a) == k
  {
  }

  /**
   * `get_uptime(brief)` for a given number of elapsed seconds: the loop picks
   * the suffix of the format tuple to keep, and `rzip` lines it up with the
   * last units and amounts.
   */
  method GetUptime(total: int, brief: bool) returns (s: string)
    ensures s == Join(Joiner(brief), Parts(total, brief))
  {
    var d := Decompose(total);
    var amounts := Amounts(d);
    var times := [Some(d.days), Some(d.hours), Some(d.minutes), Some(d.seconds), None];
    var fmt := seq(4, _ => UnitFmt(brief));
    var ind := 0;
    while ind < 5
      invariant 0 <= ind <= 5
      invariant forall j :: 0 <= j < ind && j < 4 ==> amounts[j] == 0
      invariant |fmt| == (if ind == 5 then 1 else 4)
      invariant Uniform(fmt, brief)
    {
      var time := times[ind];
      if time.Some? && time.value != 0 {
        fmt := fmt[ind..];
        FirstShownAt(amounts, ind);
        break;
      } else if time.None? {
        fmt := [fmt[3]];
      }
      ind := ind + 1;
    }
    if ind == 5 {
      FirstShownAt(amounts, 3);
    }
    RzipShown(total, fmt, brief);
    s := Join(Joiner(brief), RzipParts(amounts, fmt, brief));
  }

  /** The first part shown is the first non-zero unit; every later unit is shown, zero or not. */
  lemma LeadingZerosDropped(total: int, brief: bool, u: nat)
    requires u < 4
    ensures var a := Amounts(Decompose(total));
      u < FirstShown(a) ==> a[u] == 0
    ensures var a := Amounts(Decompose(total));
      FirstShown(a) <= u ==> Parts(total, brief)[u - FirstShown(a)] == Part(u, a[u], brief)
  {
  }

  /** A long part is `<n> <word>`, singular only for 1; a brief part is `<n><letter>`. */
  lemma PartShape(u: nat, amount: int)
    requires u < 4
    ensures Part(u, amount, false) == IntToString(amount) + " " + (if amount == 1 then Singular[u] else Plural[u])
    ensures Part(u, amount, true) == IntToString(amount) + Letter[u]
  {
    Utils.PluralizeDefault(Singular[u], Plural[u], amount);
    var f := UnitFmt(true);
    assert Utils.Format(f[1..], IntToString(amount), Letter[u]) == Letter[u];
  }

  /** No time at all shows only the seconds: "0 seconds", or "0s" in brief. */
  lemma ZeroUptime()
    ensures Parts(0, false) == ["0 seconds"]
    ensures Parts(0, true) == ["0s"]
  {
    var a := Amounts(Decompose(0));
    assert a == [0, 0, 0, 0];
    assert FirstShown(a) == 3;
    PartShape(3, 0);
    assert IntToString(0) == "0";
    assert Part(3, 0, false) == "0 seconds" && Part(3, 0, true) == "0s";
    assert Parts(0, false)[0] == Part(3, 0, false);
    assert Parts(0, true)[0] == Part(3, 0, true);
  }

  /**
   * One day and five seconds keeps the zero hours and minutes between them:
   * "1 day, 0 hours, 0 minutes, 5 seconds" once the parts are rendered.
   */
  lemma DayAndSeconds(total: int)
    requires total == 86405
    ensures Parts(total, false) == [Part(0, 1, false), Part(1, 0, false), Part(2, 0, false), Part(3, 5, false)]
  {
    assert total / 3600 == 24 && total % 3600 == 5;
    assert Decompose(total) == Span(1, 0, 0, 5);
    assert FirstShown(Amounts(Decompose(total))) == 0;
  }
}
