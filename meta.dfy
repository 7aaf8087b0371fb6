/**
 * The meta cog's uptime string, built from per-unit format templates whose
 * plural suffix comes from a `plural` helper that is not part of this model
 * (it is a parameter here), and the reply of the `poke`/`ping` command.
 */
module Meta {
  import opened Text
  import LagBot

  /** A template field: literal text, `{d}`-style amounts and `{dp}`-style plural suffixes. */
  datatype Field = Lit(text: string) | Amount(unit: nat) | Suffix(unit: nat)

  type Template = seq<Field>

  /** `UPTIME_BRIEF`: `'{d}d'`, `'{h}h'`, `'{m}m'`, `'{s}s'`. */
  const UptimeBrief: seq<Template> :=
    [[Amount(0), Lit("d")], [Amount(1), Lit("h")], [Amount(2), Lit("m")], [Amount(3), Lit("s")]]

  /** `UPTIME_LONG`: `'{d} day{dp}'`, `'{h} hour{hp}'`, `'{m} minute{mp}'`, `'{s} second{sp}'`. */
  const UptimeLong: seq<Template> :=
    [[Amount(0), Lit(" day"), Suffix(0)], [Amount(1), Lit(" hour"), Suffix(1)],
     [Amount(2), Lit(" minute"), Suffix(2)], [Amount(3), Lit(" second"), Suffix(3)]]

  /** `str.format` of a template, with `amounts` indexed days, hours, minutes, seconds. */
  function Render(t: Template, amounts: seq<int>, plural: int -> string): string
    requires |amounts| == 4 && WellFormed(t)
  {
    if |t| == 0 then ""
    else
      (match t[0]
       case Lit(s) => s
       case Amount(u) => IntToString(amounts[u])
       case Suffix(u) => plural(amounts[u])) + Render(t[1..], amounts, plural)
  }

  predicate WellFormed(t: Template) {
    forall j :: 0 <= j < |t| ==> (t[j].Amount? ==> t[j].unit < 4) && (t[j].Suffix? ==> t[j].unit < 4)
  }

  lemma WellFormedConcat(a: Template, b: Template)
    requires WellFormed(a) && WellFormed(b)
    ensures WellFormed(a + b)
  {
    forall j | 0 <= j < |a + b| ensures (a + b)[j] == if j < |a| then a[j] else b[j - |a|] {
    }
  }

  /** `joiner.join(templates)` as one template. */
  function JoinTemplates(joiner: string, ts: seq<Template>): (t: Template)
    requires forall i :: 0 <= i < |ts| ==> WellFormed(ts[i])
    ensures WellFormed(t)
  {
    if |ts| == 0 then []
    else if |ts| == 1 then ts[0]
    else
      var rest := JoinTemplates(joiner, ts[1..]);
      WellFormedConcat(ts[0], [Lit(joiner)]);
      WellFormedConcat(ts[0] + [Lit(joiner)], rest);
      ts[0] + [Lit(joiner)] + rest
  }

  lemma {:induction false} RenderAppend(a: Template, b: Template, amounts: seq<int>, plural: int -> string)
    requires |amounts| == 4 && WellFormed(a) && WellFormed(b)
    ensures WellFormed(a + b)
    ensures Render(a + b, amounts, plural) == Render(a, amounts, plural) + Render(b, amounts, plural)
  {
    if |a| == 0 {
      assert a + b == b;
    } else {
      assert (a + b)[0] == a[0];
      assert (a + b)[1..] == a[1..] + b;
      RenderAppend(a[1..], b, amounts, plural);
    }
  }

  /** Formatting the joined templates is joining the formatted templates. */
  lemma {:induction false} RenderJoin(joiner: string, ts: seq<Template>, amounts: seq<int>, plural: int -> string)
    requires |amounts| == 4
    requires forall i :: 0 <= i < |ts| ==> WellFormed(ts[i])
    ensures Render(JoinTemplates(joiner, ts), amounts, plural)
         == Join(joiner, seq(|ts|, i requires 0 <= i < |ts| => Render(ts[i], amounts, plural)))
  {
    var parts := seq(|ts|, i requires 0 <= i < |ts| => Render(ts[i], amounts, plural));
    if |ts| >= 2 {
      var rest := JoinTemplates(joiner, ts[1..]);
      RenderAppend(ts[0] + [Lit(joiner)], rest, amounts, plural);
      RenderAppend(ts[0], [Lit(joiner)], amounts, plural);
      RenderJoin(joiner, ts[1..], amounts, plural);
      assert parts[1..] == seq(|ts| - 1, i requires 0 <= i < |ts| - 1 => Render(ts[1..][i], amounts, plural));
    }
  }

  function Templates(brief: bool): (ts: seq<Template>)
    ensures |ts| == 4 && forall i :: 0 <= i < 4 ==> WellFormed(ts[i])
  {
    if brief then UptimeBrief else UptimeLong
  }

  function Joiner(brief: bool): string { if brief then " " else ", " }

  /** The rendered units, from the first non-zero one through seconds. */
  function Parts(total: int, brief: bool, plural: int -> string): (ps: seq<string>)
    ensures |ps| == 4 - LagBot.FirstShown(LagBot.Amounts(LagBot.Decompose(total)))
  {
    var a := LagBot.Amounts(LagBot.Decompose(total));
    var k := LagBot.FirstShown(a);
    seq(4 - k, i requires 0 <= i < 4 - k => Render(Templates(brief)[k + i], a, plural))
  }

  /** The templates kept from the first non-zero unit on render to the shown parts. */
  lemma RenderedShown(total: int, brief: bool, plural: int -> string, fmt: seq<Template>)
    requires fmt == Templates(brief)[LagBot.FirstShown(LagBot.Amounts(LagBot.Decompose(total)))..]
    ensures forall i :: 0 <= i < |fmt| ==> WellFormed(fmt[i])
    ensures seq(|fmt|, i requires 0 <= i < |fmt| => Render(fmt[i], LagBot.Amounts(LagBot.Decompose(total)), plural))
         == Parts(total, brief, plural)
  {
  }

  /**
   * `get_uptime(brief)` for a given number of elapsed seconds: the loop keeps
   * the templates from the first non-zero unit on (only the seconds template
   * when all are zero); they are joined and then formatted once.
   */
  method GetUptime(total: int, brief: bool, plural: int -> string) returns (s: string)
    ensures s == Join(Joiner(brief), Parts(total, brief, plural))
  {
    var d := LagBot.Decompose(total);
    var a := LagBot.Amounts(d);
    var times := [a[0], a[1], a[2], a[3]];
    var fmt := Templates(brief);
    var ind := 0;
    ghost var full := fmt;
    while ind < 5
      invariant 0 <= ind <= 5
      invariant forall j :: 0 <= j < ind && j < 4 ==> a[j] == 0
      invariant ind < 5 ==> fmt == full
      invariant ind == 5 ==> fmt == [full[3]]
    {
      if ind < 4 && times[ind] != 0 {
        fmt := fmt[ind..];
        LagBot.FirstShownAt(a, ind);
        break;
      } else if ind == 4 {
        fmt := [fmt[3]];
      }
      ind := ind + 1;
    }
    if ind == 5 {
      LagBot.FirstShownAt(a, 3);
      assert fmt == full[3..];
    }
    s := Render(JoinTemplates(Joiner(brief), fmt), a, plural);
    RenderJoin(Joiner(brief), fmt, a, plural);
    RenderedShown(total, brief, plural, fmt);
  }

  /** A brief unit reads `<n><letter>`; a long one `<n> <unit word><plural suffix>`. */
  lemma UnitShape(total: int, plural: int -> string, u: nat)
    requires u < 4
    ensures var a := LagBot.Amounts(LagBot.Decompose(total));
      Render(UptimeBrief[u], a, plural) == IntToString(a[u]) + ["d", "h", "m", "s"][u]
    ensures var a := LagBot.Amounts(LagBot.Decompose(total));
      Render(UptimeLong[u], a, plural)
        == IntToString(a[u]) + [" day", " hour", " minute", " second"][u] + plural(a[u])
  {
    var a := LagBot.Amounts(LagBot.Decompose(total));
    var b := UptimeBrief[u];
    assert Render(b[1..], a, plural) == ["d", "h", "m", "s"][u];
    var l := UptimeLong[u];
    assert Render(l[2..], a, plural) == plural(a[u]);
    assert Render(l[1..], a, plural) == [" day", " hour", " minute", " second"][u] + plural(a[u]);
  }

  /** No time at all shows only the seconds template. */
  lemma ZeroUptime(plural: int -> string)
    ensures Parts(0, true, plural) == ["0s"]
    ensures Parts(0, false, plural) == ["0 second" + plural(0)]
  {
    var a := LagBot.Amounts(LagBot.Decompose(0));
    assert a == [0, 0, 0, 0];
    assert LagBot.FirstShown(a) == 3;
    UnitShape(0, plural, 3);
    assert IntToString(0) == "0";
    assert |Parts(0, true, plural)| == 1 && |Parts(0, false, plural)| == 1;
    assert Templates(true) == UptimeBrief && Templates(false) == UptimeLong;
    assert Parts(0, true, plural)[0] == Render(UptimeBrief[3], a, plural);
    assert Parts(0, false, plural)[0] == Render(UptimeLong[3], a, plural);
    assert Render(UptimeBrief[3], a, plural) == "0" + "s";
    assert Render(UptimeLong[3], a, plural) == "0" + " second" + plural(0);
    assert "0" + "s" == "0s" && "0" + " second" == "0 second";
    var pb, pl := Parts(0, true, plural), Parts(0, false, plural);
    assert pb == [pb[0]] && pl == [pl[0]];
  }

  /** The `poke` reply: a joke under the name `poke`, "Pong!" under the alias `ping`. */
  function Poke(invokedWith: string): (reply: string)
    ensures invokedWith == "poke" ==> reply == "I need an adult!"
    ensures invokedWith != "poke" ==> reply == "Pong!"
  {
    if invokedWith == "poke" then "I need an adult!" else "Pong!"
  }
}
