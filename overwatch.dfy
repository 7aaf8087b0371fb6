/**
 * The Overwatch cog's argument and identity logic: the game modes and their
 * aliases, the free-order argument classifier, mentions and BattleTags, the
 * level and play-time arithmetic, the most-played ordering, and how a
 * command settles on a tag, mode, platform and region. The database rows and
 * the fetched stats payload are parameters.
 */
module Overwatch {
  import opened Wrappers
  import opened Text

  /** The two values of the `Mode` enum; every other member name is an alias. */
  datatype Mode = Quickplay | Competitive

  /** `Mode[name]`: the member names, case-sensitive. */
  function ModeOf(name: string): (r: Option<Mode>)
    ensures r == Some(Quickplay) <==> name in ["quickplay", "unranked", "quick", "qp"]
    ensures r == Some(Competitive) <==> name in ["competitive", "ranked", "comp", "default"]
  {
    if name in ["quickplay", "unranked", "quick", "qp"] then Some(Quickplay)
    else if name in ["competitive", "ranked", "comp", "default"] then Some(Competitive)
    else None
  }

  /** `mode.name`: an alias resolves to the first member of its value. */
  function ModeName(m: Mode): string {
    match m
    case Quickplay => "quickplay"
    case Competitive => "competitive"
  }

  /** A mode's name looks itself up, so a stored mode name reads back unchanged. */
  lemma ModeNameRoundTrip(m: Mode)
    ensures ModeOf(ModeName(m)) == Some(m)
  {
  }

  /** `ow_mode(arg)`: the mode named by `arg` in any case, or NotFound. */
  function OwMode(arg: string): (r: Result<Mode, string>)
    ensures r.Ok? <==> ModeOf(Lower(arg)).Some?
    ensures r.Ok? ==> r.value == ModeOf(Lower(arg)).value
    ensures r.Err? ==> r.error == arg + " is not a valid mode."
  {
    match ModeOf(Lower(arg))
    case Some(m) => Ok(m)
    case None => Err(arg + " is not a valid mode.")
  }

  /** `ow_mode` ignores case: an argument and its lower-case form give the same mode. */
  lemma OwModeCaseInsensitive(arg: string)
    ensures OwMode(Lower(arg)).Ok? == OwMode(arg).Ok?
    ensures OwMode(arg).Ok? ==> OwMode(Lower(arg)) == OwMode(arg)
  {
    LowerIdempotent(arg);
  }

  lemma LowerIdempotent(s: string)
    ensures Lower(Lower(s)) == Lower(s)
  {
  }

  const Platforms := ["pc", "xbl", "psn"]
  const Regions := ["us", "eu", "kr"]

  /** A `fix_arg_order` argument: `None`, a `Mode` value, or a text token. */
  datatype Arg = Missing | ModeValue(mode: Mode) | Token(text: string)

  /** The four results `fix_arg_order` fills in. */
  datatype Slot = TagSlot | ModeSlot | RegionSlot | PlatformSlot

  /**
   * Where one argument goes, and with what text: a `#` or `@` makes a
   * tag (kept as typed); otherwise the lower-cased text is a region, a
   * platform or a mode name, in that order of preference, or nothing.
   */
  function Classify(a: Arg): Option<(Slot, string)> {
    match a
    case Missing => None
    case ModeValue(_) => None
    case Token(s) =>
      var lower := Lower(s);
      if '#' in s || '@' in s then Some((TagSlot, s))
      else if lower in Regions then Some((RegionSlot, lower))
      else if lower in Platforms then Some((PlatformSlot, lower))
      else if ModeOf(lower).Some? then Some((ModeSlot, lower))
      else None
  }

  predicate Fills(a: Arg, slot: Slot) {
    Classify(a).Some? && Classify(a).value.0 == slot
  }

  /** The text of the last argument that goes to `slot`. */
  function LastIn(args: seq<Arg>, slot: Slot): (r: Option<string>)
  {
    if |args| == 0 then None
    else if Fills(args[|args| - 1], slot) then Some(Classify(args[|args| - 1]).value.1)
    else LastIn(args[..|args| - 1], slot)
  }

  /** Arguments that do not fill `slot` leave it as it was. */
  lemma {:induction false} LastInSkip(p: seq<Arg>, b: seq<Arg>, slot: Slot)
    requires forall k :: 0 <= k < |b| ==> !Fills(b[k], slot)
    ensures LastIn(p + b, slot) == LastIn(p, slot)
  {
    if |b| > 0 {
      var s := p + b;
      assert s[|s| - 1] == b[|b| - 1];
      assert s[..|s| - 1] == p + b[..|b| - 1];
      LastInSkip(p, b[..|b| - 1], slot);
    } else {
      assert p + b == p;
    }
  }

  /**
   * `fix_arg_order(*args)`: one pass over the arguments in which a later
   * argument of a kind replaces an earlier one.
   */
  method FixArgOrder(args: seq<Arg>) returns (tag: string, mode: Option<string>, region: Option<string>, platform: Option<string>)
    ensures tag == LastIn(args, TagSlot).GetOr("")
    ensures mode == LastIn(args, ModeSlot)
    ensures region == LastIn(args, RegionSlot)
    ensures platform == LastIn(args, PlatformSlot)
  {
    tag, mode, region, platform := "", None, None, None;
    var i := 0;
    while i < |args|
      invariant 0 <= i <= |args|
      invariant tag == LastIn(args[..i], TagSlot).GetOr("")
      invariant mode == LastIn(args[..i], ModeSlot)
      invariant region == LastIn(args[..i], RegionSlot)
      invariant platform == LastIn(args[..i], PlatformSlot)
    {
      LastInSnoc(args, i);
      match Classify(args[i]) {
        case None =>
        case Some((slot, text)) =>
          match slot {
            case TagSlot => tag := text;
            case RegionSlot => region := Some(text);
            case PlatformSlot => platform := Some(text);
            case ModeSlot => mode := Some(text);
          }
      }
      i := i + 1;
    }
    assert args[..i] == args;
  }

  /** One more argument changes only the slot it fills. */
  lemma LastInSnoc(args: seq<Arg>, i: nat)
    requires i < |args|
    ensures forall slot ::
      LastIn(args[..i + 1], slot) == if Fills(args[i], slot) then Some(Classify(args[i]).value.1) else LastIn(args[..i], slot)
  {
    assert args[..i + 1][..i] == args[..i];
  }

  /**
   * Two neighbouring arguments that do not both fill `slot` can be swapped
   * without changing what `slot` gets: with one argument per kind the order
   * of the arguments does not matter.
   */
  lemma {:induction false} LastInSwap(a: seq<Arg>, x: Arg, y: Arg, b: seq<Arg>, slot: Slot)
    requires !(Fills(x, slot) && Fills(y, slot))
    ensures LastIn(a + [x, y] + b, slot) == LastIn(a + [y, x] + b, slot)
    decreases |b|
  {
    var s, t := a + [x, y] + b, a + [y, x] + b;
    if |b| == 0 {
      assert s[..|s| - 1] == a + [x] && t[..|t| - 1] == a + [y];
      assert (a + [x])[..|a|] == a && (a + [y])[..|a|] == a;
    } else {
      var b' := b[..|b| - 1];
      assert s[..|s| - 1] == a + [x, y] + b';
      assert t[..|t| - 1] == a + [y, x] + b';
      LastInSwap(a, x, y, b', slot);
    }
  }

  /** With a single tag token, the tag is that token whatever its position. */
  lemma FixArgTagAnywhere(a: seq<Arg>, t: string, b: seq<Arg>)
    requires '#' in t
    requires forall k :: 0 <= k < |a| ==> !Fills(a[k], TagSlot)
    requires forall k :: 0 <= k < |b| ==> !Fills(b[k], TagSlot)
    ensures LastIn(a + [Token(t)] + b, TagSlot) == Some(t)
  {
    var p := a + [Token(t)];
    assert p[|p| - 1] == Token(t);
    assert Classify(Token(t)) == Some((TagSlot, t));
    assert LastIn(p, TagSlot) == Some(t);
    LastInSkip(p, b, TagSlot);
  }

  /**
   * `mention_id(mention)`: the id of `<@id>` or `<@!id>`. Python's `$` also
   * matches before one final newline.
   */
  function MentionId(mention: string): (r: Option<nat>)
  {
    var t := if |mention| > 0 && mention[|mention| - 1] == '\n' then mention[..|mention| - 1] else mention;
    if |t| >= 3 && t[..2] == "<@" && t[|t| - 1] == '>' then
      var inner := t[2..|t| - 1];
      var digits := if |inner| > 0 && inner[0] == '!' then inner[1..] else inner;
      if AllDigits(digits) then Some(DigitsValue(digits)) else None
    else None
  }

  /** A final newline does not change what a mention reads as. */
  lemma MentionIdNewline(core: string)
    requires |core| > 0 && core[|core| - 1] == '>'
    ensures MentionId(core + "\n") == MentionId(core)
  {
    var m := core + "\n";
    assert m[..|m| - 1] == core;
  }

  /** `<@digits>` and `<@!digits>` read as the value of the digits. */
  lemma MentionIdDigits(prefix: string, d: string)
    requires prefix == "" || prefix == "!"
    requires AllDigits(d)
    ensures MentionId("<@" + prefix + d + ">") == Some(DigitsValue(d))
  {
    var inner := prefix + d;
    var core := "<@" + inner + ">";
    assert "<@" + prefix + d + ">" == core;
    assert |core| >= 3 && core[|core| - 1] == '>' && core[..2] == "<@";
    assert core[2..|core| - 1] == inner;
    var digits := if |inner| > 0 && inner[0] == '!' then inner[1..] else inner;
    assert digits == d by {
      if prefix == "!" {
        assert inner[1..] == d;
      } else {
        assert inner == d;
      }
    }
  }

  /** A mention written from an id reads back that id, in each accepted form. */
  lemma MentionIdRoundTrip(n: nat, bang: bool, newline: bool)
    ensures MentionId("<@" + (if bang then "!" else "") + NatToString(n) + ">" + (if newline then "\n" else "")) == Some(n)
  {
    var d := NatToString(n);
    NatToStringRoundTrip(n);
    var prefix := if bang then "!" else "";
    var core := "<@" + prefix + d + ">";
    MentionIdDigits(prefix, d);
    if newline {
      MentionIdNewline(core);
    } else {
      assert core + "" == core;
    }
  }

  /** `string.punctuation` and the space. */
  predicate IsSymbol(c: char) {
    c == ' ' || 33 <= c as int <= 47 || 58 <= c as int <= 64 || 91 <= c as int <= 96 || 123 <= c as int <= 126
  }

  /** `validate_btag(btag)`. */
  predicate ValidateBtag(btag: string) {
    var split := Split(btag, '#');
    if |split| != 2 then false
    else
      var tag, disc := split[0], split[1];
      && 3 <= |tag| <= 12
      && (forall k :: 0 <= k < |tag| ==> !IsSymbol(tag[k]))
      && !IsDigit(tag[0])
      && AllDigits(disc)
  }

  /** `btag_to_api(btag)`: `name-disc`, or InvalidBTag. */
  function BtagToApi(btag: string): (r: Result<string, string>)
    ensures r.Err? ==> r.error == "Invalid BattleTag"
    ensures r.Ok? ==> |Split(btag, '#')| == 2 && r.value == Split(btag, '#')[0] + "-" + Split(btag, '#')[1]
  {
    var split := Split(btag, '#');
    if |split| != 2 then Err("Invalid BattleTag")
    else
      var tag, disc := split[0], split[1];
      if 3 <= |tag| <= 12 && (forall k :: 0 <= k < |tag| ==> !IsSymbol(tag[k])) && !IsDigit(tag[0]) && AllDigits(disc) then
        JoinTwo("-", tag, disc);
        Ok(Join("-", [tag, disc]))
      else Err("Invalid BattleTag")
  }

  /** The validator and the converter accept exactly the same BattleTags. */
  lemma ValidateIffConverts(btag: string)
    ensures ValidateBtag(btag) <==> BtagToApi(btag).Ok?
  {
  }

  /** `api_to_btag(tag)`: the last `-` becomes `#` (by reversing, replacing the first, reversing). */
  function ApiToBtag(tag: string): string {
    Reverse(ReplaceFirst(Reverse(tag), '-', "#"))
  }

  lemma ReverseAround(a: string, c: char, b: string)
    ensures Reverse(a + [c] + b) == Reverse(b) + [c] + Reverse(a)
  {
    var s := a + [c] + b;
    var r := Reverse(b) + [c] + Reverse(a);
    assert |Reverse(s)| == |r|;
    forall i | 0 <= i < |r|
      ensures Reverse(s)[i] == r[i]
    {
      if i < |b| {
        assert r[i] == Reverse(b)[i];
      } else if i > |b| {
        assert r[i] == Reverse(a)[i - |b| - 1];
      }
    }
  }

  /** Converting a valid BattleTag to its API form and back gives the BattleTag. */
  lemma BtagRoundTrip(btag: string)
    requires ValidateBtag(btag)
    ensures BtagToApi(btag).Ok? && ApiToBtag(BtagToApi(btag).value) == btag
  {
    var split := Split(btag, '#');
    var name, disc := split[0], split[1];
    SplitTwo(btag, '#');
    assert '-' !in disc by {
      assert forall k :: 0 <= k < |disc| ==> IsDigit(disc[k]);
    }
    assert '-' !in name by {
      assert forall k :: 0 <= k < |name| ==> !IsSymbol(name[k]);
    }
    var api := name + "-" + disc;
    JoinTwo("-", name, disc);
    assert BtagToApi(btag) == Ok(api);
    ReverseAround(name, '-', disc);
    var rev := Reverse(disc) + ['-'] + Reverse(name);
    assert '-' !in Reverse(disc);
    assert rev[..|disc|] == Reverse(disc);
    IndexOfAt(rev, '-', |disc|);
    assert rev[|disc| + 1..] == Reverse(name);
    assert ReplaceFirst(rev, '-', "#") == Reverse(disc) + ['#'] + Reverse(name);
    ReverseAround(Reverse(disc), '#', Reverse(name));
    ReverseReverse(name);
    ReverseReverse(disc);
  }

  lemma ReverseReverse(s: string)
    ensures Reverse(Reverse(s)) == s
  {
  }

  /** `ow_level(overall_stats)`: a hundred levels per prestige. */
  function OwLevel(prestige: int, level: int): int {
    prestige * 100 + level
  }

  /** A level below 100 and the prestige read back from the total. */
  lemma OwLevelSplit(prestige: nat, level: nat)
    requires level < 100
    ensures OwLevel(prestige, level) / 100 == prestige && OwLevel(prestige, level) % 100 == level
  {
  }

  /**
   * The text `time_str` builds for `h` hours and `m` minutes before it is
   * handed to `pluralize`.
   */
  function TimeParts(h: nat, m: nat): string {
    if h != 0 then NatToString(h) + " hour{}" + (if m != 0 then ", " + NatToString(m) + " minute{}" else "")
    else if m != 0 then NatToString(m) + " minute{}"
    else "<1 minute"
  }

  /** `time_str` on whole minutes: `divmod(minutes, 60)`, then the text. */
  function TimeTemplate(minutes: nat): string {
    TimeParts(minutes / 60, minutes % 60)
  }

  /** The split is exact: `h` hours and `m < 60` minutes give back `h` and `m`. */
  lemma TimeTemplateSplit(h: nat, m: nat)
    requires m < 60
    ensures TimeTemplate(h * 60 + m) == TimeParts(h, m)
  {
    DivMod60(h, m);
  }

  lemma DivMod60(h: nat, m: nat)
    requires m < 60
    ensures (h * 60 + m) / 60 == h && (h * 60 + m) % 60 == m
  {
  }

  /**
   * A part that is zero is left out: under an hour shows minutes only, whole
   * hours show hours only, and zero shows `<1 minute`.
   */
  lemma TimeTemplateCases(t: nat)
    ensures t == 0 ==> TimeTemplate(t) == "<1 minute"
    ensures 0 < t < 60 ==> TimeTemplate(t) == NatToString(t) + " minute{}"
    ensures t >= 60 && t % 60 == 0 ==> TimeTemplate(t) == NatToString(t / 60) + " hour{}"
    ensures t >= 60 && t % 60 != 0 ==>
      TimeTemplate(t) == NatToString(t / 60) + " hour{}, " + NatToString(t % 60) + " minute{}"
  {
  }

  /** A hero and its play time. */
  type Played = (string, nat)

  predicate SortedDesc(s: seq<Played>) {
    forall i, j :: 0 <= i < j < |s| ==> s[i].1 >= s[j].1
  }

  /** The entries of `s` with play time `v`, in order. */
  function WithTime(s: seq<Played>, v: nat): seq<Played> {
    if |s| == 0 then [] else (if s[0].1 == v then [s[0]] else []) + WithTime(s[1..], v)
  }

  /** Insert before the first entry that does not play longer. */
  function Insert(x: Played, s: seq<Played>): (r: seq<Played>)
    ensures |r| == |s| + 1
    ensures multiset(r) == multiset(s) + multiset{x}
  {
    if |s| == 0 then [x]
    else if s[0].1 <= x.1 then [x] + s
    else
      assert s == [s[0]] + s[1..];
      [s[0]] + Insert(x, s[1..])
  }

  /** `sorted(hero_dict.items(), key=..., reverse=True)`, a stable sort by play time. */
  function SortDesc(s: seq<Played>): (r: seq<Played>)
    ensures |r| == |s|
    ensures multiset(r) == multiset(s)
  {
    if |s| == 0 then []
    else
      assert s == [s[0]] + s[1..];
      Insert(s[0], SortDesc(s[1..]))
  }

  /** Inserting adds `x` and nothing else. */
  lemma {:induction false} InsertElems(x: Played, s: seq<Played>)
    ensures forall y :: y in Insert(x, s) ==> y == x || y in s
  {
    if |s| > 0 && s[0].1 > x.1 {
      InsertElems(x, s[1..]);
      assert forall y :: y in s[1..] ==> y in s;
    }
  }

  lemma {:induction false} InsertSorted(x: Played, s: seq<Played>)
    requires SortedDesc(s)
    ensures SortedDesc(Insert(x, s))
  {
    if |s| > 0 && s[0].1 > x.1 {
      var tail := s[1..];
      assert SortedDesc(tail);
      InsertSorted(x, tail);
      var r := Insert(x, tail);
      InsertElems(x, tail);
      forall k | 0 <= k < |r|
        ensures r[k].1 <= s[0].1
      {
        if r[k] != x {
          assert r[k] in tail;
          var j :| 0 <= j < |tail| && tail[j] == r[k];
          assert s[j + 1] == r[k];
        }
      }
      var out := [s[0]] + r;
      assert Insert(x, s) == out;
      forall i, j | 0 <= i < j < |out|
        ensures out[i].1 >= out[j].1
      {
        if i > 0 {
          assert out[i] == r[i - 1] && out[j] == r[j - 1];
        } else {
          assert out[j] == r[j - 1];
        }
      }
    }
  }

  lemma WithTimeConcat(a: seq<Played>, b: seq<Played>, v: nat)
    ensures WithTime(a + b, v) == WithTime(a, v) + WithTime(b, v)
  {
    if |a| > 0 {
      assert (a + b)[1..] == a[1..] + b;
      WithTimeConcat(a[1..], b, v);
    } else {
      assert a + b == b;
    }
  }

  lemma {:induction false} InsertWithTime(x: Played, s: seq<Played>, v: nat)
    ensures WithTime(Insert(x, s), v) == (if x.1 == v then [x] else []) + WithTime(s, v)
  {
    if |s| == 0 {
    } else if s[0].1 <= x.1 {
      WithTimeConcat([x], s, v);
    } else {
      InsertWithTime(x, s[1..], v);
      WithTimeConcat([s[0]], Insert(x, s[1..]), v);
      WithTimeConcat([s[0]], s[1..], v);
      assert s == [s[0]] + s[1..];
    }
  }

  /**
   * The sort orders by non-increasing play time, keeps every entry, and keeps
   * entries with equal play time in their input order.
   */
  lemma {:induction false} SortDescSpec(s: seq<Played>)
    ensures SortedDesc(SortDesc(s))
    ensures forall v :: WithTime(SortDesc(s), v) == WithTime(s, v)
  {
    if |s| > 0 {
      SortDescSpec(s[1..]);
      InsertSorted(s[0], SortDesc(s[1..]));
      forall v
        ensures WithTime(SortDesc(s), v) == WithTime(s, v)
      {
        InsertWithTime(s[0], SortDesc(s[1..]), v);
      }
    }
  }

  const Excluded := "overwatchguidundefined"

  /** The entries other than the placeholder hero, in order. */
  function Without(s: seq<Played>): (r: seq<Played>)
    ensures forall k :: 0 <= k < |r| ==> r[k].0 != Excluded && r[k] in s
  {
    if |s| == 0 then []
    else
      var rest := Without(s[..|s| - 1]);
      assert forall k :: 0 <= k < |rest| ==> rest[k] in s;
      rest + (if s[|s| - 1].0 != Excluded then [s[|s| - 1]] else [])
  }

  /**
   * `most_played(hero_dict)`: the heroes by non-increasing play time, ties
   * in input order, without the placeholder hero. The play times are given
   * as whole minutes; `time_str` is applied to each afterwards.
   */
  method MostPlayed(heroes: seq<Played>) returns (r: seq<Played>)
    ensures r == Without(SortDesc(heroes))
  {
    var sorted := SortDesc(heroes);
    r := [];
    var i := 0;
    while i < |sorted|
      invariant 0 <= i <= |sorted|
      invariant r == Without(sorted[..i])
    {
      assert sorted[..i + 1][..i] == sorted[..i];
      var (hero, played) := sorted[i];
      if hero != Excluded {
        r := r + [(hero, played)];
      }
      i := i + 1;
    }
    assert sorted[..i] == sorted;
  }

  lemma {:induction false} WithoutSorted(s: seq<Played>)
    requires SortedDesc(s)
    ensures SortedDesc(Without(s))
  {
    if |s| > 0 {
      var p := s[..|s| - 1];
      assert SortedDesc(p);
      WithoutSorted(p);
      var w := Without(p);
      assert forall k :: 0 <= k < |w| ==> w[k] in p;
    }
  }

  /** The most-played list is in non-increasing order of play time and skips only the placeholder. */
  lemma MostPlayedOrdered(heroes: seq<Played>)
    ensures SortedDesc(Without(SortDesc(heroes)))
    ensures forall h :: h in heroes && h.0 != Excluded ==> h in Without(SortDesc(heroes))
  {
    SortDescSpec(heroes);
    WithoutSorted(SortDesc(heroes));
    forall h | h in heroes && h.0 != Excluded
      ensures h in Without(SortDesc(heroes))
    {
      var s := SortDesc(heroes);
      assert h in multiset(s);
      WithoutKeeps(s, h);
    }
  }

  lemma {:induction false} WithoutKeeps(s: seq<Played>, h: Played)
    requires h in s && h.0 != Excluded
    ensures h in Without(s)
  {
    if s[|s| - 1] != h {
      assert h in s[..|s| - 1] by {
        var k :| 0 <= k < |s| && s[k] == h;
        assert k < |s| - 1 && s[..|s| - 1][k] == h;
      }
      WithoutKeeps(s[..|s| - 1], h);
    }
  }

  /** The stored rows a command may consult. */
  datatype Db = Db(btagById: map<nat, string>, modeById: map<nat, string>, modeByTag: map<string, string>,
                   platformByTag: map<string, string>, regionByTag: map<string, string>)

  function Get<K, V>(m: map<K, V>, k: K): Option<V> {
    if k in m then Some(m[k]) else None
  }

  /** `get_platform`: the given platform, else the stored one, else `pc`. */
  function GetPlatform(platform: Option<string>, stored: Option<string>): (r: string)
    ensures platform.Some? ==> r == platform.value
    ensures platform.None? && stored.Some? ==> r == stored.value
    ensures platform.None? && stored.None? ==> r == "pc"
  {
    if platform.Some? then platform.value
    else if stored.None? then Platforms[0]
    else stored.value
  }

  /** The first region, in `REGIONS` order, that has data. */
  function FirstAvailable(available: set<string>): (r: Option<string>)
    ensures r.Some? ==> r.value in Regions && r.value in available
    ensures r.Some? ==> forall k :: 0 <= k < |Regions| && Regions[k] == r.value ==>
      forall j :: 0 <= j < k ==> Regions[j] !in available
    ensures r.None? <==> forall k :: 0 <= k < |Regions| ==> Regions[k] !in available
  {
    if "us" in available then Some("us")
    else if "eu" in available then Some("eu")
    else if "kr" in available then Some("kr")
    else None
  }

  /**
   * `get_region(tag, region, data)`: `available` is the set of regions whose
   * data is not null. A given region must have data and is lower-cased; with
   * none given the stored region wins, unchecked, then the first available.
   */
  function GetRegion(tag: string, region: Option<string>, available: set<string>, stored: Option<string>): (r: Result<string, string>)
    ensures region.Some? ==> (r.Ok? <==> Lower(region.value) in available)
    ensures region.Some? && r.Ok? ==> r.value == Lower(region.value)
    ensures region.Some? && r.Err? ==> r.error == ApiToBtag(tag) + " has not played in " + region.value + "."
    ensures region.None? && stored.Some? ==> r == Ok(stored.value)
    ensures region.None? && stored.None? ==>
      (r.Ok? <==> FirstAvailable(available).Some?) && (r.Ok? ==> r.value == FirstAvailable(available).value)
    ensures region.None? && stored.None? && r.Err? ==> r.error == ApiToBtag(tag) + " has not played Overwatch."
  {
    if region.Some? then
      if Lower(region.value) in available then Ok(Lower(region.value))
      else Err(ApiToBtag(tag) + " has not played in " + region.value + ".")
    else if stored.None? then
      match FirstAvailable(available)
      case Some(first) => Ok(first)
      case None => Err(ApiToBtag(tag) + " has not played Overwatch.")
    else Ok(stored.value)
  }

  /**
   * `get_tag(tag)`: a valid BattleTag in API form, else the stored tag of the
   * mentioned member or, without a (non-zero) mention, of the author.
   */
  function GetTag(tag: string, authorId: nat, db: Db): (r: Result<string, string>)
    ensures ValidateBtag(tag) ==> r == BtagToApi(tag)
    ensures !ValidateBtag(tag) && (MentionId(tag).None? || MentionId(tag).value == 0) ==>
      r == (if authorId in db.btagById then Ok(db.btagById[authorId]) else Err("Not in the db."))
    ensures !ValidateBtag(tag) && MentionId(tag).Some? && MentionId(tag).value != 0 ==>
      r == (if MentionId(tag).value in db.btagById then Ok(db.btagById[MentionId(tag).value]) else Err("Not in the db."))
  {
    if tag != "" && ValidateBtag(tag) then BtagToApi(tag)
    else
      var mentioned := MentionId(tag);
      var memberId := if mentioned.Some? && mentioned.value != 0 then mentioned.value else authorId;
      match Get(db.btagById, memberId)
      case None => Err("Not in the db.")
      case Some(t) => Ok(t)
  }

  /** `get_mode(btag_or_id)` on a stored name: the mode, none, or a KeyError. */
  function StoredMode(stored: Option<string>): Result<Option<Mode>, string> {
    match stored
    case None => Ok(None)
    case Some(name) =>
      match ModeOf(name)
      case Some(m) => Ok(Some(m))
      case None => Err("KeyError")
  }

  /**
   * `get_tag_mode(tag, mode)`: the tag first; then the given mode, else the
   * mode stored for the tag, else the one stored for the author, else
   * `Mode.default`, which is competitive.
   */
  function GetTagMode(tag: string, mode: Option<string>, authorId: nat, db: Db): (r: Result<(string, Mode), string>)
    ensures GetTag(tag, authorId, db).Err? ==> r == Err(GetTag(tag, authorId, db).error)
    ensures r.Ok? ==> r.value.0 == GetTag(tag, authorId, db).value
    ensures GetTag(tag, authorId, db).Ok? && mode.Some? ==>
      (r.Ok? <==> OwMode(mode.value).Ok?) && (r.Ok? ==> r.value.1 == OwMode(mode.value).value)
    ensures GetTag(tag, authorId, db).Ok? && mode.Some? && OwMode(mode.value).Err? ==> r == Err(OwMode(mode.value).error)
    ensures GetTag(tag, authorId, db).Ok? && mode.None? && GetTag(tag, authorId, db).value in db.modeByTag ==>
      var name := db.modeByTag[GetTag(tag, authorId, db).value];
      (r.Ok? <==> ModeOf(name).Some?) && (r.Ok? ==> r.value.1 == ModeOf(name).value) && (r.Err? ==> r == Err("KeyError"))
    ensures GetTag(tag, authorId, db).Ok? && mode.None? && GetTag(tag, authorId, db).value !in db.modeByTag && authorId in db.modeById ==>
      var name := db.modeById[authorId];
      (r.Ok? <==> ModeOf(name).Some?) && (r.Ok? ==> r.value.1 == ModeOf(name).value) && (r.Err? ==> r == Err("KeyError"))
    ensures GetTag(tag, authorId, db).Ok? && mode.None? && GetTag(tag, authorId, db).value !in db.modeByTag && authorId !in db.modeById ==>
      r.Ok? && r.value.1 == Competitive
  {
    match GetTag(tag, authorId, db)
    case Err(e) => Err(e)
    case Ok(t) =>
      if mode.Some? then
        match OwMode(mode.value)
        case Err(e) => Err(e)
        case Ok(m) => Ok((t, m))
      else
        match StoredMode(Get(db.modeByTag, t))
        case Err(e) => Err(e)
        case Ok(Some(m)) => Ok((t, m))
        case Ok(None) =>
          match StoredMode(Get(db.modeById, authorId))
          case Err(e) => Err(e)
          case Ok(Some(m)) => Ok((t, m))
          case Ok(None) => Ok((t, ModeOf("default").value))
  }

  /** With no mode given and none stored, the mode is competitive. */
  lemma DefaultModeCompetitive(tag: string, authorId: nat, db: Db)
    requires GetTag(tag, authorId, db).Ok?
    requires GetTag(tag, authorId, db).value !in db.modeByTag && authorId !in db.modeById
    ensures GetTagMode(tag, None, authorId, db) == Ok((GetTag(tag, authorId, db).value, Competitive))
  {
  }

  /** What the stats payload says about one region: whether the competitive stats and hero stats are non-empty. */
  datatype RegionData = RegionData(competitiveStats: bool, competitiveHeroStats: bool)

  /** The mode `get_all` reports: competitive falls back to quickplay when it has no stats at all. */
  function FallbackMode(mode: Mode, data: RegionData): (r: Mode)
    ensures mode == Quickplay ==> r == Quickplay
    ensures mode == Competitive ==> (r == Quickplay <==> !data.competitiveStats && !data.competitiveHeroStats)
  {
    if mode == Competitive && !data.competitiveStats && !data.competitiveHeroStats then Quickplay else mode
  }

  /** The regions whose data is not null. */
  function Available(data: map<string, Option<RegionData>>): set<string> {
    set k | k in data && data[k].Some?
  }

  datatype Resolved = Resolved(tag: string, mode: Mode, region: string, platform: string)

  /**
   * `get_all(tag, mode, reg, platform)` over a fetched payload `data` (region
   * name to its data, `None` for a null entry). A region without data is
   * reported as an error, where Python fails on indexing it.
   */
  function GetAll(tag: string, mode: Option<string>, reg: Option<string>, platform: Option<string>,
                  authorId: nat, db: Db, data: map<string, Option<RegionData>>): (r: Result<Resolved, string>)
    ensures r.Ok? ==> r.value.platform != "pc" ==> r.value.region == "any"
    ensures r.Ok? ==> r.value.region in data && data[r.value.region].Some?
    ensures r.Ok? ==>
      && GetTagMode(tag, mode, authorId, db).Ok?
      && r.value.tag == GetTagMode(tag, mode, authorId, db).value.0
      && r.value.mode == FallbackMode(GetTagMode(tag, mode, authorId, db).value.1, data[r.value.region].value)
    ensures GetTagMode(tag, mode, authorId, db).Err? ==> r == Err(GetTagMode(tag, mode, authorId, db).error)
    ensures r.Ok? ==> r.value.platform == GetPlatform(platform, Get(db.platformByTag, r.value.tag))
    ensures r.Ok? && r.value.platform == "pc" ==>
      GetRegion(r.value.tag, reg, Available(data), Get(db.regionByTag, r.value.tag)) == Ok(r.value.region)
    ensures GetTagMode(tag, mode, authorId, db).Ok? ==>
      var t := GetTagMode(tag, mode, authorId, db).value.0;
      var region := GetRegion(t, reg, Available(data), Get(db.regionByTag, t));
      GetPlatform(platform, Get(db.platformByTag, t)) == "pc" && region.Err? ==> r == Err(region.error)
    ensures GetTagMode(tag, mode, authorId, db).Ok? ==>
      var (t, m) := GetTagMode(tag, mode, authorId, db).value;
      var p := GetPlatform(platform, Get(db.platformByTag, t));
      var region := if p == "pc" then GetRegion(t, reg, Available(data), Get(db.regionByTag, t)) else Ok("any");
      region.Ok? ==>
        if region.value in data && data[region.value].Some? then r == Ok(Resolved(t, FallbackMode(m, data[region.value].value), region.value, p))
        else r.Err?
  {
    match GetTagMode(tag, mode, authorId, db)
    case Err(e) => Err(e)
    case Ok((t, m)) =>
      var p := GetPlatform(platform, Get(db.platformByTag, t));
      var available := Available(data);
      var region :=
        if p == "pc" then GetRegion(t, reg, available, Get(db.regionByTag, t))
        else Ok("any");
      match region
      case Err(e) => Err(e)
      case Ok(rg) =>
        if rg in data && data[rg].Some? then Ok(Resolved(t, FallbackMode(m, data[rg].value), rg, p))
        else Err("No stats for region " + rg + ".")
  }
}
