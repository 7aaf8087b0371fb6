/**
 * The Smash match records: arena ids, the fighter-name trigram search, the
 * per-player bookkeeping of fighters played, rounds won and fighters banned,
 * and the game that holds the players of one match.
 *
 * A player's `wins` is a list of round indices into `fighters`. Playing,
 * winning and undoing keep those indices distinct and inside `fighters`, and
 * keep each won round pointing at the fighter it was won with.
 */
module SmashModels {
  import opened Wrappers
  import opened Text

  /** A roster fighter, or one of the two placeholders `-` and `???`. */
  datatype Fighter = Real(name: string) | Fake(name: string)

  /** The `-` placeholder: an empty round. */
  const Filler := Fake("-")

  /** Only the `-` placeholder gives way to a later pick for its round. */
  predicate ReplaceOnInsert(f: Fighter) { f == Filler }

  /** `FakeFighter(val)`: one of the two placeholders, or ValueError. */
  function FakeFighterOf(val: string): (r: Result<Fighter, string>)
    ensures r.Ok? <==> val == "-" || val == "???"
    ensures r.Ok? ==> r.value == Fake(val) && (ReplaceOnInsert(r.value) <==> val == "-")
    ensures r.Err? ==> r.error == "Argument must be one of (-, ???)"
  {
    if val == "-" || val == "???" then Ok(Fake(val)) else Err("Argument must be one of (-, ???)")
  }

  // ---------------------------------------------------------------- arena ids

  /**
   * A character of `[0-9A-HJ-NP-Y]` under case-insensitive matching: the
   * digits, the listed capitals and their lower-case forms, and the two
   * non-ASCII letters Python folds onto them, the long s and the Kelvin sign.
   */
  predicate ArenaChar(c: char) {
    || IsDigit(c)
    || 'A' <= c <= 'H' || 'J' <= c <= 'N' || 'P' <= c <= 'Y'
    || 'a' <= c <= 'h' || 'j' <= c <= 'n' || 'p' <= c <= 'y'
    || c == '\U{017F}' || c == '\U{212A}'
  }

  /** `str.upper` on the characters an arena id may hold. */
  function ArenaUpper(c: char): char {
    if c == '\U{017F}' then 'S' else UpperChar(c)
  }

  /** The text `$` matches up to: all of it, or all but one final newline. */
  function ArenaBody(arg: string): string {
    if |arg| == 6 && arg[5] == '\n' then arg[..5] else arg
  }

  /** `^[0-9A-HJ-NP-Y]{5}$`: five such characters, and `$` also allows one final newline. */
  predicate ArenaMatch(arg: string) {
    |ArenaBody(arg)| == 5 && forall k :: 0 <= k < 5 ==> ArenaChar(ArenaBody(arg)[k])
  }

  /** `arena_id(arg)`: the id upper-cased, or ValueError. */
  function ArenaId(arg: string): (r: Result<string, string>)
    ensures r.Ok? <==> ArenaMatch(arg)
    ensures r.Ok? ==> |r.value| == |arg| && forall k :: 0 <= k < |arg| ==> r.value[k] == ArenaUpper(arg[k])
    ensures r.Err? ==> r.error == arg + " is not a valid Arena ID."
  {
    if ArenaMatch(arg) then Ok(seq(|arg|, k requires 0 <= k < |arg| => ArenaUpper(arg[k])))
    else Err(arg + " is not a valid Arena ID.")
  }

  /** An accepted id is upper case, and accepting it again changes nothing. */
  lemma ArenaIdIdempotent(arg: string)
    requires ArenaId(arg).Ok?
    ensures forall k :: 0 <= k < |ArenaId(arg).value| ==> !IsAsciiLower(ArenaId(arg).value[k])
    ensures ArenaId(ArenaId(arg).value) == ArenaId(arg)
  {
    var v := ArenaId(arg).value;
    var t := ArenaBody(arg);
    assert forall k :: 0 <= k < 5 ==> ArenaChar(arg[k]) by {
      assert forall k :: 0 <= k < 5 ==> t[k] == arg[k];
    }
    assert forall k :: 0 <= k < 5 ==> ArenaChar(v[k]);
    assert |v| == 6 ==> v[5] == '\n';
    var tv := ArenaBody(v);
    assert forall k :: 0 <= k < 5 ==> tv[k] == v[k];
    assert ArenaMatch(v);
    assert forall k :: 0 <= k < |v| ==> ArenaUpper(v[k]) == v[k];
    assert ArenaId(v).value == v;
  }

  // ------------------------------------------------------------- trigrams

  /** A character of `\w`: ASCII letters, digits and `_`; every non-ASCII character counts as one. */
  predicate IsWordChar(c: char) {
    IsAsciiLetter(c) || IsDigit(c) || c == '_' || c as int >= 128
  }

  function SepCount(s: string): (n: nat)
    ensures n <= |s| && (n < |s| ==> IsWordChar(s[n]))
  {
    if |s| > 0 && !IsWordChar(s[0]) then 1 + SepCount(s[1..]) else 0
  }

  function RunCount(s: string): (n: nat)
    ensures n <= |s| && forall k :: 0 <= k < n ==> IsWordChar(s[k])
    ensures |s| > 0 && IsWordChar(s[0]) ==> n > 0
  {
    if |s| > 0 && IsWordChar(s[0]) then 1 + RunCount(s[1..]) else 0
  }

  /**
   * The non-empty pieces of `re.split(r'\W+', s)`: the maximal runs of word
   * characters, left to right.
   */
  function Words(s: string): (ws: seq<string>)
    ensures forall i :: 0 <= i < |ws| ==> |ws[i]| > 0 && forall k :: 0 <= k < |ws[i]| ==> IsWordChar(ws[i][k])
    decreases |s|
  {
    var t := s[SepCount(s)..];
    if |t| == 0 then []
    else
      var n := RunCount(t);
      [t[..n]] + Words(t[n..])
  }

  /** Each word is padded with two spaces in front and one behind. */
  function Pad(w: string): string { "  " + w + " " }

  /** The slices `w[y:y + n]` for every start `y < x`. */
  function Slices(w: string, n: nat, x: nat): (r: set<string>)
    requires x > 0 ==> x - 1 + n <= |w|
    ensures forall g :: g in r ==> |g| == n
  {
    if x == 0 then {} else Slices(w, n, x - 1) + {w[x - 1..x - 1 + n]}
  }

  /** The number of slices of length `n` a word of that length has. */
  function SliceCount(w: string, n: nat): (c: nat)
    ensures c > 0 ==> c - 1 + n <= |w|
  {
    if |w| - n + 1 > 0 then |w| - n + 1 else 0
  }

  lemma {:induction false} SlicesHas(w: string, n: nat, x: nat, y: nat)
    requires x > 0 ==> x - 1 + n <= |w|
    requires y < x
    ensures w[y..y + n] in Slices(w, n, x)
  {
    if y < x - 1 {
      SlicesHas(w, n, x - 1, y);
    }
  }

  /** The slices of length `n` of one padded word. */
  function WordGrams(w: string, n: nat): set<string> {
    Slices(w, n, SliceCount(w, n))
  }

  function GramsOf(ws: seq<string>, n: nat): set<string> {
    if |ws| == 0 then {} else GramsOf(ws[..|ws| - 1], n) + WordGrams(Pad(ws[|ws| - 1]), n)
  }

  /** The n-grams of a text: those of its lower-cased words, each padded. */
  function Ngrams(text: string, n: nat): set<string> {
    if text == "" then {} else GramsOf(Words(Lower(text)), n)
  }

  /** `find_ngrams(text, number)`, one word and one slice at a time. */
  method FindNgrams(text: string, number: nat) returns (ngrams: set<string>)
    ensures ngrams == Ngrams(text, number)
    ensures text == "" ==> ngrams == {}
  {
    if text == "" {
      return {};
    }
    var words := Words(Lower(text));
    ngrams := {};
    var i := 0;
    while i < |words|
      invariant 0 <= i <= |words|
      invariant ngrams == GramsOf(words[..i], number)
    {
      var word := Pad(words[i]);
      var stop := SliceCount(word, number);
      ghost var before := ngrams;
      var x := 0;
      while x < stop
        invariant 0 <= x <= stop
        invariant ngrams == before + Slices(word, number, x)
      {
        SlicesStep(before, word, number, x);
        ngrams := ngrams + {word[x..x + number]};
        x := x + 1;
      }
      GramsOfSnoc(words, i, number);
      i := i + 1;
    }
    assert words[..i] == words;
  }

  lemma SlicesStep(acc: set<string>, w: string, n: nat, x: nat)
    requires x + n <= |w|
    ensures acc + Slices(w, n, x) + {w[x..x + n]} == acc + Slices(w, n, x + 1)
  {
  }

  lemma GramsOfSnoc(ws: seq<string>, i: nat, n: nat)
    requires i < |ws|
    ensures GramsOf(ws[..i + 1], n) == GramsOf(ws[..i], n) + WordGrams(Pad(ws[i]), n)
  {
    assert ws[..i + 1][..i] == ws[..i];
  }

  lemma {:induction false} GramsOfLength(ws: seq<string>, n: nat)
    ensures forall g :: g in GramsOf(ws, n) ==> |g| == n
  {
    if |ws| > 0 {
      GramsOfLength(ws[..|ws| - 1], n);
      var w := Pad(ws[|ws| - 1]);
      assert forall g :: g in WordGrams(w, n) ==> |g| == n;
    }
  }

  lemma {:induction false} GramsOfHas(ws: seq<string>, n: nat, k: nat)
    requires k < |ws|
    ensures WordGrams(Pad(ws[k]), n) <= GramsOf(ws, n)
  {
    if k < |ws| - 1 {
      GramsOfHas(ws[..|ws| - 1], n, k);
    }
  }

  /** Every n-gram has length `n`. */
  lemma NgramsLength(text: string, n: nat)
    ensures forall g :: g in Ngrams(text, n) ==> |g| == n
  {
    if text != "" {
      GramsOfLength(Words(Lower(text)), n);
    }
  }

  /** A padded word's first trigram is two spaces and its first letter; its last ends in the space. */
  lemma PadGrams(w: string)
    requires |w| > 0
    ensures "  " + [w[0]] in WordGrams(Pad(w), 3)
    ensures Pad(w)[|w|..] in WordGrams(Pad(w), 3)
  {
    var p := Pad(w);
    assert |p| == |w| + 3;
    assert p[0..3] == "  " + [w[0]];
    assert SliceCount(p, 3) == |w| + 1;
    SlicesHas(p, 3, |w| + 1, 0);
    SlicesHas(p, 3, |w| + 1, |w|);
    assert p[|w|..] == p[|w|..|w| + 3];
  }

  /** The padding shows: each word gives the trigram of two spaces and its first letter, and one ending in a space. */
  lemma NgramsPadding(text: string, w: string)
    requires text != "" && w in Words(Lower(text))
    ensures "  " + [w[0]] in Ngrams(text, 3) && Pad(w)[|w|..] in Ngrams(text, 3)
  {
    var ws := Words(Lower(text));
    var k :| 0 <= k < |ws| && ws[k] == w;
    GramsOfHas(ws, 3, k);
    PadGrams(w);
  }

  /** `compare_ngrams(a, b)`: shared n-grams over all n-grams; ZeroDivisionError when both are empty. */
  function Similarity(a: set<string>, b: set<string>): (r: Option<real>)
    ensures r.None? <==> a == {} && b == {}
    ensures r.Some? ==> 0.0 <= r.value <= 1.0
    ensures r.Some? && a == b ==> r.value == 1.0
    ensures r.Some? && a * b == {} ==> r.value == 0.0
  {
    var unique, equal := |a + b|, |a * b|;
    CommonBound(a, b);
    if unique == 0 then None
    else
      RatioBound(equal, unique);
      assert a == b ==> a * b == a + b;
      Some(equal as real / unique as real)
  }

  /** A share of a non-zero whole lies in [0, 1]. */
  lemma RatioBound(part: nat, whole: nat)
    requires 0 < whole && part <= whole
    ensures 0.0 <= part as real / whole as real <= 1.0
    ensures part == whole ==> part as real / whole as real == 1.0
    ensures part == 0 ==> part as real / whole as real == 0.0
  {
    var q := part as real / whole as real;
    assert q * whole as real == part as real;
  }

  lemma CommonBound(a: set<string>, b: set<string>)
    ensures |a * b| <= |a + b|
    ensures |a + b| == 0 <==> a == {} && b == {}
  {
    var x, y := a * b, (a + b) - (a * b);
    assert x + y == a + b;
    assert x * y == {};
    if a != {} {
      var e :| e in a;
      assert e in a + b;
    }
  }

  /** The similarity does not depend on the order of its arguments. */
  lemma SimilaritySymmetric(a: set<string>, b: set<string>)
    ensures Similarity(a, b) == Similarity(b, a)
  {
    assert a + b == b + a && a * b == b * a;
  }

  /** Python's `max` with a key: the first position holding the largest value. */
  function FirstMax(xs: seq<real>): (i: nat)
    requires |xs| > 0
    ensures i < |xs|
    ensures forall j :: 0 <= j < |xs| ==> xs[j] <= xs[i]
    ensures forall j :: 0 <= j < i ==> xs[j] < xs[i]
  {
    if |xs| == 1 then 0
    else
      var k := FirstMax(xs[..|xs| - 1]);
      if xs[|xs| - 1] > xs[k] then |xs| - 1 else k
  }

  /** How close roster name `name` is to the typed `query`. */
  function Closeness(query: string, name: string): (r: Option<real>)
    ensures r.Some? ==> 0.0 <= r.value <= 1.0
  {
    Similarity(Ngrams(name, 3), Ngrams(query, 3))
  }

  predicate Defined(query: string, roster: seq<string>) {
    forall j :: 0 <= j < |roster| ==> Closeness(query, roster[j]).Some?
  }

  function Sims(query: string, roster: seq<string>): (s: seq<real>)
    requires Defined(query, roster)
    ensures |s| == |roster| && forall j :: 0 <= j < |roster| ==> Closeness(query, roster[j]) == Some(s[j])
  {
    seq(|roster|, j requires 0 <= j < |roster| => Closeness(query, roster[j]).value)
  }

  /**
   * `Fighter.get_closest(query)` over the roster names in registration order:
   * the position of the first most similar name, failing when nothing is
   * similar at all.
   */
  function GetClosest(query: string, roster: seq<string>): (r: Result<nat, string>)
    ensures r.Ok? ==> (
      && r.value < |roster|
      && (forall j :: 0 <= j < |roster| ==> Closeness(query, roster[j]).Some?)
      && Closeness(query, roster[r.value]).value > 0.0
      && (forall j :: 0 <= j < |roster| ==> Closeness(query, roster[j]).value <= Closeness(query, roster[r.value]).value)
      && (forall j :: 0 <= j < r.value ==> Closeness(query, roster[j]).value < Closeness(query, roster[r.value]).value))
    ensures r == Err(query + " is not a valid fighter.") <==>
      |roster| > 0 && forall j :: 0 <= j < |roster| ==> Closeness(query, roster[j]) == Some(0.0)
  {
    if !Defined(query, roster) then Err("ZeroDivisionError")
    else if |roster| == 0 then Err("ValueError")
    else
      var sims := Sims(query, roster);
      var best := FirstMax(sims);
      if sims[best] == 0.0 then Err(query + " is not a valid fighter.")
      else Ok(best)
  }

  // ------------------------------------------------------------ a player's rounds

  /** Round indices that are distinct and inside a list of `n` fighters. */
  predicate WinsValid(n: int, ws: seq<int>) {
    && (forall i :: 0 <= i < |ws| ==> 0 <= ws[i] < n)
    && (forall i, j :: 0 <= i < j < |ws| ==> ws[i] != ws[j])
  }

  function Fillers(n: nat): (s: seq<Fighter>)
    ensures |s| == n && forall k :: 0 <= k < n ==> s[k] == Filler
  {
    seq(n, _ => Filler)
  }

  /** The fighters after `play` has padded them with empty rounds up to round `r`. */
  function PadTo(fs: seq<Fighter>, r: nat): (p: seq<Fighter>)
    ensures |p| == if r < |fs| then |fs| else r + 1
    ensures p[..|fs|] == fs && forall k :: |fs| <= k < |p| ==> p[k] == Filler
  {
    if r < |fs| then fs else fs + Fillers(r + 1 - |fs|)
  }

  function ShiftUp(ws: seq<int>, r: int): (s: seq<int>)
    ensures |s| == |ws| && forall i :: 0 <= i < |ws| ==> s[i] == if ws[i] >= r then ws[i] + 1 else ws[i]
  {
    seq(|ws|, i requires 0 <= i < |ws| => if ws[i] >= r then ws[i] + 1 else ws[i])
  }

  function ShiftDown(ws: seq<int>, r: int): (s: seq<int>)
    ensures |s| == |ws| && forall i :: 0 <= i < |ws| ==> s[i] == if ws[i] >= r then ws[i] - 1 else ws[i]
  {
    seq(|ws|, i requires 0 <= i < |ws| => if ws[i] >= r then ws[i] - 1 else ws[i])
  }

  /** `list.remove(x)` and `deque.remove(x)`: drop the first occurrence, if any. */
  function RemoveFirst<T(==)>(s: seq<T>, x: T): (r: seq<T>)
  {
    if |s| == 0 then []
    else if s[0] == x then s[1..]
    else [s[0]] + RemoveFirst(s[1..], x)
  }

  /** Removing takes away exactly one copy of `x` when there is one, and nothing else. */
  lemma {:induction false} RemoveFirstMultiset<T>(s: seq<T>, x: T)
    ensures multiset(RemoveFirst(s, x)) == multiset(s) - multiset{x}
    ensures |RemoveFirst(s, x)| == if x in s then |s| - 1 else |s|
  {
    if |s| > 0 {
      assert s == [s[0]] + s[1..];
      if s[0] != x {
        RemoveFirstMultiset(s[1..], x);
      }
    }
  }

  lemma {:induction false} RemoveFirstKeeps<T>(s: seq<T>, x: T, y: T)
    requires y != x
    ensures y in RemoveFirst(s, x) <==> y in s
  {
    RemoveFirstMultiset(s, x);
    assert y in multiset(RemoveFirst(s, x)) <==> y in multiset(s);
  }

  /** Python's `xs[r]` on a list of length `n`: the position it reads, or None for IndexError. */
  function PyIndex(r: int, n: nat): (k: Option<nat>)
    ensures k.Some? <==> 0 <= n + r && r < n
    ensures k.Some? ==> k.value < n && (r >= 0 ==> k.value == r) && (r < 0 ==> k.value == n + r)
  {
    if 0 <= r < n then Some(r) else if 0 <= n + r && r < 0 then Some(n + r) else None
  }

  /** The fighters `play` indexes: padded up to a round at or past the end, untouched otherwise. */
  function PaddedFor(fs: seq<Fighter>, r: int): seq<Fighter> {
    if r >= 0 then PadTo(fs, r) else fs
  }

  /**
   * The fighters and wins after `play(f, round)` as written, or None where
   * indexing the round raises IndexError. When the pick is inserted, the
   * wins are compared with the round as given, so at a negative round every
   * win moves up, whichever round the pick actually lands on.
   */
  function PlayedState(fs: seq<Fighter>, ws: seq<int>, f: Fighter, roundNum: Option<int>): Option<(seq<Fighter>, seq<int>)> {
    match roundNum
    case None => Some((fs + [f], ws))
    case Some(r) =>
      var p := PaddedFor(fs, r);
      match PyIndex(r, |p|)
      case None => None
      case Some(k) =>
        if ReplaceOnInsert(p[k]) then Some((p[k := f], ws))
        else Some((p[..k] + [f] + p[k..], ShiftUp(ws, r)))
  }

  /** `play(f, round)` with the wins moved up from the round the pick lands on. */
  function PlayedStateFixed(fs: seq<Fighter>, ws: seq<int>, f: Fighter, roundNum: Option<int>): Option<(seq<Fighter>, seq<int>)> {
    match roundNum
    case None => Some((fs + [f], ws))
    case Some(r) =>
      var p := PaddedFor(fs, r);
      match PyIndex(r, |p|)
      case None => None
      case Some(k) =>
        if ReplaceOnInsert(p[k]) then Some((p[k := f], ws))
        else Some((p[..k] + [f] + p[k..], ShiftUp(ws, k)))
  }

  /**
   * `p 0 name` reaches `play(f, -1)`: the pick goes in before the last round,
   * and the win for round 0 moves to round 1, which another fighter holds.
   * Moving the wins from the landing round keeps the win on round 0.
   */
  lemma PlayNegativeShifts(fs: seq<Fighter>, f: Fighter)
    requires |fs| >= 3 && !ReplaceOnInsert(fs[|fs| - 1]) && fs[0] != fs[1]
    ensures PlayedState(fs, [0], f, Some(-1)).Some?
    ensures var (fs', ws') := PlayedState(fs, [0], f, Some(-1)).value;
      && fs' == fs[..|fs| - 1] + [f, fs[|fs| - 1]]
      && ws' == [1] && fs'[ws'[0]] == fs[1] && fs'[ws'[0]] != fs[0]
    ensures PlayedStateFixed(fs, [0], f, Some(-1)) == Some((fs[..|fs| - 1] + [f, fs[|fs| - 1]], [0]))
  {
    var n := |fs|;
    assert PyIndex(-1, n) == Some(n - 1);
    var fs' := fs[..n - 1] + [f] + fs[n - 1..];
    assert fs[n - 1..] == [fs[n - 1]];
    assert fs' == fs[..n - 1] + [f, fs[n - 1]];
    assert fs'[1] == fs[1];
    assert ShiftUp([0], -1) == [1];
    assert ShiftUp([0], n - 1) == [0];
  }

  /** Whether `win(round)` succeeds, and the wins after it. */
  function WonState(fs: seq<Fighter>, ws: seq<int>, roundNum: Option<int>): (bool, seq<int>)
    requires fs != [] && roundNum.Some? ==> 0 <= roundNum.value < |fs|
  {
    if fs == [] then (false, ws)
    else
      var t := if roundNum.Some? then roundNum.value else |fs| - 1;
      if t in ws then (false, ws) else (true, ws + [t])
  }

  /** The action `undo` takes: with no round and an unwon last round, a plain undo removes the pick. */
  function UndoAction(fs: seq<Fighter>, ws: seq<int>, action: Option<string>, roundNum: Option<int>): Option<string>
    requires fs != []
  {
    if roundNum.None? && action.None? && |fs| - 1 !in ws then Some("play") else action
  }

  /** Whether `undo(action, round)` succeeds, and the fighters and wins after it. */
  function UndoneState(fs: seq<Fighter>, ws: seq<int>, action: Option<string>, roundNum: Option<int>): (bool, seq<Fighter>, seq<int>)
    requires fs != [] && roundNum.Some? && action == Some("play") ==> 0 <= roundNum.value < |fs|
  {
    if fs == [] then (false, fs, ws)
    else
      var t := if roundNum.Some? then roundNum.value else |fs| - 1;
      if UndoAction(fs, ws, action, roundNum) == Some("play") then (true, fs[..t] + fs[t + 1..], ShiftDown(RemoveFirst(ws, t), t))
      else (true, fs, RemoveFirst(ws, t))
  }

  /**
   * `play` fails only for a round before the first one, keeps the wins
   * valid, and every won round keeps the fighter it was won with, unless it
   * was an empty round the new pick filled.
   */
  lemma PlayKeepsWins(fs: seq<Fighter>, ws: seq<int>, f: Fighter, roundNum: Option<int>)
    requires WinsValid(|fs|, ws)
    ensures PlayedStateFixed(fs, ws, f, roundNum).None? <==> roundNum.Some? && roundNum.value < -|fs|
    ensures PlayedStateFixed(fs, ws, f, roundNum).Some? ==>
      var (fs', ws') := PlayedStateFixed(fs, ws, f, roundNum).value;
      && WinsValid(|fs'|, ws')
      && |ws'| == |ws|
      && forall i :: 0 <= i < |ws| ==> fs'[ws'[i]] == fs[ws[i]] || (ReplaceOnInsert(fs[ws[i]]) && fs'[ws'[i]] == f)
  {
    if roundNum.Some? {
      var r := roundNum.value;
      var p := PaddedFor(fs, r);
      assert forall k :: 0 <= k < |fs| ==> p[k] == fs[k] by {
        assert forall k :: 0 <= k < |fs| ==> p[..|fs|][k] == p[k];
      }
      if PyIndex(r, |p|).Some? {
        var k := PyIndex(r, |p|).value;
        if !ReplaceOnInsert(p[k]) {
          var q := p[..k] + [f] + p[k..];
          assert forall j :: 0 <= j < k ==> q[j] == p[j];
          assert forall j :: k <= j < |p| ==> q[j + 1] == p[j];
        }
      }
    }
  }

  /**
   * Where `play(f, r)` puts the pick: at round `r`, counted from the end
   * when negative, after empty rounds when `r` lies beyond the last round,
   * with the earlier rounds unchanged.
   */
  lemma PlayPlaces(fs: seq<Fighter>, ws: seq<int>, f: Fighter, r: int)
    requires -|fs| <= r
    ensures PlayedStateFixed(fs, ws, f, Some(r)).Some?
    ensures var k := if r >= 0 then r else |fs| + r; var fs' := PlayedStateFixed(fs, ws, f, Some(r)).value.0;
      && k < |fs'| && fs'[k] == f
      && (k >= |fs| ==> |fs'| == k + 1 && forall j :: |fs| <= j < k ==> fs'[j] == Filler)
      && (forall j :: 0 <= j < k && j < |fs| ==> fs'[j] == fs[j])
      && (k < |fs| && ReplaceOnInsert(fs[k]) ==> fs' == fs[k := f])
      && (k < |fs| && !ReplaceOnInsert(fs[k]) ==> |fs'| == |fs| + 1 && fs'[k + 1..] == fs[k..])
  {
    var p := PaddedFor(fs, r);
    assert forall j :: 0 <= j < |fs| ==> p[j] == fs[j] by {
      assert forall j :: 0 <= j < |fs| ==> p[..|fs|][j] == p[j];
    }
    if r < |fs| {
      assert p == fs;
    }
  }

  lemma {:induction false} RemoveFirstAbsent<T>(s: seq<T>, x: T)
    requires x !in s
    ensures RemoveFirst(s, x) == s
  {
    if |s| > 0 {
      assert s[0] != x && x !in s[1..];
      RemoveFirstAbsent(s[1..], x);
      assert s == [s[0]] + s[1..];
    }
  }

  lemma {:induction false} RemoveFirstAt<T>(s: seq<T>, x: T, k: nat)
    requires k < |s| && s[k] == x && x !in s[..k]
    ensures RemoveFirst(s, x) == s[..k] + s[k + 1..]
  {
    if k > 0 {
      assert s[0] == s[..k][0] && s[0] != x;
      assert s[1..][..k - 1] == s[..k][1..];
      RemoveFirstAt(s[1..], x, k - 1);
      assert s[..k] == [s[0]] + s[1..][..k - 1];
    }
  }

  lemma {:induction false} RemoveFirstLast<T>(s: seq<T>, x: T)
    requires x !in s
    ensures RemoveFirst(s + [x], x) == s
  {
    if |s| > 0 {
      assert (s + [x])[0] == s[0] && s[0] != x;
      assert (s + [x])[1..] == s[1..] + [x];
      RemoveFirstLast(s[1..], x);
      assert s == [s[0]] + s[1..];
    }
  }

  /** Dropping the win at position `k` keeps the others distinct and in range, and drops its round. */
  lemma DropValid(n: int, ws: seq<int>, k: nat)
    requires WinsValid(n, ws) && k < |ws|
    ensures var r := ws[..k] + ws[k + 1..]; WinsValid(n, r) && ws[k] !in r
  {
    RemoveAtIndex(ws, k);
    var r := ws[..k] + ws[k + 1..];
    forall i, j | 0 <= i < j < |r|
      ensures r[i] != r[j]
    {
      var a, b := (if i < k then i else i + 1), (if j < k then j else j + 1);
      assert a < b && r[i] == ws[a] && r[j] == ws[b];
    }
    forall i | 0 <= i < |r|
      ensures r[i] != ws[k] && 0 <= r[i] < n
    {
      var a := if i < k then i else i + 1;
      assert a != k && r[i] == ws[a];
    }
  }

  /** Removing from valid wins keeps them distinct and in range, and free of the removed one. */
  lemma RemoveDistinct(n: int, ws: seq<int>, t: int)
    requires WinsValid(n, ws)
    ensures var r := RemoveFirst(ws, t); WinsValid(n, r) && t !in r
  {
    if t in ws {
      var k :| 0 <= k < |ws| && ws[k] == t;
      assert t !in ws[..k] by {
        assert forall m :: 0 <= m < k ==> ws[..k][m] == ws[m] && ws[m] != ws[k];
      }
      RemoveFirstAt(ws, t, k);
      DropValid(n, ws, k);
    } else {
      RemoveFirstAbsent(ws, t);
    }
  }

  /** Shifting up from `r` leaves `r` free, and shifting back down restores the wins. */
  lemma ShiftUpDown(ws: seq<int>, r: int)
    ensures r !in ShiftUp(ws, r)
    ensures ShiftDown(ShiftUp(ws, r), r) == ws
  {
    var up := ShiftUp(ws, r);
    forall i | 0 <= i < |ws|
      ensures up[i] != r && ShiftDown(up, r)[i] == ws[i]
    {
    }
  }

  /** Inserting at `r` and removing at `r` gives back the list. */
  lemma InsertRemove<T>(fs: seq<T>, f: T, r: nat)
    requires r <= |fs|
    ensures var q := fs[..r] + [f] + fs[r..];
      |q| == |fs| + 1 && q[r] == f && q[..r] + q[r + 1..] == fs
  {
    var q := fs[..r] + [f] + fs[r..];
    assert q[..r] == fs[..r] && q[r + 1..] == fs[r..];
    assert fs[..r] + fs[r..] == fs;
  }

  /** Undoing right after a pick at the end takes that pick back. */
  lemma PlayThenUndo(fs: seq<Fighter>, ws: seq<int>, f: Fighter)
    requires WinsValid(|fs|, ws)
    ensures var (fs', ws') := PlayedStateFixed(fs, ws, f, None).value;
      UndoneState(fs', ws', None, None) == (true, fs, ws)
  {
    var fs' := fs + [f];
    assert |fs'| - 1 !in ws;
    assert UndoAction(fs', ws, None, None) == Some("play");
    InsertRemove(fs, f, |fs|);
    assert fs[..|fs|] == fs && fs[|fs|..] == [];
    assert fs' == fs[..|fs|] + [f] + fs[|fs|..];
    RemoveFirstAbsent(ws, |fs|);
    assert ShiftDown(ws, |fs|) == ws;
    assert UndoneState(fs', ws, None, None) == (true, fs'[..|fs|] + fs'[|fs| + 1..], ShiftDown(RemoveFirst(ws, |fs|), |fs|));
  }

  /** Undoing a pick inserted before round `r` restores both the fighters and the wins. */
  lemma InsertThenUndo(fs: seq<Fighter>, ws: seq<int>, f: Fighter, r: nat)
    requires WinsValid(|fs|, ws)
    requires r < |fs| && !ReplaceOnInsert(fs[r])
    ensures var (fs', ws') := PlayedStateFixed(fs, ws, f, Some(r)).value;
      UndoneState(fs', ws', Some("play"), Some(r)) == (true, fs, ws)
  {
    var fs' := fs[..r] + [f] + fs[r..];
    assert PadTo(fs, r) == fs;
    var up := ShiftUp(ws, r);
    assert PlayedStateFixed(fs, ws, f, Some(r)) == Some((fs', up));
    ShiftUpDown(ws, r);
    RemoveFirstAbsent(up, r);
    InsertRemove(fs, f, r);
  }

  /** A win is recorded at most once per round, and undoing that win takes it back. */
  lemma WinThenUndo(fs: seq<Fighter>, ws: seq<int>, roundNum: Option<int>)
    requires WinsValid(|fs|, ws)
    requires fs != [] && roundNum.Some? ==> 0 <= roundNum.value < |fs|
    ensures var (ok, ws') := WonState(fs, ws, roundNum);
      && WinsValid(|fs|, ws')
      && (ok ==> UndoneState(fs, ws', Some("win"), Some(ws'[|ws'| - 1])) == (true, fs, ws))
      && (!ok ==> ws' == ws)
  {
    var (ok, ws') := WonState(fs, ws, roundNum);
    if ok {
      var t := ws'[|ws'| - 1];
      assert t !in ws;
      RemoveFirstLast(ws, t);
    }
  }

  /** Clearing the win of round `t` keeps the other wins, distinct and in range. */
  lemma ClearWinKeeps(n: int, ws: seq<int>, t: int)
    requires WinsValid(n, ws)
    ensures var r := RemoveFirst(ws, t);
      && WinsValid(n, r) && t !in r
      && multiset(r) == multiset(ws) - multiset{t}
  {
    RemoveDistinct(n, ws, t);
    RemoveFirstMultiset(ws, t);
  }

  /** `fs.pop(t)`: the rounds before `t` stay, the later ones move down by one. */
  lemma RemoveAtIndex<T>(fs: seq<T>, t: nat)
    requires t < |fs|
    ensures var q := fs[..t] + fs[t + 1..];
      |q| == |fs| - 1 && forall k :: 0 <= k < |q| ==> q[k] == fs[if k < t then k else k + 1]
  {
    var q := fs[..t] + fs[t + 1..];
    forall k | 0 <= k < |q|
      ensures q[k] == fs[if k < t then k else k + 1]
    {
      if k < t {
        assert q[k] == fs[..t][k];
      } else {
        assert q[k] == fs[t + 1..][k - t];
      }
    }
  }

  /** Without a win at `t`, shifting the later wins down keeps them distinct and in range. */
  lemma ShiftDownValid(n: int, rest: seq<int>, t: int)
    requires WinsValid(n, rest) && t !in rest && 0 <= t < n
    ensures WinsValid(n - 1, ShiftDown(rest, t))
  {
    var ws' := ShiftDown(rest, t);
    forall i | 0 <= i < |ws'|
      ensures 0 <= ws'[i] < n - 1
    {
      assert rest[i] != t;
    }
    forall i, j | 0 <= i < j < |ws'|
      ensures ws'[i] != ws'[j]
    {
      assert rest[i] != rest[j] && rest[i] != t && rest[j] != t;
    }
  }

  /**
   * Removing the pick of round `t` and shifting the later wins down keeps the
   * wins valid, and each remaining win points at the fighter it was won with.
   */
  lemma RemovePickKeeps(fs: seq<Fighter>, ws: seq<int>, t: int)
    requires WinsValid(|fs|, ws) && 0 <= t < |fs|
    ensures var rest := RemoveFirst(ws, t);
      var fs', ws' := fs[..t] + fs[t + 1..], ShiftDown(rest, t);
      && |fs'| == |fs| - 1 && |ws'| == |rest|
      && WinsValid(|fs'|, ws')
      && forall i :: 0 <= i < |ws'| ==> fs'[ws'[i]] == fs[rest[i]]
  {
    var rest := RemoveFirst(ws, t);
    ClearWinKeeps(|fs|, ws, t);
    RemoveAtIndex(fs, t);
    ShiftDownValid(|fs|, rest, t);
    var fs' := fs[..t] + fs[t + 1..];
    var ws' := ShiftDown(rest, t);
    forall i | 0 <= i < |ws'|
      ensures fs'[ws'[i]] == fs[rest[i]]
    {
      assert rest[i] != t && 0 <= rest[i] < |fs|;
      var k := ws'[i];
      assert k == if rest[i] >= t then rest[i] - 1 else rest[i];
      assert fs'[k] == fs[if k < t then k else k + 1];
    }
  }

  /**
   * `undo` keeps the wins valid and always clears the target round's win;
   * removing a pick shifts the later rounds down, so each remaining win
   * still points at the fighter it was won with.
   */
  lemma UndoKeepsWins(fs: seq<Fighter>, ws: seq<int>, action: Option<string>, roundNum: Option<int>)
    requires WinsValid(|fs|, ws)
    requires fs != [] && roundNum.Some? && action == Some("play") ==> 0 <= roundNum.value < |fs|
    ensures var (ok, fs', ws') := UndoneState(fs, ws, action, roundNum);
      && (ok <==> fs != [])
      && WinsValid(|fs'|, ws')
      && (fs != [] && UndoAction(fs, ws, action, roundNum) != Some("play") ==>
            fs' == fs && roundNum.GetOr(|fs| - 1) !in ws' && multiset(ws') == multiset(ws) - multiset{roundNum.GetOr(|fs| - 1)})
      && (fs != [] && UndoAction(fs, ws, action, roundNum) == Some("play") ==>
            && |fs'| == |fs| - 1
            && multiset(RemoveFirst(ws, roundNum.GetOr(|fs| - 1))) == multiset(ws) - multiset{roundNum.GetOr(|fs| - 1)}
            && forall i :: 0 <= i < |ws'| ==> fs'[ws'[i]] == fs[RemoveFirst(ws, roundNum.GetOr(|fs| - 1))[i]])
  {
    if fs != [] {
      var t := roundNum.GetOr(|fs| - 1);
      ClearWinKeeps(|fs|, ws, t);
      if UndoAction(fs, ws, action, roundNum) == Some("play") {
        RemovePickKeeps(fs, ws, t);
      }
    }
  }

  /** A ban just made stays in the deque, unless its bound is zero. */
  lemma BoundedAppend<T>(s: seq<T>, x: T, limit: Option<nat>)
    ensures x in Bounded(s + [x], limit) <==> limit != Some(0)
  {
    var t := s + [x];
    var r := Bounded(t, limit);
    if limit != Some(0) {
      assert r[|r| - 1] == t[|t| - 1];
    }
  }

  /** Rebuilding under a smaller bound keeps only the newest entries, as one rebuild would. */
  lemma BoundedTwice<T>(s: seq<T>, a: Option<nat>, b: nat)
    requires a.None? || b <= a.value
    ensures Bounded(Bounded(s, a), Some(b)) == Bounded(s, Some(b))
  {
    var r := Bounded(s, a);
    var d := |s| - |r|;
    assert r == s[d..];
    if |r| > b {
      assert r[|r| - b..] == s[d + (|r| - b)..];
    } else if |s| > b {
      assert |r| == b && d == |s| - b;
    }
  }

  /** The loop of `play` over the wins: each win at or after round `r` moves one round up. */
  method ShiftWinsUp(wins: seq<int>, r: int) returns (ws: seq<int>)
    ensures ws == ShiftUp(wins, r)
  {
    ws := wins;
    var i := 0;
    while i < |ws|
      invariant 0 <= i <= |ws| && |ws| == |wins|
      invariant forall k :: 0 <= k < i ==> ws[k] == ShiftUp(wins, r)[k]
      invariant forall k :: i <= k < |ws| ==> ws[k] == wins[k]
    {
      if ws[i] >= r {
        ws := ws[i := ws[i] + 1];
      }
      i := i + 1;
    }
  }

  /** The loop of `undo` over the wins: each win at or after round `t` moves one round down. */
  method ShiftWinsDown(wins: seq<int>, t: int) returns (ws: seq<int>)
    ensures ws == ShiftDown(wins, t)
  {
    ws := wins;
    var i := 0;
    while i < |ws|
      invariant 0 <= i <= |ws| && |ws| == |wins|
      invariant forall k :: 0 <= k < i ==> ws[k] == ShiftDown(wins, t)[k]
      invariant forall k :: i <= k < |ws| ==> ws[k] == wins[k]
    {
      if ws[i] >= t {
        ws := ws[i := ws[i] - 1];
      }
      i := i + 1;
    }
  }

  /** The wins stay valid through `undo`. */
  lemma UndoValid(fs: seq<Fighter>, ws: seq<int>, action: Option<string>, roundNum: Option<int>)
    requires WinsValid(|fs|, ws)
    requires fs != [] && roundNum.Some? && action == Some("play") ==> 0 <= roundNum.value < |fs|
    ensures var (_, fs', ws') := UndoneState(fs, ws, action, roundNum); WinsValid(|fs'|, ws')
  {
    if fs != [] {
      var t := roundNum.GetOr(|fs| - 1);
      RemoveDistinct(|fs|, ws, t);
      if UndoAction(fs, ws, action, roundNum) == Some("play") {
        ShiftDownValid(|fs|, RemoveFirst(ws, t), t);
      }
    }
  }

  /** A `deque` with `maxlen`: only the most recent `limit` entries stay. */
  function Bounded<T>(s: seq<T>, limit: Option<nat>): (r: seq<T>)
    ensures |r| <= |s|
    ensures limit.Some? ==> |r| == (if |s| < limit.value then |s| else limit.value)
    ensures forall k :: 0 <= k < |r| ==> r[k] == s[|s| - |r| + k]
    ensures limit.None? ==> r == s
  {
    if limit.Some? && |s| > limit.value then s[|s| - limit.value..] else s
  }

  /** A snapshot of a player's changing fields. */
  datatype PlayerState = PlayerState(fighters: seq<Fighter>, wins: seq<int>, bans: seq<Fighter>, banLimit: Option<nat>, end: bool, active: bool)

  /** Valid wins, and no more bans than the bound allows. */
  predicate StateValid(st: PlayerState) {
    WinsValid(|st.fighters|, st.wins) && (st.banLimit.Some? ==> |st.bans| <= st.banLimit.value)
  }

  /** The snapshot after `deque(player.bans, limit)`. */
  function Rebounded(st: PlayerState, limit: Option<nat>): (r: PlayerState)
    ensures r.bans == Bounded(st.bans, limit) && r.banLimit == limit
    ensures r.fighters == st.fighters && r.wins == st.wins && r.end == st.end && r.active == st.active
    ensures StateValid(st) ==> StateValid(r)
  {
    st.(bans := Bounded(st.bans, limit), banLimit := limit)
  }

  /**
   * A player of one game: the fighters picked per round, the indices of the
   * rounds won, the bans (a deque bounded by the game's ban limit), the vote
   * to end, and whether the player is still taking part.
   */
  class Player {
    const member: nat
    const game: Game
    var fighters: seq<Fighter>
    var wins: seq<int>
    var bans: seq<Fighter>
    var banLimit: Option<nat>
    var end: bool
    var active: bool

    constructor (member: nat, game: Game)
      ensures this.member == member && this.game == game
      ensures fighters == [] && wins == [] && bans == [] && banLimit == None && !end && active
    {
      this.member := member;
      this.game := game;
      fighters, wins, bans, banLimit := [], [], [], None;
      end, active := false, true;
    }

    predicate Valid()
      reads this
    {
      WinsValid(|fighters|, wins) && (banLimit.Some? ==> |bans| <= banLimit.value)
    }

    /** Everything about the player that its methods change. */
    function State(): PlayerState
      reads this
    {
      PlayerState(fighters, wins, bans, banLimit, end, active)
    }

    /** A player as it joins: nothing picked, won or banned, under ban bound `limit`. */
    predicate Blank(limit: Option<nat>)
      reads this
    {
      fighters == [] && wins == [] && bans == [] && banLimit == limit && !end && active
    }

    function CurrentRound(): int
      reads this
    {
      |fighters| - 1
    }

    /** Placeholders never count as played. */
    predicate HasPlayed(f: Fighter)
      reads this
    {
      f in fighters && f.Real?
    }

    predicate HasBanned(f: Fighter)
      reads this
    {
      f in bans
    }

    /** `ban(f)`: appended; a full bounded deque drops its oldest entry. */
    method Ban(f: Fighter)
      requires Valid()
      modifies this
      ensures Valid()
      ensures bans == Bounded(old(bans) + [f], banLimit)
      ensures HasBanned(f) <==> banLimit != Some(0)
      ensures fighters == old(fighters) && wins == old(wins) && banLimit == old(banLimit)
      ensures end == old(end) && active == old(active)
    {
      BoundedAppend(bans, f, banLimit);
      bans := Bounded(bans + [f], banLimit);
    }

    /** `unban(f)`: the first occurrence removed, or ValueError when there is none. */
    method Unban(f: Fighter) returns (ok: bool)
      requires Valid()
      modifies this
      ensures Valid()
      ensures ok <==> f in old(bans)
      ensures bans == RemoveFirst(old(bans), f)
      ensures fighters == old(fighters) && wins == old(wins) && banLimit == old(banLimit)
      ensures end == old(end) && active == old(active)
    {
      ok := f in bans;
      RemoveFirstMultiset(bans, f);
      bans := RemoveFirst(bans, f);
    }

    /** `vote_to_end()`: the vote flips, so voting twice takes it back. */
    method VoteToEnd()
      modifies this
      ensures end == !old(end)
      ensures fighters == old(fighters) && wins == old(wins) && bans == old(bans) && banLimit == old(banLimit)
      ensures active == old(active)
    {
      end := !end;
    }

    /** `deque(player.bans, limit)`: the bans rebuilt under a new bound. */
    method Rebound(limit: Option<nat>)
      modifies this
      ensures old(Valid()) ==> Valid()
      ensures State() == Rebounded(old(State()), limit)
    {
      bans, banLimit := Bounded(bans, limit), limit;
    }

    /**
     * `play(f, round)`: appended without a round; with one, empty rounds pad
     * the list up to it, then the round (counted from the end when negative)
     * is filled in place when empty, or the pick is inserted there and every
     * win at or after that round moves one round up; a round before the
     * first one raises IndexError and changes nothing.
     */
    method Play(f: Fighter, roundNum: Option<int>) returns (ok: bool)
      requires Valid()
      modifies this
      ensures Valid()
      ensures ok <==> PlayedStateFixed(old(fighters), old(wins), f, roundNum).Some?
      ensures ok ==> (fighters, wins) == PlayedStateFixed(old(fighters), old(wins), f, roundNum).value
      ensures !ok ==> fighters == old(fighters) && wins == old(wins)
      ensures bans == old(bans) && banLimit == old(banLimit) && end == old(end) && active == old(active)
    {
      PlayKeepsWins(fighters, wins, f, roundNum);
      if roundNum.None? {
        fighters := fighters + [f];
        return true;
      }
      var r := roundNum.value;
      var diff := r - CurrentRound();
      if diff > 0 {
        fighters := fighters + Fillers(diff);
      }
      assert fighters == PaddedFor(old(fighters), r);
      var k := PyIndex(r, |fighters|);
      if k.None? {
        return false;
      }
      var i := k.value;
      if ReplaceOnInsert(fighters[i]) {
        fighters := fighters[i := f];
      } else {
        fighters := fighters[..i] + [f] + fighters[i..];
        wins := ShiftWinsUp(wins, i);
      }
      ok := true;
    }

    /** `win(round)`: records the round (the last one by default) unless there are no picks or it is already won. */
    method Win(roundNum: Option<int>) returns (ok: bool)
      requires Valid()
      requires fighters != [] && roundNum.Some? ==> 0 <= roundNum.value < |fighters|
      modifies this
      ensures Valid()
      ensures (ok, wins) == WonState(old(fighters), old(wins), roundNum)
      ensures fighters == old(fighters) && bans == old(bans) && banLimit == old(banLimit)
      ensures end == old(end) && active == old(active)
    {
      WinThenUndo(fighters, wins, roundNum);
      if fighters == [] {
        return false;
      }
      var t := if roundNum.Some? then roundNum.value else CurrentRound();
      if t in wins {
        return false;
      }
      wins := wins + [t];
      ok := true;
    }

    /**
     * `undo(action, round)`: with no round the last round is meant, and a
     * plain undo of an unwon last round removes its pick. The `play` action
     * removes the pick and moves later wins one round down; the round's own
     * win is cleared in every case.
     */
    method Undo(action: Option<string>, roundNum: Option<int>) returns (ok: bool)
      requires Valid()
      requires fighters != [] && roundNum.Some? && action == Some("play") ==> 0 <= roundNum.value < |fighters|
      modifies this
      ensures Valid()
      ensures (ok, fighters, wins) == UndoneState(old(fighters), old(wins), action, roundNum)
      ensures bans == old(bans) && banLimit == old(banLimit) && end == old(end) && active == old(active)
    {
      if fighters == [] {
        return false;
      }
      UndoValid(fighters, wins, action, roundNum);
      ghost var after := UndoneState(fighters, wins, action, roundNum);
      var t := if roundNum.Some? then roundNum.value else CurrentRound();
      var act := UndoAction(fighters, wins, action, roundNum);
      var fs, ws := fighters, wins;
      var removed := false;
      if act == Some("play") {
        fs := fs[..t] + fs[t + 1..];
        removed := true;
      }
      if t in ws {
        ws := RemoveFirst(ws, t);
      } else {
        RemoveFirstAbsent(ws, t);
      }
      if removed {
        ws := ShiftWinsDown(ws, t);
      }
      assert (true, fs, ws) == after;
      fighters, wins := fs, ws;
      ok := true;
    }
  }

  /**
   * The key order of a dict after `update` with the keys `ms`, one at a
   * time: a new key goes at the end, a key already there keeps its place.
   */
  function AddKeys(keys: seq<nat>, ms: seq<nat>): seq<nat>
    decreases |ms|
  {
    if |ms| == 0 then keys
    else
      var before := AddKeys(keys, ms[..|ms| - 1]);
      var m := ms[|ms| - 1];
      if m in before then before else before + [m]
  }

  predicate DistinctKeys(keys: seq<nat>) {
    forall i, j :: 0 <= i < j < |keys| ==> keys[i] != keys[j]
  }

  /** Updating keeps the old keys in front, adds every new key once, and nothing else. */
  lemma {:induction false} AddKeysShape(keys: seq<nat>, ms: seq<nat>)
    requires DistinctKeys(keys)
    ensures var r := AddKeys(keys, ms);
      && DistinctKeys(r)
      && |r| >= |keys| && r[..|keys|] == keys
      && forall m :: m in r <==> m in keys || m in ms
    decreases |ms|
  {
    if |ms| > 0 {
      var init := ms[..|ms| - 1];
      AddKeysShape(keys, init);
      var before := AddKeys(keys, init);
      var m := ms[|ms| - 1];
      assert ms == init + [m];
      if m !in before {
        var r := before + [m];
        assert r[..|keys|] == before[..|keys|];
        assert forall i :: 0 <= i < |before| ==> r[i] == before[i];
      }
    }
  }

  /** A count of the players whose flag holds: `sum(1 for p in players if p.active)` and its kind. */
  function CountActive(ps: seq<Player>): (n: nat)
    reads ps
    ensures n <= |ps|
  {
    if |ps| == 0 then 0 else CountActive(ps[..|ps| - 1]) + (if ps[|ps| - 1].active then 1 else 0)
  }

  function CountActiveEnd(ps: seq<Player>): (n: nat)
    reads ps
    ensures n <= CountActive(ps)
  {
    if |ps| == 0 then 0 else CountActiveEnd(ps[..|ps| - 1]) + (if ps[|ps| - 1].active && ps[|ps| - 1].end then 1 else 0)
  }

  /** A majority of `n`: the least count that is more than half. */
  function Majority(n: nat): (v: nat)
    ensures 2 * v > n && 2 * (v - 1) <= n
  {
    n / 2 + 1
  }

  /** Each player's bans rebuilt under `limit`, one player at a time. */
  method ReboundEach(ps: seq<Player>, limit: Option<nat>)
    requires forall k, j :: 0 <= k < j < |ps| ==> ps[k] != ps[j]
    modifies ps
    ensures forall k :: 0 <= k < |ps| ==> ps[k].State() == Rebounded(old(ps[k].State()), limit)
  {
    var i := 0;
    while i < |ps|
      invariant 0 <= i <= |ps|
      invariant forall k :: 0 <= k < i ==> ps[k].State() == Rebounded(old(ps[k].State()), limit)
      invariant forall k :: i <= k < |ps| ==> ps[k].State() == old(ps[k].State())
    {
      ps[i].Rebound(limit);
      i := i + 1;
    }
  }

  /**
   * One match: the players in the order they joined (the `players` dict, keyed
   * by each player's member), the arena id, the mode, the score that wins, the
   * ban limit and whether the match is ending.
   */
  class Game {
    var players: seq<Player>
    var arenaId: Option<string>
    var mode: string
    var winningScore: int
    var maxBans: Option<nat>
    var ending: bool

    /** The keys of the `players` dict. */
    function Members(): (ms: seq<nat>)
      reads this
      ensures |ms| == |players| && forall i :: 0 <= i < |players| ==> ms[i] == players[i].member
    {
      seq(|players|, i requires 0 <= i < |players| reads this => players[i].member)
    }

    /** Each member plays once, and every player belongs to this game and keeps its wins valid. */
    predicate Valid()
      reads this, players
    {
      && DistinctKeys(Members())
      && forall i :: 0 <= i < |players| ==> players[i].game == this && players[i].Valid()
    }

    /**
     * `Game(...)`: the members added as fresh players, and then the ban
     * limit set, which bounds every player's bans.
     */
    constructor (members: seq<nat>, arenaId: Option<string>, mode: string, winningScore: int, maxBans: Option<nat>)
      ensures Valid()
      ensures Members() == AddKeys([], members)
      ensures forall i :: 0 <= i < |players| ==> fresh(players[i]) && players[i].Blank(maxBans)
      ensures this.arenaId == arenaId && this.mode == mode && this.winningScore == winningScore
      ensures this.maxBans == maxBans && !ending
    {
      this.players := [];
      this.arenaId, this.mode, this.winningScore := arenaId, mode, winningScore;
      this.maxBans, this.ending := None, false;
      new;
      AddPlayers(members);
      SetMaxBans(maxBans);
    }

    /** One key of the dict update: a fresh player for `m`, in place of the old one or at the end. */
    method AddPlayer(m: nat)
      requires Valid()
      modifies this
      ensures Valid()
      ensures Members() == if m in old(Members()) then old(Members()) else old(Members()) + [m]
      ensures forall i :: 0 <= i < |players| ==> if players[i].member == m then fresh(players[i]) && players[i].Blank(None) else players[i] in old(players)
      ensures |players| >= |old(players)|
      ensures forall i :: 0 <= i < |old(players)| && old(players)[i].member != m ==> players[i] == old(players)[i]
      ensures arenaId == old(arenaId) && mode == old(mode) && winningScore == old(winningScore)
      ensures maxBans == old(maxBans) && ending == old(ending)
    {
      var p := new Player(m, this);
      if m in Members() {
        var k :| 0 <= k < |players| && players[k].member == m;
        players := players[k := p];
      } else {
        players := players + [p];
      }
    }

    /**
     * `add_players(*ms)`: a fresh player for every member given; a member
     * already playing is replaced in place, a new one joins at the end.
     * The fresh players' bans have no bound yet.
     */
    method AddPlayers(ms: seq<nat>)
      requires Valid()
      modifies this
      ensures Valid()
      ensures Members() == AddKeys(old(Members()), ms)
      ensures forall i :: 0 <= i < |players| ==> if players[i].member in ms then fresh(players[i]) && players[i].Blank(None) else players[i] in old(players)
      ensures |players| >= |old(players)|
      ensures forall i :: 0 <= i < |old(players)| && old(players)[i].member !in ms ==> players[i] == old(players)[i]
      ensures arenaId == old(arenaId) && mode == old(mode) && winningScore == old(winningScore)
      ensures maxBans == old(maxBans) && ending == old(ending)
    {
      var j := 0;
      while j < |ms|
        invariant 0 <= j <= |ms|
        invariant Valid()
        invariant Members() == AddKeys(old(Members()), ms[..j])
        invariant forall i :: 0 <= i < |players| ==> if players[i].member in ms[..j] then fresh(players[i]) && players[i].Blank(None) else players[i] in old(players)
        invariant |players| >= |old(players)|
        invariant forall i :: 0 <= i < |old(players)| && old(players)[i].member !in ms[..j] ==> players[i] == old(players)[i]
        invariant arenaId == old(arenaId) && mode == old(mode) && winningScore == old(winningScore)
        invariant maxBans == old(maxBans) && ending == old(ending)
      {
        assert ms[..j + 1] == ms[..j] + [ms[j]];
        AddPlayer(ms[j]);
        j := j + 1;
      }
      assert ms[..j] == ms;
    }

    /** The `max_bans` setter: every player's bans rebuilt under the new bound. */
    method SetMaxBans(limit: Option<nat>)
      requires Valid()
      modifies this, players
      ensures Valid()
      ensures maxBans == limit && players == old(players)
      ensures forall i :: 0 <= i < |players| ==> players[i].State() == Rebounded(old(players[i].State()), limit)
      ensures arenaId == old(arenaId) && mode == old(mode) && winningScore == old(winningScore) && ending == old(ending)
    {
      maxBans := limit;
      assert forall k, j :: 0 <= k < j < |players| ==> players[k] != players[j] by {
        assert forall k, j :: 0 <= k < j < |players| ==> players[k].member != players[j].member;
      }
      ReboundEach(players, limit);
    }

    /** `votes_to_end`: a majority of the players still taking part. */
    function VotesToEnd(): (v: nat)
      reads this, players
      ensures 2 * v > CountActive(players) && 2 * (v - 1) <= CountActive(players)
    {
      Majority(CountActive(players))
    }

    /** `is_banned(f)`: some player has banned `f`. */
    predicate IsBanned(f: Fighter)
      reads this, players
    {
      exists i :: 0 <= i < |players| && players[i].HasBanned(f)
    }

    /** The round counts `max` compares when the match is won. */
    function WinCounts(): (c: seq<real>)
      reads this, players
      ensures |c| == |players| && forall i :: 0 <= i < |players| ==> c[i] == |players[i].wins| as real
    {
      seq(|players|, i requires 0 <= i < |players| reads this, players => |players[i].wins| as real)
    }

    /**
     * `end(reason)`: the match is marked ending and its members leave the
     * registry of running matches. When it was won, the player named is the
     * first with the most wins; a match without players names nobody (the
     * source's `max` raises there).
     */
    method End(registry: map<nat, Player>, won: bool) returns (registry': map<nat, Player>, winner: Option<nat>)
      modifies this
      ensures ending && players == old(players)
      ensures registry'.Keys == registry.Keys - set i | 0 <= i < |players| :: players[i].member
      ensures forall m :: m in registry' ==> registry'[m] == registry[m]
      ensures winner.Some? <==> won && |players| > 0
      ensures winner.Some? ==> exists i :: (
        && 0 <= i < |players| && winner.value == players[i].member
        && (forall j :: 0 <= j < |players| ==> |players[j].wins| <= |players[i].wins|)
        && (forall j :: 0 <= j < i ==> |players[j].wins| < |players[i].wins|))
      ensures arenaId == old(arenaId) && mode == old(mode) && winningScore == old(winningScore) && maxBans == old(maxBans)
    {
      ending := true;
      winner := None;
      if won && |players| > 0 {
        var counts := WinCounts();
        var best := FirstMax(counts);
        winner := Some(players[best].member);
      }
      registry' := registry;
      var i := 0;
      while i < |players|
        invariant 0 <= i <= |players|
        invariant registry'.Keys == registry.Keys - set k | 0 <= k < i :: players[k].member
        invariant forall m :: m in registry' ==> registry'[m] == registry[m]
      {
        registry' := registry' - {players[i].member};
        i := i + 1;
      }
    }
  }
}
