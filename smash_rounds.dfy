/**
 * The record-based player of the Smash cog: each round is a `Round` object
 * holding its fighter and whether it was won, and the player keeps them in a
 * list that `play` and `undo` grow and shrink. Round numbers follow Python's
 * list indexing, so a negative round counts from the end.
 *
 * Every method is stated against a function on the rounds' values (`View`):
 * `PlayedView`, `WonView` and `UndoneView`, about which the lemmas below
 * prove what the rounds look like afterwards.
 */
module SmashRounds {
  import opened Wrappers
  import opened SmashModels

  /** The value of one round: its fighter and its win flag. */
  datatype RoundView = RoundView(fighter: Fighter, win: bool)

  /** `sum(r.win for r in rounds)`. */
  function CountWins(v: seq<RoundView>): nat
  {
    if |v| == 0 then 0 else CountWins(v[..|v| - 1]) + (if v[|v| - 1].win then 1 else 0)
  }

  function WonAt(v: seq<RoundView>): set<nat> {
    set i | 0 <= i < |v| && v[i].win
  }

  /** The count of wins is the number of rounds whose flag is set. */
  lemma {:induction false} CountWinsIsCard(v: seq<RoundView>)
    ensures CountWins(v) == |WonAt(v)|
  {
    if |v| > 0 {
      var init := v[..|v| - 1];
      CountWinsIsCard(init);
      assert forall i :: 0 <= i < |init| ==> init[i] == v[i];
      if v[|v| - 1].win {
        assert WonAt(v) == WonAt(init) + {|v| - 1};
      } else {
        assert WonAt(v) == WonAt(init);
      }
    }
  }

  /** A new unwon round at the end leaves the count as it was. */
  lemma CountWinsSnoc(v: seq<RoundView>, x: RoundView)
    ensures CountWins(v + [x]) == CountWins(v) + (if x.win then 1 else 0)
  {
    assert (v + [x])[..|v|] == v;
  }

  /** Changing one round changes the count by that round's flag alone. */
  lemma {:induction false} CountWinsUpdate(v: seq<RoundView>, k: nat, x: RoundView)
    requires k < |v|
    ensures CountWins(v[k := x]) + (if v[k].win then 1 else 0) == CountWins(v) + (if x.win then 1 else 0)
  {
    var w := v[k := x];
    if k < |v| - 1 {
      assert w[..|w| - 1] == v[..|v| - 1][k := x];
      CountWinsUpdate(v[..|v| - 1], k, x);
    } else {
      assert w[..|w| - 1] == v[..|v| - 1];
    }
  }

  /** Removing one round takes away that round's flag from the count. */
  lemma {:induction false} CountWinsRemove(v: seq<RoundView>, k: nat)
    requires k < |v|
    ensures CountWins(v[..k] + v[k + 1..]) + (if v[k].win then 1 else 0) == CountWins(v)
  {
    var w := v[..k] + v[k + 1..];
    if k < |v| - 1 {
      var init := v[..|v| - 1];
      assert w[..|w| - 1] == init[..k] + init[k + 1..];
      assert w[|w| - 1] == v[|v| - 1];
      CountWinsRemove(init, k);
    } else {
      assert w == v[..|v| - 1];
    }
  }

  /** `n` empty rounds, none of them won. */
  function FillerRounds(n: nat): (s: seq<RoundView>)
    ensures |s| == n && forall k :: 0 <= k < n ==> s[k] == RoundView(Filler, false)
  {
    seq(n, _ => RoundView(Filler, false))
  }

  /** The rounds after `play` pads them up to round `r`. */
  function PaddedView(v: seq<RoundView>, r: int): seq<RoundView> {
    if r - (|v| - 1) > 0 then v + FillerRounds(r - (|v| - 1)) else v
  }

  /** The rounds after the pick lands on round `r` of the padded rounds `p`, or None for IndexError. */
  function PlacedView(p: seq<RoundView>, f: Fighter, r: int): Option<seq<RoundView>> {
    match PyIndex(r, |p|)
    case None => None
    case Some(k) =>
      if ReplaceOnInsert(p[k].fighter) then Some(p[k := p[k].(fighter := f)])
      else Some(p[..k] + [RoundView(f, false)] + p[k..])
  }

  /** The rounds after `play(f, round)`, or None when the round is out of range (IndexError). */
  function PlayedView(v: seq<RoundView>, f: Fighter, roundNum: Option<int>): Option<seq<RoundView>> {
    match roundNum
    case None => Some(v + [RoundView(f, false)])
    case Some(r) => PlacedView(PaddedView(v, r), f, r)
  }

  /** Whether `win(round)` succeeds, and the rounds after it. */
  function WonView(v: seq<RoundView>, roundNum: Option<int>): (bool, seq<RoundView>) {
    var r := roundNum.GetOr(|v| - 1);
    match PyIndex(r, |v|)
    case None => (false, v)
    case Some(k) => if v[k].win then (false, v) else (true, v[k := v[k].(win := true)])
  }

  /** The position `undo` works on and the action it takes, or None when the round is out of range. */
  function UndoTarget(v: seq<RoundView>, action: Option<string>, roundNum: Option<int>): Option<(nat, Option<string>)>
    requires |v| > 0
  {
    match roundNum
    case None => Some((|v| - 1, if action.None? && !v[|v| - 1].win then Some("play") else action))
    case Some(r) =>
      match PyIndex(r, |v|)
      case None => None
      case Some(k) => Some((k, action))
  }

  /** Whether `undo(action, round)` succeeds, and the rounds after it. */
  function UndoneView(v: seq<RoundView>, action: Option<string>, roundNum: Option<int>): (bool, seq<RoundView>) {
    if |v| == 0 then (false, v)
    else
      match UndoTarget(v, action, roundNum)
      case None => (false, v)
      case Some((k, act)) =>
        if act == Some("play") then (true, v[..k] + v[k + 1..])
        else (true, v[k := v[k].(win := false)])
  }

  /** Beyond the last round, `play(f, r)` pads with unwon empty rounds and puts `f` at `r`. */
  lemma PlayBeyond(v: seq<RoundView>, f: Fighter, r: int)
    requires r > |v| - 1
    ensures var w := PlayedView(v, f, Some(r));
      && w.Some? && |w.value| == r + 1
      && w.value[r].fighter == f && !w.value[r].win
      && w.value[..|v|] == v
      && forall k :: |v| <= k < r ==> w.value[k] == RoundView(Filler, false)
  {
    var p := PaddedView(v, r);
    assert |p| == r + 1 && p[r] == RoundView(Filler, false);
    assert p[..|v|] == v;
  }

  /**
   * On an existing round, `play` refills an empty round in place, keeping its
   * win flag, and otherwise inserts a new unwon round there, moving the later
   * rounds one place right.
   */
  lemma PlayInside(v: seq<RoundView>, f: Fighter, r: int)
    requires 0 <= |v| + r && r < |v|
    ensures var k := PyIndex(r, |v|).value; var w := PlayedView(v, f, Some(r));
      && w.Some?
      && (ReplaceOnInsert(v[k].fighter) ==> w.value == v[k := RoundView(f, v[k].win)])
      && (!ReplaceOnInsert(v[k].fighter) ==>
            |w.value| == |v| + 1 && w.value[k] == RoundView(f, false) && w.value[..k] == v[..k] && w.value[k + 1..] == v[k..])
  {
    assert PaddedView(v, r) == v;
    var k := PyIndex(r, |v|).value;
    var q := v[..k] + [RoundView(f, false)] + v[k..];
    assert q[..k] == v[..k] && q[k + 1..] == v[k..];
  }

  /** A round too far before the start makes `play` raise IndexError. */
  lemma PlayOutOfRange(v: seq<RoundView>, f: Fighter, r: int)
    requires |v| + r < 0
    ensures PlayedView(v, f, Some(r)).None?
  {
    assert PaddedView(v, r) == v;
  }

  /** A pick leaves the number of won rounds unchanged: new rounds are unwon, and a refilled round keeps its flag. */
  lemma PlayKeepsWinCount(v: seq<RoundView>, f: Fighter, roundNum: Option<int>)
    ensures var w := PlayedView(v, f, roundNum); w.Some? ==> CountWins(w.value) == CountWins(v)
  {
    match roundNum
    case None => CountWinsSnoc(v, RoundView(f, false));
    case Some(r) =>
      var p := PaddedView(v, r);
      if r - (|v| - 1) > 0 {
        FillersWinNothing(v, r - (|v| - 1));
      }
      assert CountWins(p) == CountWins(v);
      match PyIndex(r, |p|)
      case None =>
      case Some(k) =>
        if ReplaceOnInsert(p[k].fighter) {
          var x := p[k].(fighter := f);
          assert x.win == p[k].win;
          CountWinsUpdate(p, k, x);
        } else {
          var q := p[..k] + [RoundView(f, false)] + p[k..];
          assert q[k] == RoundView(f, false);
          assert q[..k] + q[k + 1..] == p by {
            assert q[..k] == p[..k] && q[k + 1..] == p[k..];
          }
          CountWinsRemove(q, k);
        }
  }

  lemma {:induction false} FillersWinNothing(v: seq<RoundView>, n: nat)
    ensures CountWins(v + FillerRounds(n)) == CountWins(v)
  {
    if n > 0 {
      assert v + FillerRounds(n) == (v + FillerRounds(n - 1)) + [RoundView(Filler, false)];
      FillersWinNothing(v, n - 1);
      CountWinsSnoc(v + FillerRounds(n - 1), RoundView(Filler, false));
    } else {
      assert v + FillerRounds(n) == v;
    }
  }

  /**
   * `win` refuses, changing nothing, a round out of range or already won;
   * otherwise it sets exactly that round's flag and the count goes up by one.
   */
  lemma WinSetsOne(v: seq<RoundView>, roundNum: Option<int>)
    ensures var (ok, w) := WonView(v, roundNum); var k := PyIndex(roundNum.GetOr(|v| - 1), |v|);
      && (ok <==> k.Some? && !v[k.value].win)
      && (!ok ==> w == v)
      && (ok ==> (
            && |w| == |v| && w[k.value].win && w[k.value].fighter == v[k.value].fighter
            && (forall j :: 0 <= j < |v| && j != k.value ==> w[j] == v[j])
            && CountWins(w) == CountWins(v) + 1))
  {
    var k := PyIndex(roundNum.GetOr(|v| - 1), |v|);
    if k.Some? && !v[k.value].win {
      CountWinsUpdate(v, k.value, v[k.value].(win := true));
    }
  }

  /** `undo` refuses, changing nothing, exactly when there are no rounds or the round is out of range. */
  lemma UndoRefuses(v: seq<RoundView>, action: Option<string>, roundNum: Option<int>)
    ensures var (ok, w) := UndoneView(v, action, roundNum);
      && (ok <==> |v| > 0 && (roundNum.None? || (0 <= |v| + roundNum.value && roundNum.value < |v|)))
      && (!ok ==> w == v)
  {
  }

  /**
   * Without a round, `undo` removes the last round when that is unwon; when
   * it is won, it only clears that win, unless the action is `play`.
   */
  lemma UndoLast(v: seq<RoundView>, action: Option<string>)
    requires |v| > 0
    ensures var (ok, w) := UndoneView(v, action, None); var n := |v| - 1;
      && ok
      && (action.None? && !v[n].win ==> w == v[..n])
      && (action != Some("play") && v[n].win ==> w == v[n := v[n].(win := false)] && CountWins(w) + 1 == CountWins(v))
  {
    var n := |v| - 1;
    if action.None? && !v[n].win {
      assert v[..n] + v[n + 1..] == v[..n];
    }
    if action != Some("play") && v[n].win {
      CountWinsUpdate(v, n, v[n].(win := false));
    }
  }

  /** With a round, the action `play` removes that round and the win it carried. */
  lemma UndoAtPlay(v: seq<RoundView>, r: int)
    requires 0 <= |v| + r && r < |v|
    ensures var (ok, w) := UndoneView(v, Some("play"), Some(r)); var k := PyIndex(r, |v|).value;
      && ok && w == v[..k] + v[k + 1..]
      && CountWins(w) + (if v[k].win then 1 else 0) == CountWins(v)
  {
    var k := PyIndex(r, |v|).value;
    assert UndoTarget(v, Some("play"), Some(r)) == Some((k, Some("play")));
    CountWinsRemove(v, k);
  }

  /** With a round, any other action clears its win and keeps the length and every other round. */
  lemma UndoAtWin(v: seq<RoundView>, action: Option<string>, r: int)
    requires 0 <= |v| + r && r < |v| && action != Some("play")
    ensures var (ok, w) := UndoneView(v, action, Some(r)); var k := PyIndex(r, |v|).value;
      && ok && |w| == |v| && !w[k].win && w[k].fighter == v[k].fighter
      && forall j :: 0 <= j < |v| && j != k ==> w[j] == v[j]
  {
    var k := PyIndex(r, |v|).value;
    assert UndoTarget(v, action, Some(r)) == Some((k, action));
    assert UndoneView(v, action, Some(r)) == (true, v[k := v[k].(win := false)]);
  }

  /** Putting a new element into a list without repeats keeps it without repeats. */
  lemma InsertFresh<T>(rs: seq<T>, x: T, k: nat)
    requires k <= |rs| && x !in rs
    requires forall i, j :: 0 <= i < j < |rs| ==> rs[i] != rs[j]
    ensures var q := rs[..k] + [x] + rs[k..]; forall i, j :: 0 <= i < j < |q| ==> q[i] != q[j]
  {
    var q := rs[..k] + [x] + rs[k..];
    forall i, j | 0 <= i < j < |q|
      ensures q[i] != q[j]
    {
      var a := if i < k then i else i - 1;
      var b := if j < k then j else j - 1;
      if i != k && j != k {
        assert q[i] == rs[a] && q[j] == rs[b] && a < b;
      } else if i == k {
        assert q[j] == rs[b];
      } else {
        assert q[i] == rs[a];
      }
    }
  }

  /** A round of a match: a fighter and whether it was won; `play` and `undo` change both in place. */
  class Round {
    var fighter: Fighter
    var win: bool

    constructor (fighter: Fighter)
      ensures this.fighter == fighter && !win
    {
      this.fighter := fighter;
      win := false;
    }
  }

  /**
   * A player in the record-based form: the rounds played, the bans, the vote
   * to end and whether the player is still taking part.
   */
  class Player {
    const member: nat
    var rounds: seq<Round>
    var bans: seq<Fighter>
    var end: bool
    var active: bool

    constructor (member: nat)
      ensures this.member == member && rounds == [] && bans == [] && !end && active
    {
      this.member := member;
      rounds, bans := [], [];
      end, active := false, true;
    }

    /** No round object is listed twice, so changing one round changes one entry. */
    predicate Valid()
      reads this
    {
      forall i, j :: 0 <= i < j < |rounds| ==> rounds[i] != rounds[j]
    }

    function View(): (v: seq<RoundView>)
      reads this, rounds
      ensures |v| == |rounds| && forall i :: 0 <= i < |rounds| ==> v[i] == RoundView(rounds[i].fighter, rounds[i].win)
    {
      seq(|rounds|, i requires 0 <= i < |rounds| reads this, rounds => RoundView(rounds[i].fighter, rounds[i].win))
    }

    function CurrentRound(): int
      reads this
    {
      |rounds| - 1
    }

    /** `wins`: the number of rounds won. */
    function Wins(): (n: nat)
      reads this, rounds
      ensures n == |WonAt(View())|
    {
      CountWinsIsCard(View());
      CountWins(View())
    }

    /** `latest_win_round`: the last won round, scanning from the end, or -1. */
    method LatestWinRound() returns (r: int)
      ensures -1 <= r < |rounds|
      ensures r >= 0 ==> rounds[r].win
      ensures forall k :: r < k < |rounds| ==> !rounds[k].win
    {
      var ind := 1;
      while ind <= |rounds|
        invariant 1 <= ind <= |rounds| + 1
        invariant forall k :: |rounds| - ind < k < |rounds| ==> !rounds[k].win
      {
        if rounds[|rounds| - ind].win {
          return |rounds| - ind;
        }
        ind := ind + 1;
      }
      return -1;
    }

    /** `has_played(f)`: never for a placeholder, otherwise whether some round holds `f`. */
    method HasPlayed(f: Fighter) returns (b: bool)
      ensures b <==> f.Real? && exists i :: 0 <= i < |rounds| && rounds[i].fighter == f
    {
      if f.Fake? {
        return false;
      }
      var i := 0;
      while i < |rounds|
        invariant 0 <= i <= |rounds|
        invariant forall k :: 0 <= k < i ==> rounds[k].fighter != f
      {
        if rounds[i].fighter == f {
          return true;
        }
        i := i + 1;
      }
      return false;
    }

    predicate HasBanned(f: Fighter)
      reads this
    {
      f in bans
    }

    /** `ban(f)`: appended to the bans. */
    method Ban(f: Fighter)
      modifies this
      ensures bans == old(bans) + [f] && HasBanned(f)
      ensures rounds == old(rounds) && end == old(end) && active == old(active)
    {
      bans := bans + [f];
    }

    /** `unban(f)`: one occurrence removed, or ValueError when there is none. */
    method Unban(f: Fighter) returns (ok: bool)
      modifies this
      ensures ok <==> f in old(bans)
      ensures bans == RemoveFirst(old(bans), f)
      ensures multiset(bans) == multiset(old(bans)) - multiset{f}
      ensures rounds == old(rounds) && end == old(end) && active == old(active)
    {
      ok := f in bans;
      RemoveFirstMultiset(bans, f);
      bans := RemoveFirst(bans, f);
    }

    /** `vote_to_end()`: the vote flips, so voting twice takes it back. */
    method VoteToEnd()
      modifies this
      ensures end == !old(end)
      ensures rounds == old(rounds) && bans == old(bans) && active == old(active)
    {
      end := !end;
    }

    /** The padding of `play`: `n` fresh empty rounds after the others. */
    method PadRounds(n: nat)
      requires Valid()
      modifies this
      ensures Valid()
      ensures View() == old(View()) + FillerRounds(n)
      ensures |rounds| == |old(rounds)| + n && rounds[..|old(rounds)|] == old(rounds)
      ensures forall i :: |old(rounds)| <= i < |rounds| ==> fresh(rounds[i])
      ensures bans == old(bans) && end == old(end) && active == old(active)
    {
      var j := 0;
      while j < n
        invariant 0 <= j <= n
        invariant Valid()
        invariant |rounds| == |old(rounds)| + j && rounds[..|old(rounds)|] == old(rounds)
        invariant forall i :: |old(rounds)| <= i < |rounds| ==> fresh(rounds[i])
        invariant View() == old(View()) + FillerRounds(j)
        invariant bans == old(bans) && end == old(end) && active == old(active)
      {
        var nr := new Round(Filler);
        rounds := rounds + [nr];
        j := j + 1;
      }
    }

    /**
     * `play(f, round)`: appended without a round; with one, empty rounds pad
     * the list up to it, then an empty round gets the pick in place, or a new
     * round is inserted there. A round before the start raises IndexError.
     */
    method Play(f: Fighter, roundNum: Option<int>) returns (ok: bool)
      requires Valid()
      modifies this, rounds
      ensures Valid()
      ensures ok <==> PlayedView(old(View()), f, roundNum).Some?
      ensures View() == if ok then PlayedView(old(View()), f, roundNum).value else old(View())
      ensures bans == old(bans) && end == old(end) && active == old(active)
    {
      if roundNum.None? {
        var nr := new Round(f);
        InsertFresh(rounds, nr, |rounds|);
        assert rounds[..|rounds|] + [nr] + rounds[|rounds|..] == rounds + [nr];
        rounds := rounds + [nr];
        return true;
      }
      var r := roundNum.value;
      var diff := r - CurrentRound();
      if diff > 0 {
        PadRounds(diff);
      }
      ok := Place(f, r);
    }

    /** The second half of `play`: the pick put in place on round `r`, or inserted there. */
    method Place(f: Fighter, r: int) returns (ok: bool)
      requires Valid()
      modifies this, rounds
      ensures Valid()
      ensures ok <==> PlacedView(old(View()), f, r).Some?
      ensures View() == if ok then PlacedView(old(View()), f, r).value else old(View())
      ensures bans == old(bans) && end == old(end) && active == old(active)
    {
      var k := PyIndex(r, |rounds|);
      if k.None? {
        return false;
      }
      var idx := k.value;
      ghost var v, rs := View(), rounds;
      if ReplaceOnInsert(rounds[idx].fighter) {
        var round := rounds[idx];
        round.fighter := f;
        assert View() == v[idx := v[idx].(fighter := f)] by {
          assert forall j :: 0 <= j < |rounds| && j != idx ==> rounds[j] != round;
        }
      } else {
        var nr := new Round(f);
        InsertFresh(rounds, nr, idx);
        rounds := rounds[..idx] + [nr] + rounds[idx..];
        forall j | 0 <= j < |rounds|
          ensures rounds[j] == if j < idx then rs[j] else if j == idx then nr else rs[j - 1]
        {
          if j < idx {
            assert rounds[j] == rs[..idx][j];
          } else if j > idx {
            assert rounds[j] == rs[idx..][j - idx - 1];
          }
        }
        assert View() == v[..idx] + [RoundView(f, false)] + v[idx..];
      }
      ok := true;
    }

    /** `win(round)`: the round's flag set, unless the round is out of range or already won. */
    method Win(roundNum: Option<int>) returns (ok: bool)
      requires Valid()
      modifies rounds
      ensures Valid()
      ensures (ok, View()) == WonView(old(View()), roundNum)
    {
      var r := if roundNum.Some? then roundNum.value else CurrentRound();
      var k := PyIndex(r, |rounds|);
      if k.None? {
        return false;
      }
      var round := rounds[k.value];
      if round.win {
        return false;
      }
      ghost var v := View();
      round.win := true;
      assert View() == v[k.value := v[k.value].(win := true)] by {
        assert forall j :: 0 <= j < |rounds| && j != k.value ==> rounds[j] != round;
      }
      ok := true;
    }

    /**
     * `undo(action, round)`: without a round the last one is meant, and a
     * plain undo of an unwon last round removes it. The action `play` removes
     * the round; any other action clears its win.
     */
    method Undo(action: Option<string>, roundNum: Option<int>) returns (ok: bool)
      requires Valid()
      modifies this, rounds
      ensures Valid()
      ensures (ok, View()) == UndoneView(old(View()), action, roundNum)
      ensures bans == old(bans) && end == old(end) && active == old(active)
    {
      if |rounds| == 0 {
        return false;
      }
      var k: nat, act := |rounds| - 1, action;
      if roundNum.None? {
        if action.None? && !rounds[k].win {
          act := Some("play");
        }
      } else {
        var i := PyIndex(roundNum.value, |rounds|);
        if i.None? {
          return false;
        }
        k := i.value;
      }
      assert UndoTarget(old(View()), action, roundNum) == Some((k, act));
      var round := rounds[k];
      ghost var v := View();
      if act == Some("play") {
        rounds := rounds[..k] + rounds[k + 1..];
        assert View() == v[..k] + v[k + 1..] by {
          RemoveAtIndex(v, k);
          RemoveAtIndex(old(rounds), k);
        }
      } else {
        round.win := false;
        assert View() == v[k := v[k].(win := false)] by {
          assert forall j :: 0 <= j < |rounds| && j != k ==> rounds[j] != round;
        }
      }
      ok := true;
    }
  }
}
