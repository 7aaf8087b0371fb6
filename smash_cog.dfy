/**
 * The Smash cog (cogs/smash/cog.py): the registry of running matches, keyed
 * by member, and the commands that start a match and change its state. The
 * framework runs a match command only when `game_in_progress` holds, and
 * hands it the author's player; that player and the registry entry naming it
 * are the methods' preconditions.
 */
module SmashCog {
  import opened Wrappers
  import opened Text
  import opened Utils
  import opened UtilsPkg
  import opened SmashModels
  import SmashRounds
  import M = SmashModes

  // ------------------------------------------------------------ arguments

  /** An argument typed `Union[int, str]`: an int when `int()` accepts the text, the text otherwise. */
  datatype Arg = IntArg(i: int) | StrArg(s: string)

  function Convert(raw: string): (a: Arg)
    ensures a.IntArg? <==> IntLiteral(raw).Some?
    ensures a.IntArg? ==> a.i == IntLiteral(raw).value
    ensures a.StrArg? ==> a.s == raw
  {
    match IntLiteral(raw)
    case Some(i) => IntArg(i)
    case None => StrArg(raw)
  }

  /** How an argument prints in a message: `str(val)`. */
  function ArgText(a: Arg): string {
    match a
    case IntArg(i) => IntToString(i)
    case StrArg(s) => s
  }

  const IndexErrorMsg := "list index out of range"
  const MissingValMsg := "val is a required argument that is missing."
  const NotStringMsg := "expected string or bytes-like object"

  // ------------------------------------------------------------ win

  /** The index `w round` hands to `player.win`: the round given, or the next one for 0, less one. */
  function WinTarget(roundNum: int, n: nat): int {
    (if roundNum == 0 then n else roundNum) - 1
  }

  /**
   * `w round` as written: Python indexing lets a round before the first
   * through, counted from the end, and the negative index is recorded.
   */
  function WinAsWritten(fs: seq<Fighter>, ws: seq<int>, roundNum: int): (r: Result<(bool, seq<int>), string>)
    ensures r.Err? <==> fs != [] && PyIndex(WinTarget(roundNum, |fs|), |fs|).None?
  {
    var t := WinTarget(roundNum, |fs|);
    if fs == [] then Ok((false, ws))
    else if PyIndex(t, |fs|).None? then Err(IndexErrorMsg)
    else if t in ws then Ok((false, ws))
    else Ok((true, ws + [t]))
  }

  /** `w -1` on two rounds records round 1 under the index -2, and `w 1` then records it again. */
  lemma WinNegativeRound(a: Fighter, b: Fighter)
    ensures WinAsWritten([a, b], [], -1) == Ok((true, [-2]))
    ensures !WinsValid(2, [-2])
    ensures WinAsWritten([a, b], [-2], 1) == Ok((true, [-2, 0]))
    ensures PyIndex(-2, 2) == PyIndex(0, 2) == Some(0)
  {
    var ws: seq<int> := [];
    assert |[a, b]| == 2 && ws + [-2] == [-2] && [-2] + [0] == [-2, 0];
    assert WinTarget(-1, 2) == -2 && PyIndex(-2, 2) == Some(0);
    assert WinTarget(1, 2) == 0 && [-2][0] == -2;
    assert 0 !in [-2];
  }

  /** `w round` with the round checked: only the rounds the player has are accepted. */
  function WinChecked(fs: seq<Fighter>, ws: seq<int>, roundNum: int): (r: Result<(bool, seq<int>), string>)
    requires WinsValid(|fs|, ws)
    ensures var t := WinTarget(roundNum, |fs|);
      && (r.Err? <==> fs != [] && !(0 <= t < |fs|))
      && (r.Ok? ==> WinsValid(|fs|, r.value.1))
      && (r.Ok? && r.value.0 ==> t !in ws && r.value.1 == ws + [t])
      && (r.Ok? && !r.value.0 ==> r.value.1 == ws && (fs == [] || t in ws))
  {
    var t := WinTarget(roundNum, |fs|);
    if fs == [] then Ok((false, ws))
    else if !(0 <= t < |fs|) then Err(IndexErrorMsg)
    else
      WinThenUndo(fs, ws, Some(t));
      Ok(WonState(fs, ws, Some(t)))
  }

  /** Both agree on every round number that is not negative. */
  lemma WinAgrees(fs: seq<Fighter>, ws: seq<int>, roundNum: int)
    requires WinsValid(|fs|, ws) && roundNum >= 0
    ensures WinAsWritten(fs, ws, roundNum) == WinChecked(fs, ws, roundNum)
  {
  }

  // ------------------------------------------------------------ undo

  /** The action names `undo` accepts, and what they mean. */
  function UndoActionOf(action: string): (a: Option<string>)
    ensures a.Some? <==> action in {"p", "play", "w", "win"}
    ensures a.Some? ==> a.value == if action in {"p", "play"} then "play" else "win"
  {
    if action == "p" || action == "play" then Some("play")
    else if action == "w" || action == "win" then Some("win")
    else None
  }

  /** The outcome of `u round action`: ignored for an unknown action, or what `player.undo` did. */
  datatype UndoOutcome = Ignored | Undone(ok: bool, fighters: seq<Fighter>, wins: seq<int>) | UndoFailed(error: string)

  /**
   * `u round action` as written: the round less one goes to `player.undo`,
   * and Python indexing lets round 0 and below pop a pick counted from the
   * end, while every win at or after the negative index moves down.
   */
  function UndoAsWritten(fs: seq<Fighter>, ws: seq<int>, roundNum: Option<int>, action: string): (r: UndoOutcome)
  {
    match UndoActionOf(action)
    case None => Ignored
    case Some(act) =>
      if fs == [] then Undone(false, fs, ws)
      else if roundNum.None? then
        var (ok, fs', ws') := UndoneState(fs, ws, None, None);
        Undone(ok, fs', ws')
      else
        var t := roundNum.value - 1;
        if act == "play" then
          match PyIndex(t, |fs|)
          case None => UndoFailed(IndexErrorMsg)
          case Some(k) => Undone(true, fs[..k] + fs[k + 1..], ShiftDown(RemoveFirst(ws, t), t))
        else Undone(true, fs, RemoveFirst(ws, t))
  }

  /** `u 0` on three rounds with round 1 won pops round 3 and moves that win onto round 2. */
  lemma UndoRoundZero(a: Fighter, b: Fighter, c: Fighter)
    requires a != b
    ensures UndoAsWritten([a, b, c], [0], Some(0), "p") == Undone(true, [a, b], [-1])
    ensures !WinsValid(2, [-1])
    ensures PyIndex(-1, 2) == Some(1) && [a, b][1] != [a, b, c][0]
  {
    assert [a, b, c][..2] + [a, b, c][3..] == [a, b];
    assert RemoveFirst([0], -1) == [0];
  }

  /** `u round action` with the round checked: removing a pick needs a round the player has. */
  function UndoChecked(fs: seq<Fighter>, ws: seq<int>, roundNum: Option<int>, action: string): (r: UndoOutcome)
    requires WinsValid(|fs|, ws)
    ensures r.Ignored? <==> UndoActionOf(action).None?
    ensures r.UndoFailed? <==> UndoActionOf(action) == Some("play") && fs != [] && roundNum.Some?
                               && !(0 <= roundNum.value - 1 < |fs|)
    ensures r.Undone? ==> WinsValid(|r.fighters|, r.wins)
  {
    match UndoActionOf(action)
    case None => Ignored
    case Some(act) =>
      var rn: Option<int> := if roundNum.Some? then Some(roundNum.value - 1) else None;
      var a: Option<string> := if roundNum.Some? then Some(act) else None;
      if fs != [] && a == Some("play") && rn.Some? && !(0 <= rn.value < |fs|) then UndoFailed(IndexErrorMsg)
      else
        UndoValid(fs, ws, a, rn);
        var (ok, fs', ws') := UndoneState(fs, ws, a, rn);
        Undone(ok, fs', ws')
  }

  /** Both agree whenever no round is given or the round is at least 1. */
  lemma UndoAgrees(fs: seq<Fighter>, ws: seq<int>, roundNum: Option<int>, action: string)
    requires WinsValid(|fs|, ws) && (roundNum.Some? ==> roundNum.value >= 1)
    ensures UndoAsWritten(fs, ws, roundNum, action) == UndoChecked(fs, ws, roundNum, action)
  {
    if UndoActionOf(action).Some? && fs != [] && roundNum.Some? {
      var t := roundNum.value - 1;
      var act := UndoActionOf(action).value;
      if act == "play" && t < |fs| {
        assert PyIndex(t, |fs|) == Some(t);
      }
    }
  }

  // ------------------------------------------------------------ change

  /** The settings `change` knows, by their names and abbreviations. */
  datatype Setting = Score | GameMode | BanLimit | Arena | Unknown

  function SettingOf(attr: string): (s: Setting)
    ensures s == Score <==> attr in {"w", "win", "wins"}
    ensures s == GameMode <==> attr in {"m", "mode", "gamemode"}
    ensures s == BanLimit <==> attr in {"b", "bans", "maxbans"}
    ensures s == Arena <==> attr in {"a", "arena", "id"}
  {
    if attr in {"w", "win", "wins"} then Score
    else if attr in {"m", "mode", "gamemode"} then GameMode
    else if attr in {"b", "bans", "maxbans"} then BanLimit
    else if attr in {"a", "arena", "id"} then Arena
    else Unknown
  }

  /**
   * `c a value` as written: the value is required, although the help says to
   * omit it to remove the id, and an id of digits arrives as an int, which
   * the id pattern cannot match (TypeError).
   */
  function ArenaAsWritten(raw: Option<string>): (r: Result<Option<string>, string>)
  {
    match raw
    case None => Err(MissingValMsg)
    case Some(s) =>
      match Convert(s)
      case IntArg(_) => Err(NotStringMsg)
      case StrArg(t) =>
        if t == "" then Ok(None)
        else
          match ArenaId(t)
          case Ok(v) => Ok(Some(v))
          case Err(e) => Err(e)
  }

  /** `c a value` as the help describes it: no value or an empty one removes the id, any other is checked as text. */
  function ArenaChange(raw: Option<string>): (r: Result<Option<string>, string>)
    ensures r == Ok(None) <==> raw.GetOr("") == ""
    ensures r.Err? <==> raw.GetOr("") != "" && !ArenaMatch(raw.GetOr(""))
    ensures r.Err? ==> r.error == raw.GetOr("") + " is not a valid Arena ID."
    ensures r.Ok? && r.value.Some? ==> ArenaId(raw.GetOr("")) == Ok(r.value.value)
  {
    var s := raw.GetOr("");
    if s == "" then Ok(None)
    else
      match ArenaId(s)
      case Ok(v) => Ok(Some(v))
      case Err(e) => Err(e)
  }

  /** Leaving the value out is refused as written, and removes the id as corrected. */
  lemma ArenaOmitted()
    ensures ArenaAsWritten(None).Err? && ArenaChange(None) == Ok(None)
  {
  }

  /** Five digits form a valid id, which `arena_id` returns unchanged. */
  lemma DigitsAreId(s: string)
    requires |s| == 5 && AllDigits(s)
    ensures ArenaMatch(s) && ArenaId(s) == Ok(s)
  {
    assert ArenaBody(s) == s;
    assert forall k :: 0 <= k < 5 ==> ArenaChar(s[k]) && ArenaUpper(s[k]) == s[k];
    var v := ArenaId(s).value;
    assert |v| == 5 && forall k :: 0 <= k < 5 ==> v[k] == s[k];
    assert v == s;
  }

  /** Such an id is refused as written, since it arrives as an int, and accepted as corrected. */
  lemma ArenaDigits(s: string)
    requires |s| == 5 && AllDigits(s)
    ensures ArenaChange(Some(s)) == Ok(Some(s))
    ensures ArenaAsWritten(Some(s)) == Err(NotStringMsg)
  {
    DigitsAreId(s);
    assert GroupsIn(s, 10);
    PlainLiteral(s);
    assert Convert(s).IntArg?;
  }

  // ------------------------------------------------------------ start

  /** `[p for p in players if p in self.players]`. */
  function InRegistry(ps: seq<nat>, keys: set<nat>): (r: seq<nat>)
    ensures |r| <= |ps|
    ensures forall m :: m in r <==> m in ps && m in keys
  {
    if |ps| == 0 then []
    else (if ps[0] in keys then [ps[0]] else []) + InRegistry(ps[1..], keys)
  }

  /** The players of a match keyed by their members: `dict(game.players)`. */
  function ByMember(ps: seq<Player>): (m: map<nat, Player>)
    requires forall i, j :: 0 <= i < j < |ps| ==> ps[i].member != ps[j].member
    ensures m.Keys == set i | 0 <= i < |ps| :: ps[i].member
    ensures forall i :: 0 <= i < |ps| ==> m[ps[i].member] == ps[i]
  {
    map i | 0 <= i < |ps| :: ps[i].member := ps[i]
  }

  /** The members a start names: the author comes first unless listed. */
  function Roster(author: nat, members: seq<nat>): (ps: seq<nat>)
    ensures author in ps && forall m :: m in ps <==> m == author || m in members
    ensures |ps| == if author in members then |members| else |members| + 1
  {
    if author in members then members else [author] + members
  }

  /** The score given at a start: none means 0, and negative scores become 0. */
  function StartScore(winningScore: Option<int>): (s: int)
    ensures s >= 0
    ensures winningScore.Some? && winningScore.value >= 0 ==> s == winningScore.value
    ensures winningScore.None? || winningScore.value <= 0 ==> s == 0
  {
    if winningScore.None? then 0 else Clamp(winningScore.value, Some(0), None)
  }

  datatype StartOutcome =
    | NotEnoughPlayers
    | TooManyPlayers
    | AlreadyInGame(members: seq<nat>)
    | BadBanLimit
    | Started(game: Game)

  /** An outcome of a command that can end the match. */
  datatype Ending = Continues | EndedByVote | EndedByWin(winner: Option<nat>)

  /** The outcome of `w round`. */
  datatype WinOutcome = NotRecorded | Recorded | GameWon(winner: nat)

  /** The registry once a match has ended: its members gone, everyone else kept. */
  predicate Unregistered(after: map<nat, Player>, before: map<nat, Player>, g: Game)
    reads g
  {
    && after.Keys == before.Keys - (set i | 0 <= i < |g.players| :: g.players[i].member)
    && forall m :: m in after ==> after[m] == before[m]
  }

  /** `max(players.items(), key=wins)`: the first player with the most wins. */
  predicate Leads(ps: seq<Player>, w: nat)
    reads ps
  {
    exists i :: (
      && 0 <= i < |ps| && w == ps[i].member
      && (forall j :: 0 <= j < |ps| ==> |ps[j].wins| <= |ps[i].wins|)
      && (forall j :: 0 <= j < i ==> |ps[j].wins| < |ps[i].wins|))
  }

  /** A count reaches the majority of `n` exactly when it is more than half of `n`. */
  lemma MajorityReached(c: int, n: nat)
    ensures c >= Majority(n) <==> 2 * c > n
  {
  }

  // ------------------------------------------------------------ add

  /** The members `add` brings in: those in no match, in the order given. */
  function Newcomers(ms: seq<nat>, registered: set<nat>): seq<nat> {
    if |ms| == 0 then []
    else Newcomers(ms[..|ms| - 1], registered) + (if ms[|ms| - 1] !in registered then [ms[|ms| - 1]] else [])
  }

  /** The members `add` reports: those playing in another match, in the order given. */
  function Elsewhere(ms: seq<nat>, registered: set<nat>, here: seq<nat>): seq<nat> {
    if |ms| == 0 then []
    else
      var m := ms[|ms| - 1];
      Elsewhere(ms[..|ms| - 1], registered, here) + (if m in registered && m !in here then [m] else [])
  }

  /** A member is brought in exactly when named and in no match. */
  lemma {:induction false} NewcomerIn(ms: seq<nat>, registered: set<nat>, m: nat)
    ensures m in Newcomers(ms, registered) <==> m in ms && m !in registered
    decreases |ms|
  {
    if |ms| > 0 {
      NewcomerIn(ms[..|ms| - 1], registered, m);
      assert ms == ms[..|ms| - 1] + [ms[|ms| - 1]];
    }
  }

  /** A member is reported exactly when named and playing in another match. */
  lemma {:induction false} ElsewhereIn(ms: seq<nat>, registered: set<nat>, here: seq<nat>, m: nat)
    ensures m in Elsewhere(ms, registered, here) <==> m in ms && m in registered && m !in here
    decreases |ms|
  {
    if |ms| > 0 {
      ElsewhereIn(ms[..|ms| - 1], registered, here, m);
      assert ms == ms[..|ms| - 1] + [ms[|ms| - 1]];
    }
  }

  /** The new players of a match keyed by member: the dict `add_players` returns. */
  function Joined(ps: seq<Player>, ms: seq<nat>): (m: map<nat, Player>)
    requires forall i, j :: 0 <= i < j < |ps| ==> ps[i].member != ps[j].member
    ensures m.Keys == set i | 0 <= i < |ps| && ps[i].member in ms :: ps[i].member
    ensures forall i :: 0 <= i < |ps| && ps[i].member in ms ==> m[ps[i].member] == ps[i]
  {
    map i | 0 <= i < |ps| && ps[i].member in ms :: ps[i].member := ps[i]
  }

  /** A player's state once `add` has reactivated it, when `back`. */
  function Rejoined(st: PlayerState, back: bool): PlayerState {
    if back then st.(active := true) else st
  }

  /** A player `add` brings in at `roundNum`: empty rounds up to and including it. */
  function Newcomer(roundNum: int): (st: PlayerState)
    ensures StateValid(st) && st.active && !st.end && st.wins == [] && st.bans == [] && st.banLimit == None
    ensures |st.fighters| == if roundNum >= 0 then roundNum + 1 else 0
    ensures forall k :: 0 <= k < |st.fighters| ==> st.fighters[k] == Filler
  {
    PlayerState(if roundNum >= 0 then Fillers(roundNum + 1) else [], [], [], None, false, true)
  }

  /** A fresh player given the empty pick at round `r` holds empty rounds up to it. */
  lemma FillerJoin(r: nat)
    ensures PlayedStateFixed([], [], Filler, Some(r)) == Some((Fillers(r + 1), []))
  {
    assert PadTo([], r) == Fillers(r + 1);
    assert Fillers(r + 1)[r := Filler] == Fillers(r + 1);
  }

  /** The cog: which player each member is in the match they play. */
  class Smash {
    var players: map<nat, Player>

    constructor ()
      ensures players == map[]
    {
      players := map[];
    }

    /**
     * `game_in_progress(player_active=...)`: the author plays, is active or
     * not as asked, writes in the match's channel (`gameChannel`, None before
     * the board is posted), the message has text and the match is not ending.
     */
    predicate InProgress(author: nat, playerActive: bool, channel: nat, gameChannel: Option<nat>, content: string)
      reads this, if author in players then {players[author], players[author].game} else {}
    {
      && author in players
      && players[author].active == playerActive
      && gameChannel == Some(channel)
      && content != ""
      && !players[author].game.ending
    }

    /** What a match command may rely on: `p` is the author's player, seated in a valid match. */
    predicate Seated(author: nat, p: Player)
      reads this, p, p.game, p.game.players
    {
      && author in players && players[author] == p && p.member == author
      && p.game.Valid()
      && p in p.game.players
    }

    /**
     * Starting a match: the author joins the members named; one player or
     * more than 25 is refused, and so is a start naming anybody already in a
     * match, with the registry unchanged. A negative ban limit makes the bans'
     * deque raise ValueError. Otherwise the new match's players join the
     * registry.
     */
    method Start(author: nat, arenaId: Option<string>, winningScore: Option<int>, members: seq<nat>,
                 maxBans: Option<int>, invokedWith: string) returns (r: StartOutcome)
      requires invokedWith in M.Modes()
      modifies this
      ensures var ps := Roster(author, members);
        && (r == NotEnoughPlayers <==> |ps| == 1)
        && (r == TooManyPlayers <==> |ps| > 25)
        && (r.AlreadyInGame? <==> 1 < |ps| <= 25 && exists m :: m in ps && m in old(players))
        && (r.AlreadyInGame? ==> r.members == InRegistry(ps, old(players).Keys))
        && (r == BadBanLimit <==> 1 < |ps| <= 25 && (forall m :: m in ps ==> m !in old(players))
                                  && maxBans.Some? && maxBans.value < 0)
      ensures !r.Started? ==> players == old(players)
      ensures r.Started? ==> var g := r.game;
        && fresh(g) && g.Valid()
        && g.Members() == AddKeys([], Roster(author, members))
        && (forall i :: 0 <= i < |g.players| ==> fresh(g.players[i]) && g.players[i].Blank(g.maxBans))
        && g.arenaId == arenaId && g.mode == invokedWith && g.winningScore == StartScore(winningScore)
        && g.maxBans == (if maxBans.Some? then Some(maxBans.value as nat) else None) && !g.ending
        && players == old(players) + ByMember(g.players)
        && (forall m :: m in players <==> m in old(players) || m in Roster(author, members))
    {
      var ps := Roster(author, members);
      if |ps| == 1 {
        return NotEnoughPlayers;
      }
      if |ps| > 25 {
        return TooManyPlayers;
      }
      var score := StartScore(winningScore);
      var already := InRegistry(ps, players.Keys);
      if already != [] {
        assert already[0] in ps && already[0] in players;
        return AlreadyInGame(already);
      }
      if maxBans.Some? && maxBans.value < 0 {
        return BadBanLimit;
      }
      var limit: Option<nat> := if maxBans.Some? then Some(maxBans.value as nat) else None;
      var g := Open(ps, arenaId, invokedWith, score, limit);
      r := Started(g);
    }

    /** `Game(...)` and `self.players.update(game.players)`. */
    method Open(ps: seq<nat>, arenaId: Option<string>, mode: string, score: int, limit: Option<nat>) returns (g: Game)
      modifies this
      ensures fresh(g) && g.Valid()
      ensures g.Members() == AddKeys([], ps)
      ensures forall i :: 0 <= i < |g.players| ==> fresh(g.players[i]) && g.players[i].Blank(limit)
      ensures g.arenaId == arenaId && g.mode == mode && g.winningScore == score && g.maxBans == limit && !g.ending
      ensures players == old(players) + ByMember(g.players)
      ensures forall m :: m in players <==> m in old(players) || m in ps
    {
      g := new Game(ps, arenaId, mode, score, limit);
      AddKeysShape([], ps);
      assert forall i, j :: 0 <= i < j < |g.players| ==> g.players[i].member != g.players[j].member by {
        assert DistinctKeys(g.Members());
      }
      var entries := ByMember(g.players);
      assert forall m :: m in entries <==> m in ps by {
        assert forall m :: m in entries <==> m in g.Members();
      }
      players := players + entries;
    }

    /** `b fighter`: the mode's ban check, and the ban when it passes. */
    method Ban(author: nat, p: Player, f: Fighter) returns (err: Option<string>)
      requires Seated(author, p) && p.game.mode in M.Modes()
      modifies p
      ensures Seated(author, p)
      ensures var c := M.BanCheck(M.Modes()[p.game.mode], old(M.Snapshot(p.game)), f);
        && (err.Some? <==> !c.result)
        && (err.Some? ==> err == c.message && p.State() == old(p.State()))
        && (err.None? ==> p.State() == old(p.State()).(bans := Bounded(old(p.bans) + [f], p.banLimit)))
    {
      var ps := M.Snapshot(p.game);
      M.SnapshotWinsValid(p.game);
      var c := M.BanCheck(M.Modes()[p.game.mode], ps, f);
      if !c.result {
        return c.message;
      }
      p.Ban(f);
      err := None;
    }

    /** `ub fighter`: one ban of it removed, or an error when the player did not ban it. */
    method Unban(author: nat, p: Player, f: Fighter) returns (err: Option<string>)
      requires Seated(author, p)
      modifies p
      ensures Seated(author, p)
      ensures err.None? <==> f in old(p.bans)
      ensures err.Some? ==> err.value == "You have not banned " + f.name + "."
      ensures p.State() == old(p.State()).(bans := RemoveFirst(old(p.bans), f))
    {
      if p.HasBanned(f) {
        var _ := p.Unban(f);
        err := None;
      } else {
        RemoveFirstAbsent(p.bans, f);
        err := Some("You have not banned " + f.name + ".");
      }
    }

    /**
     * `w round`: the round (the latest for 0) is marked won; the match ends
     * when the player's wins reach the winning score, and its members leave
     * the registry. A round the player does not have is an error.
     */
    method Win(author: nat, p: Player, roundNum: int) returns (r: Result<WinOutcome, string>)
      requires Seated(author, p)
      modifies this, p, p.game
      ensures p.game.Valid() && p.game.players == old(p.game.players)
      ensures var c := WinChecked(old(p.fighters), old(p.wins), roundNum);
        && (r.Err? <==> c.Err?) && (r.Err? ==> r.error == c.error && p.wins == old(p.wins))
        && (r.Ok? ==> p.wins == c.value.1 && (r.value != NotRecorded <==> c.value.0))
      ensures p.fighters == old(p.fighters) && p.bans == old(p.bans) && p.end == old(p.end) && p.active == old(p.active)
      ensures (r.Ok? && r.value.GameWon?) <==> (r.Ok? && r.value != NotRecorded && |p.wins| == p.game.winningScore)
      ensures r.Ok? && r.value.GameWon? ==> (
        && p.game.ending && Unregistered(players, old(players), p.game) && Leads(p.game.players, r.value.winner))
      ensures !(r.Ok? && r.value.GameWon?) ==> players == old(players) && p.game.ending == old(p.game.ending)
      ensures p.game.arenaId == old(p.game.arenaId) && p.game.mode == old(p.game.mode)
      ensures p.game.winningScore == old(p.game.winningScore) && p.game.maxBans == old(p.game.maxBans)
    {
      var g := p.game;
      var c := WinChecked(p.fighters, p.wins, roundNum);
      if c.Err? {
        return Err(c.error);
      }
      if p.fighters == [] {
        return Ok(NotRecorded);
      }
      var ok := p.Win(Some(WinTarget(roundNum, |p.fighters|)));
      if !ok {
        return Ok(NotRecorded);
      }
      if |p.wins| == g.winningScore {
        var winner := Finish(g, true);
        return Ok(GameWon(winner.value));
      }
      r := Ok(Recorded);
    }

    /** `game.end(reason)`: the match ends and its members leave the registry. */
    method Finish(g: Game, won: bool) returns (winner: Option<nat>)
      requires g.Valid()
      modifies this, g
      ensures g.Valid() && g.players == old(g.players) && g.ending
      ensures Unregistered(players, old(players), g)
      ensures winner.Some? <==> won && |g.players| > 0
      ensures winner.Some? ==> Leads(g.players, winner.value)
      ensures g.arenaId == old(g.arenaId) && g.mode == old(g.mode)
      ensures g.winningScore == old(g.winningScore) && g.maxBans == old(g.maxBans)
    {
      var registry;
      registry, winner := g.End(players, won);
      players := registry;
    }

    /** `end`: the player's vote flips, and the match ends once most of its active players vote to end. */
    method End(author: nat, p: Player) returns (ended: bool)
      requires Seated(author, p)
      modifies this, p, p.game
      ensures p.game.Valid() && p.game.players == old(p.game.players)
      ensures p.end == !old(p.end) && p.fighters == old(p.fighters) && p.wins == old(p.wins)
      ensures p.bans == old(p.bans) && p.banLimit == old(p.banLimit) && p.active == old(p.active)
      ensures ended <==> 2 * CountActiveEnd(p.game.players) > CountActive(p.game.players)
      ensures ended ==> p.game.ending && Unregistered(players, old(players), p.game)
      ensures !ended ==> players == old(players) && p.game.ending == old(p.game.ending)
      ensures p.game.arenaId == old(p.game.arenaId) && p.game.mode == old(p.game.mode)
      ensures p.game.winningScore == old(p.game.winningScore) && p.game.maxBans == old(p.game.maxBans)
    {
      var g := p.game;
      p.VoteToEnd();
      assert g.Valid();
      ghost var votes, active := CountActiveEnd(g.players), CountActive(g.players);
      MajorityReached(votes, active);
      ended := CountActiveEnd(g.players) >= g.VotesToEnd();
      if ended {
        var _ := Finish(g, false);
        assert CountActiveEnd(g.players) == votes && CountActive(g.players) == active;
      }
    }

    /**
     * `u round action`: `p`/`play` and `w`/`win` are the actions, anything
     * else is ignored. Without a round the latest action is undone whatever
     * the action named; with one, removing its pick needs a round the player
     * has.
     */
    method Undo(author: nat, p: Player, roundNum: Option<int>, action: string) returns (r: UndoOutcome)
      requires Seated(author, p)
      modifies p
      ensures Seated(author, p)
      ensures r == UndoChecked(old(p.fighters), old(p.wins), roundNum, action)
      ensures r.Undone? ==> p.fighters == r.fighters && p.wins == r.wins
      ensures !r.Undone? ==> p.fighters == old(p.fighters) && p.wins == old(p.wins)
      ensures p.bans == old(p.bans) && p.banLimit == old(p.banLimit) && p.end == old(p.end) && p.active == old(p.active)
    {
      var act := UndoActionOf(action);
      if act.None? {
        return Ignored;
      }
      if roundNum.None? {
        var ok := p.Undo(None, None);
        return Undone(ok, p.fighters, p.wins);
      }
      var t := roundNum.value - 1;
      if p.fighters != [] && act == Some("play") && !(0 <= t < |p.fighters|) {
        return UndoFailed(IndexErrorMsg);
      }
      var ok := p.Undo(act, Some(t));
      r := Undone(ok, p.fighters, p.wins);
    }

    /**
     * `c attr value`: `w` sets the winning score (negative becomes 0) and
     * ends the match at once when it is positive and somebody already has
     * that many wins; `m` picks another mode by its registered name; `b` sets
     * the ban limit (negative becomes 0), rebuilding every player's bans; `a`
     * sets or, given nothing, removes the arena id. A value of the wrong kind
     * is an error and changes nothing; an unknown setting changes nothing.
     * The result says whether the match ended. A missing value is taken as
     * `''` for every setting, the corrected signature of the arena finding.
     */
    method Change(author: nat, p: Player, attr: string, raw: Option<string>) returns (r: Result<bool, string>)
      requires Seated(author, p)
      modifies this, p.game, p.game.players
      ensures p.game.Valid() && p.game.players == old(p.game.players)
      ensures var v := Convert(raw.GetOr(""));
        SettingOf(attr) == Score ==>
          && (v.StrArg? ==> r == Err(v.s + " is not a valid score."))
          && (v.IntArg? ==> r.Ok? && p.game.winningScore == Clamp(v.i, Some(0), None))
          && (r.Ok? ==> (r.value <==> p.game.winningScore > 0 && exists j :: 0 <= j < |p.game.players| && |p.game.players[j].wins| >= p.game.winningScore))
      ensures var v := Convert(raw.GetOr(""));
        SettingOf(attr) == GameMode ==>
          && (r.Ok? <==> v.StrArg? && v.s in M.Modes())
          && (r.Ok? ==> p.game.mode == v.s)
          && (r.Err? ==> r.error == ArgText(v) + " is not a valid mode.")
      ensures var v := Convert(raw.GetOr(""));
        SettingOf(attr) == BanLimit ==>
          && (r.Ok? <==> v.IntArg?)
          && (r.Ok? ==> p.game.maxBans == Some(Clamp(v.i, Some(0), None) as nat))
          && (r.Ok? ==> forall j :: 0 <= j < |p.game.players| ==> p.game.players[j].State() == Rebounded(old(p.game.players[j].State()), p.game.maxBans))
          && (r.Err? ==> r.error == ArgText(v) + " is not a valid ban amount.")
      ensures SettingOf(attr) == Arena ==>
          && (r.Ok? <==> ArenaChange(raw).Ok?)
          && (r.Ok? ==> p.game.arenaId == ArenaChange(raw).value)
          && (r.Err? ==> r.error == ArenaChange(raw).error)
      ensures SettingOf(attr) == Unknown ==> r == Ok(false)
      ensures r.Ok? && r.value ==> p.game.ending && Unregistered(players, old(players), p.game)
      ensures !(r.Ok? && r.value) ==> players == old(players) && p.game.ending == old(p.game.ending)
      ensures !(SettingOf(attr) == Score && r.Ok?) ==> p.game.winningScore == old(p.game.winningScore)
      ensures !(SettingOf(attr) == GameMode && r.Ok?) ==> p.game.mode == old(p.game.mode)
      ensures !(SettingOf(attr) == Arena && r.Ok?) ==> p.game.arenaId == old(p.game.arenaId)
      ensures !(SettingOf(attr) == BanLimit && r.Ok?) ==> (
        && p.game.maxBans == old(p.game.maxBans)
        && forall j :: 0 <= j < |p.game.players| ==> p.game.players[j].State() == old(p.game.players[j].State()))
    {
      var g := p.game;
      var v := Convert(raw.GetOr(""));
      match SettingOf(attr)
      case Score => r := ChangeScore(g, v);
      case GameMode => r := ChangeMode(g, v);
      case BanLimit => r := ChangeBans(g, v);
      case Arena => r := ChangeArena(g, raw);
      case Unknown => r := Ok(false);
    }

    /** `c w value`. */
    method ChangeScore(g: Game, v: Arg) returns (r: Result<bool, string>)
      requires g.Valid()
      modifies this, g
      ensures g.Valid() && g.players == old(g.players)
      ensures v.StrArg? ==> r == Err(v.s + " is not a valid score.") && g.winningScore == old(g.winningScore)
      ensures v.IntArg? ==> r.Ok? && g.winningScore == Clamp(v.i, Some(0), None)
      ensures r.Ok? ==> (r.value <==> g.winningScore > 0 && exists j :: 0 <= j < |g.players| && |g.players[j].wins| >= g.winningScore)
      ensures r.Ok? && r.value ==> g.ending && Unregistered(players, old(players), g)
      ensures !(r.Ok? && r.value) ==> players == old(players) && g.ending == old(g.ending)
      ensures g.mode == old(g.mode) && g.arenaId == old(g.arenaId) && g.maxBans == old(g.maxBans)
    {
      if v.StrArg? {
        return Err(v.s + " is not a valid score.");
      }
      var score := Clamp(v.i, Some(0), None);
      g.winningScore := score;
      if score > 0 && exists j :: 0 <= j < |g.players| && |g.players[j].wins| >= score {
        var _ := Finish(g, true);
        return Ok(true);
      }
      r := Ok(false);
    }

    /** `c m value`. */
    method ChangeMode(g: Game, v: Arg) returns (r: Result<bool, string>)
      requires g.Valid()
      modifies g
      ensures g.Valid() && g.players == old(g.players)
      ensures r.Ok? <==> v.StrArg? && v.s in M.Modes()
      ensures r.Ok? ==> r.value == false && g.mode == v.s
      ensures r.Err? ==> r.error == ArgText(v) + " is not a valid mode." && g.mode == old(g.mode)
      ensures g.winningScore == old(g.winningScore) && g.arenaId == old(g.arenaId) && g.maxBans == old(g.maxBans)
      ensures g.ending == old(g.ending)
    {
      if v.StrArg? && v.s in M.Modes() {
        g.mode := v.s;
        r := Ok(false);
      } else {
        r := Err(ArgText(v) + " is not a valid mode.");
      }
    }

    /** `c b value`. */
    method ChangeBans(g: Game, v: Arg) returns (r: Result<bool, string>)
      requires g.Valid()
      modifies g, g.players
      ensures g.Valid() && g.players == old(g.players)
      ensures r.Ok? <==> v.IntArg?
      ensures r.Ok? ==> r.value == false && g.maxBans == Some(Clamp(v.i, Some(0), None) as nat)
      ensures r.Ok? ==> forall j :: 0 <= j < |g.players| ==> g.players[j].State() == Rebounded(old(g.players[j].State()), g.maxBans)
      ensures r.Err? ==> r.error == ArgText(v) + " is not a valid ban amount." && g.maxBans == old(g.maxBans)
      ensures r.Err? ==> forall j :: 0 <= j < |g.players| ==> g.players[j].State() == old(g.players[j].State())
      ensures g.winningScore == old(g.winningScore) && g.arenaId == old(g.arenaId) && g.mode == old(g.mode)
      ensures g.ending == old(g.ending)
    {
      if v.StrArg? {
        return Err(ArgText(v) + " is not a valid ban amount.");
      }
      g.SetMaxBans(Some(Clamp(v.i, Some(0), None) as nat));
      r := Ok(false);
    }

    /** `c a value`. */
    method ChangeArena(g: Game, raw: Option<string>) returns (r: Result<bool, string>)
      requires g.Valid()
      modifies g
      ensures g.Valid() && g.players == old(g.players)
      ensures r.Ok? <==> ArenaChange(raw).Ok?
      ensures r.Ok? ==> r.value == false && g.arenaId == ArenaChange(raw).value
      ensures r.Err? ==> r.error == ArenaChange(raw).error && g.arenaId == old(g.arenaId)
      ensures g.winningScore == old(g.winningScore) && g.mode == old(g.mode) && g.maxBans == old(g.maxBans)
      ensures g.ending == old(g.ending)
    {
      var a := ArenaChange(raw);
      if a.Err? {
        return Err(a.error);
      }
      g.arenaId := a.value;
      r := Ok(false);
    }

    /**
     * `add members`: members in no match join this one as new players, with
     * empty rounds up to the one before the author's current round; members
     * already in this match take part again; members of other matches are
     * only reported.
     */
    method Add(author: nat, p: Player, ms: seq<nat>) returns (already: seq<nat>)
      requires Seated(author, p)
      modifies this, p.game, p.game.players
      ensures Seated(author, p)
      ensures p.fighters == old(p.fighters)
      ensures already == Elsewhere(ms, old(players).Keys, old(p.game.Members()))
      ensures p.game.Members() == AddKeys(old(p.game.Members()), Newcomers(ms, old(players).Keys))
      ensures players == old(players) + Joined(p.game.players, Newcomers(ms, old(players).Keys))
      ensures forall i :: 0 <= i < |p.game.players| && p.game.players[i].member in Newcomers(ms, old(players).Keys) ==>
        fresh(p.game.players[i]) && p.game.players[i].State() == Newcomer(p.CurrentRound() - 1)
      ensures forall i :: 0 <= i < |p.game.players| && p.game.players[i].member !in Newcomers(ms, old(players).Keys) ==>
        && i < |old(p.game.players)| && p.game.players[i] == old(p.game.players)[i]
        && p.game.players[i].State() == Rejoined(old(p.game.players[i].State()), p.game.players[i].member in ms)
      ensures p.game.arenaId == old(p.game.arenaId) && p.game.mode == old(p.game.mode) && p.game.ending == old(p.game.ending)
      ensures p.game.winningScore == old(p.game.winningScore) && p.game.maxBans == old(p.game.maxBans)
    {
      var g := p.game;
      ghost var ps0, members0, keys := g.players, g.Members(), players.Keys;
      ghost var ai :| 0 <= ai < |ps0| && ps0[ai] == p;
      var toAdd;
      toAdd, already := Sort(g, ms);
      NewcomerIn(ms, keys, author);
      assert author !in toAdd && g.Members() == members0;
      ghost var st1 := M.Snapshot(g);
      forall i | 0 <= i < |ps0| && ps0[i].member !in toAdd
        ensures st1[i] == Rejoined(old(ps0[i].State()), ps0[i].member in ms)
      {
        NewcomerIn(ms, keys, ps0[i].member);
      }
      // With nobody to add the source returns here; enrolling nobody changes nothing either.
      Enroll(g, toAdd, p.CurrentRound() - 1);
      assert author !in Joined(g.players, toAdd);
      assert forall i :: 0 <= i < |ps0| ==> ps0[i].State() == st1[i];
    }

    /** The loop over the members named: who joins, who is reported, and who takes part again. */
    method Sort(g: Game, ms: seq<nat>) returns (toAdd: seq<nat>, already: seq<nat>)
      requires g.Valid()
      modifies g.players
      ensures g.Valid()
      ensures toAdd == Newcomers(ms, players.Keys)
      ensures already == Elsewhere(ms, players.Keys, g.Members())
      ensures forall k :: 0 <= k < |g.players| ==>
        g.players[k].State() == Rejoined(old(g.players[k].State()), g.players[k].member in ms && g.players[k].member in players)
    {
      ghost var ps := g.players;
      ghost var before := seq(|ps|, k requires 0 <= k < |ps| reads ps => ps[k].State());
      ghost var keys, here := players.Keys, g.Members();
      toAdd, already := [], [];
      var j := 0;
      while j < |ms|
        invariant 0 <= j <= |ms| && g.Valid()
        invariant toAdd == Newcomers(ms[..j], keys)
        invariant already == Elsewhere(ms[..j], keys, here)
        invariant g.players == ps
        invariant forall k :: 0 <= k < |ps| ==>
          ps[k].State() == Rejoined(before[k], ps[k].member in ms[..j] && ps[k].member in keys)
      {
        var m := ms[j];
        assert ms[..j + 1] == ms[..j] + [m];
        assert forall x :: x in ms[..j + 1] <==> x in ms[..j] || x == m;
        assert ms[..j + 1][..j] == ms[..j] && ms[..j + 1][j] == m;
        toAdd, already := Take(g, m, toAdd, already);
        j := j + 1;
      }
      assert ms[..j] == ms;
    }

    /** One member named by `add`: joins, is reported, or takes part again. */
    method Take(g: Game, m: nat, toAdd: seq<nat>, already: seq<nat>) returns (toAdd': seq<nat>, already': seq<nat>)
      requires g.Valid()
      modifies g.players
      ensures g.Valid()
      ensures toAdd' == toAdd + (if m !in players then [m] else [])
      ensures already' == already + (if m in players && m !in g.Members() then [m] else [])
      ensures forall k :: 0 <= k < |g.players| ==>
        g.players[k].State() == Rejoined(old(g.players[k].State()), g.players[k].member == m && m in players)
    {
      toAdd', already' := toAdd, already;
      if m !in players {
        toAdd' := toAdd + [m];
      } else if m !in g.Members() {
        already' := already + [m];
      } else {
        var k :| 0 <= k < |g.players| && g.players[k].member == m;
        assert forall i :: 0 <= i < |g.players| && i != k ==> g.players[i].member != m;
        g.players[k].active := true;
      }
    }

    /** The new players join the match and the registry, and are given empty rounds up to `roundNum`. */
    method Enroll(g: Game, toAdd: seq<nat>, roundNum: int)
      requires g.Valid()
      modifies this, g
      ensures g.Valid()
      ensures g.Members() == AddKeys(old(g.Members()), toAdd)
      ensures players == old(players) + Joined(g.players, toAdd)
      ensures forall i :: 0 <= i < |g.players| ==>
        if g.players[i].member in toAdd then fresh(g.players[i]) && g.players[i].State() == Newcomer(roundNum)
        else i < |old(g.players)| && g.players[i] == old(g.players)[i]
      ensures |g.players| >= |old(g.players)|
      ensures forall i :: 0 <= i < |old(g.players)| && old(g.players)[i].member !in toAdd ==> g.players[i] == old(g.players)[i]
      ensures g.arenaId == old(g.arenaId) && g.mode == old(g.mode) && g.ending == old(g.ending)
      ensures g.winningScore == old(g.winningScore) && g.maxBans == old(g.maxBans)
    {
      Join(g, toAdd);
      Pad(g, toAdd, roundNum);
    }

    /** `game.add_players(*to_add)` and `self.players.update(...)` with the new players. */
    method Join(g: Game, toAdd: seq<nat>)
      requires g.Valid()
      modifies this, g
      ensures g.Valid()
      ensures g.Members() == AddKeys(old(g.Members()), toAdd)
      ensures players == old(players) + Joined(g.players, toAdd)
      ensures forall i :: 0 <= i < |g.players| ==> if g.players[i].member in toAdd then fresh(g.players[i]) && g.players[i].Blank(None) else i < |old(g.players)| && g.players[i] == old(g.players)[i]
      ensures |g.players| >= |old(g.players)|
      ensures forall i :: 0 <= i < |old(g.players)| && old(g.players)[i].member !in toAdd ==> g.players[i] == old(g.players)[i]
      ensures g.arenaId == old(g.arenaId) && g.mode == old(g.mode) && g.ending == old(g.ending)
      ensures g.winningScore == old(g.winningScore) && g.maxBans == old(g.maxBans)
    {
      g.AddPlayers(toAdd);
      AddKeysShape(old(g.Members()), toAdd);
      assert forall i, j :: 0 <= i < j < |g.players| ==> g.players[i].member != g.players[j].member by {
        assert DistinctKeys(g.Members());
      }
      players := players + Joined(g.players, toAdd);
    }

    /** The empty pick at `roundNum` for every new player, when it is a round. */
    method Pad(g: Game, toAdd: seq<nat>, roundNum: int)
      requires g.Valid()
      requires forall k :: 0 <= k < |g.players| && g.players[k].member in toAdd ==> g.players[k].Blank(None)
      modifies set k | 0 <= k < |g.players| && g.players[k].member in toAdd :: g.players[k]
      ensures g.Valid()
      ensures forall k :: 0 <= k < |g.players| && g.players[k].member in toAdd ==> g.players[k].State() == Newcomer(roundNum)
    {
      if roundNum < 0 {
        return;
      }
      FillerJoin(roundNum);
      ghost var ps := g.players;
      ghost var before := seq(|ps|, k requires 0 <= k < |ps| reads ps => ps[k].State());
      var i := 0;
      while i < |g.players|
        invariant 0 <= i <= |g.players| && g.players == ps && g.Valid()
        invariant forall k :: 0 <= k < |ps| ==>
          ps[k].State() == if k < i && ps[k].member in toAdd then Newcomer(roundNum) else before[k]
      {
        if g.players[i].member in toAdd {
          assert forall k :: 0 <= k < |ps| && k != i ==> ps[k] != ps[i] by {
            assert forall k :: 0 <= k < |ps| && k != i ==> ps[k].member != ps[i].member;
          }
          var _ := g.players[i].Play(Filler, Some(roundNum));
        }
        i := i + 1;
      }
    }

    /** `leave`: the player stops taking part but stays registered, so cannot join another match. */
    method Leave(author: nat, p: Player)
      requires Seated(author, p)
      modifies p
      ensures Seated(author, p)
      ensures p.State() == old(p.State()).(active := false)
    {
      p.active := false;
    }

    /** `rejoin`: the player takes part again. */
    method Rejoin(author: nat, p: Player)
      requires Seated(author, p)
      modifies p
      ensures Seated(author, p)
      ensures p.State() == old(p.State()).(active := true)
    {
      p.active := true;
    }
  }
}
