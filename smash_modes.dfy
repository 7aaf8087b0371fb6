/**
 * The game modes of a Smash match (cogs/smash/modes.py): each mode decides
 * whether a player may pick, and whether a player may ban, a fighter. The
 * checks only read the players of the match, so they are functions over
 * snapshots of those players, in the order the match holds them.
 */
module SmashModes {
  import opened Wrappers
  import opened Text
  import opened SmashModels

  /** The outcome of a check: whether it allows the action, and the reason when it does not. */
  datatype CheckResult = CheckResult(result: bool, message: Option<string>)

  /** `bool(check)`: the result itself. */
  predicate Truthy(c: CheckResult) { c.result }

  /** Allowed results carry no reason; refused ones always do. */
  predicate WellFormed(c: CheckResult) { c.result <==> c.message.None? }

  function Allowed(): CheckResult { CheckResult(true, None) }

  function Refused(message: string): CheckResult { CheckResult(false, Some(message)) }

  // The reasons given, with the fighter's name in front.
  function IsBannedMsg(f: Fighter): string { f.name + " is banned." }
  function AlreadyBannedMsg(f: Fighter): string { f.name + " is already banned." }
  function YouPlayedMsg(f: Fighter): string { "You have already played " + f.name + "." }
  function EveryonePlayedMsg(f: Fighter): string { "Everyone has already played " + f.name + "." }
  function BeenPlayedMsg(f: Fighter): string { f.name + " has already been played." }
  function WonMsg(f: Fighter): string { f.name + " has already won." }

  /** The four rule classes. */
  datatype Mode = Smash | Elimination | Smashdown | Smasharound

  /** The class name, which the registry stores lower-cased. */
  function Name(m: Mode): string {
    match m
    case Smash => "Smash"
    case Elimination => "Elimination"
    case Smashdown => "Smashdown"
    case Smasharound => "Smasharound"
  }

  function Description(m: Mode): string {
    match m
    case Smash => "You may pick any fighter."
    case Elimination => "You may not pick any fighter you have already played."
    case Smashdown => "You may not pick any fighter that has already been played."
    case Smasharound => "You may not pick any fighter that has already won."
  }

  /** The class names lower-cased. */
  lemma LowerNames()
    ensures Lower(Name(Smash)) == "smash" && Lower(Name(Elimination)) == "elimination"
    ensures Lower(Name(Smashdown)) == "smashdown" && Lower(Name(Smasharound)) == "smasharound"
  {
    assert Lower(Name(Smash)) == "smash";
    assert Lower(Name(Elimination)) == "elimination";
    assert Lower(Name(Smashdown)) == "smashdown";
    assert Lower(Name(Smasharound)) == "smasharound";
  }

  /** `MODES`: every rule class under its lower-cased class name, and nothing else. */
  function Modes(): (r: map<string, Mode>)
    ensures forall m: Mode :: Lower(Name(m)) in r && r[Lower(Name(m))] == m
    ensures forall k :: k in r ==> k == Lower(Name(r[k]))
  {
    LowerNames();
    map["smash" := Smash, "elimination" := Elimination, "smashdown" := Smashdown, "smasharound" := Smasharound]
  }

  /** The snapshots of a match's players, as the checks see them. */
  function Snapshot(g: Game): (ps: seq<PlayerState>)
    reads g, g.players
    ensures |ps| == |g.players| && forall i :: 0 <= i < |ps| ==> ps[i] == g.players[i].State()
  {
    seq(|g.players|, i requires 0 <= i < |g.players| reads g, g.players => g.players[i].State())
  }

  /** The players of a valid match keep their wins valid. */
  lemma SnapshotWinsValid(g: Game)
    requires g.Valid()
    ensures AllWinsValid(Snapshot(g))
  {
  }

  /** `player.has_played(f)`: placeholders never count. */
  predicate Played(p: PlayerState, f: Fighter) { f in p.fighters && f.Real? }

  predicate Banned(p: PlayerState, f: Fighter) { f in p.bans }

  /** `game.is_banned(f)`. */
  predicate AnyBanned(ps: seq<PlayerState>, f: Fighter) {
    exists i :: 0 <= i < |ps| && Banned(ps[i], f)
  }

  /** `game.is_banned` on the match agrees with the snapshot. */
  lemma IsBannedSnapshot(g: Game, f: Fighter)
    ensures g.IsBanned(f) <==> AnyBanned(Snapshot(g), f)
  {
    var ps := Snapshot(g);
    if g.IsBanned(f) {
      var i :| 0 <= i < |g.players| && g.players[i].HasBanned(f);
      assert Banned(ps[i], f);
    }
    if AnyBanned(ps, f) {
      var i :| 0 <= i < |ps| && Banned(ps[i], f);
      assert g.players[i].HasBanned(f);
    }
  }

  /** Smash: a pick is refused exactly when someone banned the fighter. */
  function SmashPick(ps: seq<PlayerState>, f: Fighter): (r: CheckResult)
    ensures WellFormed(r)
    ensures !r.result <==> AnyBanned(ps, f)
    ensures !r.result ==> r.message == Some(IsBannedMsg(f))
  {
    if AnyBanned(ps, f) then Refused(IsBannedMsg(f)) else Allowed()
  }

  /** Smash: a ban is refused exactly when the fighter is already banned. */
  function SmashBan(ps: seq<PlayerState>, f: Fighter): (r: CheckResult)
    ensures WellFormed(r)
    ensures !r.result <==> AnyBanned(ps, f)
    ensures !r.result ==> r.message == Some(AlreadyBannedMsg(f))
  {
    if AnyBanned(ps, f) then Refused(AlreadyBannedMsg(f)) else Allowed()
  }

  /** Elimination: a pick is refused when the picker played it before, which is checked first, or it is banned. */
  function EliminationPick(ps: seq<PlayerState>, me: nat, f: Fighter): (r: CheckResult)
    requires me < |ps|
    ensures WellFormed(r)
    ensures !r.result <==> Played(ps[me], f) || AnyBanned(ps, f)
    ensures Played(ps[me], f) ==> r.message == Some(YouPlayedMsg(f))
    ensures !Played(ps[me], f) && AnyBanned(ps, f) ==> r.message == Some(IsBannedMsg(f))
  {
    if Played(ps[me], f) then Refused(YouPlayedMsg(f))
    else if AnyBanned(ps, f) then Refused(IsBannedMsg(f))
    else Allowed()
  }

  /** `all(pl.has_played(f) for pl in players)`. */
  predicate AllPlayed(ps: seq<PlayerState>, f: Fighter) {
    forall i :: 0 <= i < |ps| ==> Played(ps[i], f)
  }

  /** Elimination: a ban is refused when every player has played the fighter, or it is already banned. */
  function EliminationBan(ps: seq<PlayerState>, f: Fighter): (r: CheckResult)
    ensures WellFormed(r)
    ensures !r.result <==> AllPlayed(ps, f) || AnyBanned(ps, f)
    ensures AllPlayed(ps, f) ==> r.message == Some(EveryonePlayedMsg(f))
    ensures !AllPlayed(ps, f) && AnyBanned(ps, f) ==> r.message == Some(AlreadyBannedMsg(f))
  {
    if AllPlayed(ps, f) then Refused(EveryonePlayedMsg(f))
    else if AnyBanned(ps, f) then Refused(AlreadyBannedMsg(f))
    else Allowed()
  }

  /** Whether one player has played or banned the fighter. */
  predicate Touched(p: PlayerState, f: Fighter) { Played(p, f) || Banned(p, f) }

  /**
   * The Smashdown loop: the first player who played or banned the fighter
   * refuses it, with `bannedMsg` as the reason when that player banned it.
   */
  function FirstTouch(ps: seq<PlayerState>, f: Fighter, bannedMsg: string): (r: CheckResult)
    ensures WellFormed(r)
    ensures !r.result <==> exists i :: 0 <= i < |ps| && Touched(ps[i], f)
  {
    if |ps| == 0 then Allowed()
    else if Played(ps[0], f) then Refused(BeenPlayedMsg(f))
    else if Banned(ps[0], f) then Refused(bannedMsg)
    else
      var r := FirstTouch(ps[1..], f, bannedMsg);
      assert forall i :: 1 <= i < |ps| ==> ps[i] == ps[1..][i - 1];
      r
  }

  /** Smashdown: a pick is refused when anybody played or banned the fighter. */
  function SmashdownPick(ps: seq<PlayerState>, f: Fighter): (r: CheckResult)
    ensures WellFormed(r)
    ensures !r.result <==> exists i :: 0 <= i < |ps| && Touched(ps[i], f)
  {
    FirstTouch(ps, f, IsBannedMsg(f))
  }

  /** Smashdown: a ban is refused on exactly the same condition, with another reason for a ban. */
  function SmashdownBan(ps: seq<PlayerState>, f: Fighter): (r: CheckResult)
    ensures WellFormed(r)
    ensures !r.result <==> exists i :: 0 <= i < |ps| && Touched(ps[i], f)
  {
    FirstTouch(ps, f, AlreadyBannedMsg(f))
  }

  /**
   * The first player in order who played or banned the fighter decides the
   * reason: played if that player played it, banned otherwise.
   */
  lemma {:induction false} FirstTouchDecides(ps: seq<PlayerState>, f: Fighter, bannedMsg: string, i: nat)
    requires i < |ps| && Touched(ps[i], f)
    requires forall j :: 0 <= j < i ==> !Touched(ps[j], f)
    ensures FirstTouch(ps, f, bannedMsg).message == Some(if Played(ps[i], f) then BeenPlayedMsg(f) else bannedMsg)
  {
    if i > 0 {
      assert !Touched(ps[0], f);
      assert forall j :: 0 <= j < i - 1 ==> ps[1..][j] == ps[j + 1];
      FirstTouchDecides(ps[1..], f, bannedMsg, i - 1);
    }
  }

  /** The fighters of the rounds a player won: `[p.fighters[i] for i in p.wins]`. */
  function WonFighters(p: PlayerState): (ws: seq<Fighter>)
    requires WinsValid(|p.fighters|, p.wins)
    ensures |ws| == |p.wins| && forall k :: 0 <= k < |ws| ==> ws[k] == p.fighters[p.wins[k]]
  {
    seq(|p.wins|, k requires 0 <= k < |p.wins| => p.fighters[p.wins[k]])
  }

  predicate AllWinsValid(ps: seq<PlayerState>) {
    forall i :: 0 <= i < |ps| ==> WinsValid(|ps[i].fighters|, ps[i].wins)
  }

  /** A real fighter some player won a round with. */
  predicate AnyWon(ps: seq<PlayerState>, f: Fighter)
    requires AllWinsValid(ps)
  {
    f.Real? && exists i :: 0 <= i < |ps| && f in WonFighters(ps[i])
  }

  /** The Smasharound checks: refused when banned, which is checked first, or when it already won. */
  function WonCheck(ps: seq<PlayerState>, f: Fighter, bannedMsg: string): (r: CheckResult)
    requires AllWinsValid(ps)
    ensures WellFormed(r)
    ensures !r.result <==> AnyBanned(ps, f) || AnyWon(ps, f)
    ensures AnyBanned(ps, f) ==> r.message == Some(bannedMsg)
    ensures !AnyBanned(ps, f) && AnyWon(ps, f) ==> r.message == Some(WonMsg(f))
  {
    if AnyBanned(ps, f) then Refused(bannedMsg)
    else if AnyWon(ps, f) then Refused(WonMsg(f))
    else Allowed()
  }

  /** A fighter won with is one whose round is among the player's wins. */
  lemma WonFightersAt(p: PlayerState, f: Fighter)
    requires WinsValid(|p.fighters|, p.wins)
    ensures f in WonFighters(p) <==> exists k :: 0 <= k < |p.wins| && p.fighters[p.wins[k]] == f
  {
    var ws := WonFighters(p);
    if f in ws {
      var k :| 0 <= k < |ws| && ws[k] == f;
      assert p.fighters[p.wins[k]] == f;
    }
  }

  /** The check `modes[mode].pick_check(player, f)`, for the player at `me`. */
  function PickCheck(m: Mode, ps: seq<PlayerState>, me: nat, f: Fighter): (r: CheckResult)
    requires me < |ps| && AllWinsValid(ps)
    ensures WellFormed(r)
    ensures r.result ==> !AnyBanned(ps, f)
  {
    match m
    case Smash => SmashPick(ps, f)
    case Elimination => EliminationPick(ps, me, f)
    case Smashdown =>
      var r := SmashdownPick(ps, f);
      assert AnyBanned(ps, f) ==> exists i :: 0 <= i < |ps| && Touched(ps[i], f);
      r
    case Smasharound => WonCheck(ps, f, IsBannedMsg(f))
  }

  /** The check `modes[mode].ban_check(player, f)`. */
  function BanCheck(m: Mode, ps: seq<PlayerState>, f: Fighter): (r: CheckResult)
    requires AllWinsValid(ps)
    ensures WellFormed(r)
    ensures r.result ==> !AnyBanned(ps, f)
  {
    match m
    case Smash => SmashBan(ps, f)
    case Elimination => EliminationBan(ps, f)
    case Smashdown =>
      var r := SmashdownBan(ps, f);
      assert AnyBanned(ps, f) ==> exists i :: 0 <= i < |ps| && Touched(ps[i], f);
      r
    case Smasharound => WonCheck(ps, f, AlreadyBannedMsg(f))
  }

  /** Every mode is at least as strict as Smash: what it allows, Smash allows. */
  lemma SmashMostLenient(m: Mode, ps: seq<PlayerState>, me: nat, f: Fighter)
    requires me < |ps| && AllWinsValid(ps)
    ensures PickCheck(m, ps, me, f).result ==> SmashPick(ps, f).result
    ensures BanCheck(m, ps, f).result ==> SmashBan(ps, f).result
  {
  }

  /** Smashdown allows a pick exactly when it allows a ban; only the reason for a ban differs. */
  lemma SmashdownPickIsBan(ps: seq<PlayerState>, f: Fighter)
    ensures SmashdownPick(ps, f).result == SmashdownBan(ps, f).result
  {
  }

  /** A placeholder is never refused for having been played or won: only bans count against it. */
  lemma FakeOnlyBanned(m: Mode, ps: seq<PlayerState>, me: nat, f: Fighter)
    requires me < |ps| && AllWinsValid(ps) && f.Fake?
    ensures PickCheck(m, ps, me, f).result <==> !AnyBanned(ps, f)
    ensures BanCheck(m, ps, f).result <==> !AnyBanned(ps, f)
  {
  }
}
