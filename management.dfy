/**
 * The management cog's decisions: which messages `purge` collects and who may
 * purge, the first-match role lookup of `addrole` and `removerole`, the
 * per-channel `autotts` table, and what `on_member_update` does with a guild's
 * new-member role. Members, messages and roles are plain values; the Discord
 * and database calls they lead to are the outcomes the model returns.
 */
module Management {
  import opened Wrappers
  import opened Text

  /** A message of the channel history, by its author's member id. */
  datatype Msg = Msg(id: nat, author: nat)

  /** A message is collected when no member is given or the member wrote it. */
  predicate Keep(m: Msg, member: Option<nat>) {
    member.None? || m.author == member.value
  }

  /** The messages of `history` that are collected, in history order. */
  function Matches(history: seq<Msg>, member: Option<nat>): (r: seq<Msg>)
    ensures |r| <= |history|
  {
    if |history| == 0 then []
    else Matches(history[..|history| - 1], member)
         + (if Keep(history[|history| - 1], member) then [history[|history| - 1]] else [])
  }

  /** Every match is a message of the history that is kept. */
  lemma {:induction false} MatchesSound(history: seq<Msg>, member: Option<nat>)
    ensures forall k :: 0 <= k < |Matches(history, member)| ==>
      Matches(history, member)[k] in history && Keep(Matches(history, member)[k], member)
  {
    if |history| > 0 {
      var init := history[..|history| - 1];
      MatchesSound(init, member);
      assert forall m :: m in init ==> m in history;
    }
  }

  lemma MatchesSnoc(history: seq<Msg>, m: Msg, member: Option<nat>)
    ensures Matches(history + [m], member)
         == Matches(history, member) + (if Keep(m, member) then [m] else [])
  {
    assert (history + [m])[..|history|] == history;
  }

  /** The matches of a prefix of the history are a prefix of all its matches. */
  lemma {:induction false} MatchesPrefix(history: seq<Msg>, j: nat, member: Option<nat>)
    requires j <= |history|
    ensures var p := Matches(history[..j], member);
      |p| <= |Matches(history, member)| && p == Matches(history, member)[..|p|]
    decreases |history| - j
  {
    if j < |history| {
      MatchesPrefix(history, j + 1, member);
      assert history[..j + 1] == history[..j] + [history[j]];
      MatchesSnoc(history[..j], history[j], member);
    } else {
      assert history[..j] == history;
    }
  }

  /** Every message of the history that is kept is among the matches. */
  lemma {:induction false} MatchesComplete(history: seq<Msg>, member: Option<nat>, k: nat)
    requires k < |history| && Keep(history[k], member)
    ensures history[k] in Matches(history, member)
  {
    var n := |history| - 1;
    if k < n {
      assert history[..n][k] == history[k];
      MatchesComplete(history[..n], member, k);
    }
  }

  /** Matches can also be taken from the front of the history. */
  lemma {:induction false} MatchesCons(m: Msg, rest: seq<Msg>, member: Option<nat>)
    ensures Matches([m] + rest, member) == (if Keep(m, member) then [m] else []) + Matches(rest, member)
    decreases |rest|
  {
    if |rest| == 0 {
      assert [m] + rest == [] + [m];
      MatchesSnoc([], m, member);
    } else {
      var init := rest[..|rest| - 1];
      var last := rest[|rest| - 1];
      assert [m] + rest == ([m] + init) + [last];
      assert rest == init + [last];
      MatchesCons(m, init, member);
      MatchesSnoc([m] + init, last, member);
      MatchesSnoc(init, last, member);
    }
  }

  /**
   * The collection loop of `purge` as written, on what is left of the history
   * and what has been collected so far: each match is appended, and the loop
   * stops once exactly `count` messages are collected.
   */
  function Scan(count: int, member: Option<nat>, rest: seq<Msg>, acc: seq<Msg>): seq<Msg>
    decreases |rest|
  {
    if |rest| == 0 then acc
    else
      var next := acc + (if Keep(rest[0], member) then [rest[0]] else []);
      if |next| == count then next else Scan(count, member, rest[1..], next)
  }

  /** Once more messages are collected than `count`, the loop never stops early. */
  lemma {:induction false} ScanAll(count: int, member: Option<nat>, rest: seq<Msg>, acc: seq<Msg>)
    requires count < |acc|
    ensures Scan(count, member, rest, acc) == acc + Matches(rest, member)
    decreases |rest|
  {
    if |rest| == 0 {
      assert acc + [] == acc;
    } else {
      var m, tail := rest[0], rest[1..];
      var taken := if Keep(m, member) then [m] else [];
      var next := acc + taken;
      assert rest == [m] + tail;
      MatchesCons(m, tail, member);
      assert Matches(rest, member) == taken + Matches(tail, member);
      assert Scan(count, member, rest, acc) == Scan(count, member, tail, next);
      ScanAll(count, member, tail, next);
    }
  }

  /** Below `count`, the loop collects up to `count` messages in all. */
  lemma {:induction false} ScanUpTo(count: int, member: Option<nat>, rest: seq<Msg>, acc: seq<Msg>)
    requires |acc| < count
    ensures var all := acc + Matches(rest, member);
      Scan(count, member, rest, acc) == all[..Min(count, |all|)]
    decreases |rest|
  {
    if |rest| == 0 {
      assert acc + [] == acc;
    } else {
      var next := acc + (if Keep(rest[0], member) then [rest[0]] else []);
      assert rest == [rest[0]] + rest[1..];
      MatchesCons(rest[0], rest[1..], member);
      assert acc + Matches(rest, member) == next + Matches(rest[1..], member);
      if |next| == count {
        assert (next + Matches(rest[1..], member))[..count] == next;
      } else {
        ScanUpTo(count, member, rest[1..], next);
      }
    }
  }

  /**
   * What the loop collects: a positive count takes the first `count` matches;
   * a negative count never stops and takes every match; a zero count stops at
   * once unless the newest message is a match, and then takes them all.
   */
  lemma ScanCases(count: int, member: Option<nat>, history: seq<Msg>)
    ensures var r, all := Scan(count, member, history, []), Matches(history, member);
      && (count >= 1 ==> r == all[..Min(count, |all|)])
      && (count < 0 ==> r == all)
      && (count == 0 ==> r == (if |history| > 0 && Keep(history[0], member) then all else []))
  {
    if count >= 1 {
      ScanUpTo(count, member, history, []);
      assert [] + Matches(history, member) == Matches(history, member);
    } else if count < 0 {
      ScanAll(count, member, history, []);
      assert [] + Matches(history, member) == Matches(history, member);
    } else if |history| > 0 {
      var h := history[0];
      assert history == [h] + history[1..];
      MatchesCons(h, history[1..], member);
      if Keep(h, member) {
        assert [] + [h] == [h];
        ScanAll(count, member, history[1..], [h]);
      }
    }
  }

  /** `purge`'s collection loop over the channel history. */
  method Collect(count: int, member: Option<nat>, history: seq<Msg>) returns (toRemove: seq<Msg>)
    ensures toRemove == Scan(count, member, history, [])
    ensures count >= 1 ==> toRemove == Matches(history, member)[..Min(count, |Matches(history, member)|)]
    ensures count < 0 ==> toRemove == Matches(history, member)
    ensures count == 0 ==>
      toRemove == (if |history| > 0 && Keep(history[0], member) then Matches(history, member) else [])
  {
    toRemove := [];
    var i := 0;
    var stopped := false;
    while i < |history| && !stopped
      invariant 0 <= i <= |history|
      invariant stopped ==> Scan(count, member, history, []) == toRemove
      invariant !stopped ==> Scan(count, member, history, []) == Scan(count, member, history[i..], toRemove)
    {
      assert history[i..][0] == history[i] && history[i..][1..] == history[i + 1..];
      ghost var before := toRemove;
      if Keep(history[i], member) {
        toRemove := toRemove + [history[i]];
      }
      assert toRemove == before + (if Keep(history[i], member) then [history[i]] else []);
      if |toRemove| == count {
        stopped := true;
      }
      i := i + 1;
    }
    ScanCases(count, member, history);
  }

  function Min(a: int, b: int): int { if a <= b then a else b }

  /**
   * The collection `purge` evidently intends: at most `count` matches, and
   * none for a count below one.
   */
  method CollectBounded(count: int, member: Option<nat>, history: seq<Msg>) returns (toRemove: seq<Msg>)
    ensures toRemove == Matches(history, member)[..Min(if count < 0 then 0 else count, |Matches(history, member)|)]
    ensures |toRemove| <= (if count < 0 then 0 else count)
  {
    toRemove := [];
    var i := 0;
    while i < |history| && |toRemove| < count
      invariant 0 <= i <= |history|
      invariant toRemove == Matches(history[..i], member)
      invariant |toRemove| <= (if count < 0 then 0 else count)
    {
      MatchesSnoc(history[..i], history[i], member);
      assert history[..i + 1] == history[..i] + [history[i]];
      if Keep(history[i], member) {
        toRemove := toRemove + [history[i]];
      }
      i := i + 1;
    }
    MatchesPrefix(history, i, member);
    if i == |history| {
      assert history[..i] == history;
    }
  }

  /** Who may purge: `purge`'s permission test. */
  predicate PurgeAllowed(member: Option<nat>, author: nat, manageMessages: bool, me: nat, authorIsOwner: bool) {
    || member.None?
    || member.value == author
    || manageMessages
    || (member.value == me && authorIsOwner)
  }

  datatype PurgeReply = TooMany | Silent | Remove(msgs: seq<Msg>)

  /**
   * `purge(count, member)`, collecting with the corrected `CollectBounded`:
   * refused above 100, silently ignored without permission, otherwise the
   * newest `count` matching messages to delete (none for a count of zero or
   * less, where the command as written can collect every match).
   */
  method Purge(count: int, member: Option<nat>, author: nat, manageMessages: bool, me: nat,
               authorIsOwner: bool, history: seq<Msg>) returns (reply: PurgeReply)
    ensures count > 100 <==> reply == TooMany
    ensures reply == Silent <==> count <= 100 && !PurgeAllowed(member, author, manageMessages, me, authorIsOwner)
    ensures reply.Remove? ==>
      && PurgeAllowed(member, author, manageMessages, me, authorIsOwner)
      && reply.msgs == Matches(history, member)[..Min(if count < 0 then 0 else count, |Matches(history, member)|)]
      && |reply.msgs| <= 100
  {
    if count > 100 {
      return TooMany;
    }
    if PurgeAllowed(member, author, manageMessages, me, authorIsOwner) {
      var msgs := CollectBounded(count, member, history);
      reply := Remove(msgs);
    } else {
      reply := Silent;
    }
  }

  /** Whether a reply speaks of one message or of several. */
  datatype Number = Singular | Plural

  /** The reply when Discord forbids the deletion, in the given number. */
  function ForbiddenText(n: Number): string {
    var which := if n == Singular then "The" else "Some";
    var plural := if n == Singular then "" else "s";
    which + " message" + plural + " couldn't be deleted."
  }

  /** The two forms of the reply differ. */
  lemma ForbiddenTextDiffers()
    ensures ForbiddenText(Singular) != ForbiddenText(Plural)
  {
    assert |ForbiddenText(Singular)| < |ForbiddenText(Plural)|;
  }

  /** The number of the forbidden reply as written: plural once anything was collected. */
  function ForbiddenReply(removed: nat): (n: Number)
    ensures n == Plural <==> removed >= 1
  {
    if removed < 1 then Singular else Plural
  }

  /** A single message that cannot be deleted is reported in the plural. */
  lemma ForbiddenSingle()
    ensures ForbiddenText(ForbiddenReply(1)) == ForbiddenText(Plural)
    ensures ForbiddenReplyFixed(1) == Singular
  {
  }

  /** The number evidently intended: plural exactly when several messages were tried. */
  function ForbiddenReplyFixed(removed: nat): (n: Number)
    ensures n == Plural <==> removed > 1
  {
    if removed <= 1 then Singular else Plural
  }

  /** A guild role: its name and whether it grants no permissions at all. */
  datatype Role = Role(name: string, noPermissions: bool)

  /** The index of the first role whose lower-cased name is `name` lower-cased. */
  function FirstNamed(roles: seq<Role>, name: string): (r: Option<nat>)
    ensures r.Some? ==> r.value < |roles| && Lower(roles[r.value].name) == Lower(name)
    ensures r.Some? ==> forall k :: 0 <= k < r.value ==> Lower(roles[k].name) != Lower(name)
    ensures r.None? ==> forall k :: 0 <= k < |roles| ==> Lower(roles[k].name) != Lower(name)
  {
    if |roles| == 0 then None
    else if Lower(roles[0].name) == Lower(name) then Some(0)
    else match FirstNamed(roles[1..], name)
      case None => None
      case Some(i) => Some(i + 1)
  }

  datatype RoleLookup = Grantable(role: Role) | Unavailable | Missing

  /** The `for ... else` search of `addrole` and `removerole`: the first match decides. */
  method FindRole(roles: seq<Role>, name: string) returns (r: RoleLookup)
    ensures FirstNamed(roles, name).None? <==> r == Missing
    ensures FirstNamed(roles, name).Some? ==>
      var role := roles[FirstNamed(roles, name).value];
      r == (if role.noPermissions then Grantable(role) else Unavailable)
  {
    var wanted := Lower(name);
    var i := 0;
    while i < |roles|
      invariant 0 <= i <= |roles|
      invariant forall k :: 0 <= k < i ==> Lower(roles[k].name) != wanted
    {
      if Lower(roles[i].name) == wanted && roles[i].noPermissions {
        FirstIs(roles, name, i);
        return Grantable(roles[i]);
      } else if Lower(roles[i].name) == wanted {
        FirstIs(roles, name, i);
        return Unavailable;
      }
      i := i + 1;
    }
    r := Missing;
  }

  lemma {:induction false} FirstIs(roles: seq<Role>, name: string, i: nat)
    requires i < |roles| && Lower(roles[i].name) == Lower(name)
    requires forall k :: 0 <= k < i ==> Lower(roles[k].name) != Lower(name)
    ensures FirstNamed(roles, name) == Some(i)
  {
    if i > 0 {
      assert Lower(roles[0].name) != Lower(name);
      FirstIs(roles[1..], name, i - 1);
    }
  }

  const AddMissing := "That role does not exist."
  const RemoveMissing := "You do not have that role."

  /**
   * The search `addrole(name)` and `removerole(name)` share: the role to add
   * or remove, or the refusal. `addrole` searches the guild's roles and
   * reports `AddMissing`; `removerole` searches the author's own roles and
   * reports `RemoveMissing`.
   */
  method ChooseRole(roles: seq<Role>, name: string, missing: string) returns (r: Result<Role, string>)
    ensures FirstNamed(roles, name).Some? && roles[FirstNamed(roles, name).value].noPermissions
      ==> r == Ok(roles[FirstNamed(roles, name).value])
    ensures FirstNamed(roles, name).None? ==> r == Err(missing)
    ensures FirstNamed(roles, name).Some? && !roles[FirstNamed(roles, name).value].noPermissions
      ==> r == Err("That role is not available for use with this command.")
  {
    var found := FindRole(roles, name);
    match found
    case Grantable(role) => r := Ok(role);
    case Unavailable => r := Err("That role is not available for use with this command.");
    case Missing => r := Err(missing);
  }

  /** The cog's `tts` table: channel id to whether AutoTTS is on. */
  class Cog {
    var tts: map<nat, bool>

    constructor()
      ensures tts == map[]
    {
      tts := map[];
    }

    /** `self.tts.get(channel)`, read as a truth value. */
    function TtsOn(channel: nat): bool
      reads this
    {
      channel in tts && tts[channel]
    }

    /**
     * `autotts(toggle)`: without a toggle it reports and changes nothing;
     * with one it records the toggle for this channel only.
     */
    method AutoTts(channel: nat, toggle: Option<bool>) returns (reply: string)
      modifies this
      ensures toggle.None? ==> tts == old(tts)
      ensures toggle.None? ==>
        reply == "AutoTTS is " + (if old(TtsOn(channel)) then "enabled" else "disabled") + " for this channel."
      ensures toggle.Some? ==> tts == old(tts)[channel := toggle.value]
      ensures toggle.Some? ==>
        reply == "AutoTTS is now " + (if toggle.value then "enabled" else "disabled") + " for this channel."
      ensures toggle.Some? ==> TtsOn(channel) == toggle.value
      ensures forall c :: c != channel ==> TtsOn(c) == old(TtsOn(c))
    {
      if toggle.None? {
        var status := if TtsOn(channel) then "enabled" else "disabled";
        return "AutoTTS is " + status + " for this channel.";
      }
      tts := tts[channel := toggle.value];
      var status := if toggle.value then "enabled" else "disabled";
      reply := "AutoTTS is now " + status + " for this channel.";
    }
  }

  /** The guild's `newrole` settings row. */
  datatype Settings = Settings(autoadd: bool, autoremove: bool)

  /** What `on_member_update` does. `Crash` is the NameError of the deletion path. */
  datatype Action = Nothing | DeleteSettings | RemoveNewRole | AddNewRole | Crash

  /**
   * The input of `on_member_update`: whether the bot may manage roles, the
   * role counts before and after, the settings row, the new role's position
   * (`None` when the role no longer exists), the bot's top role position and
   * whether the updated member has the new role.
   */
  datatype Update = Update(canManage: bool, lenBefore: nat, lenAfter: nat, settings: Option<Settings>,
                           newRolePos: Option<int>, botTop: int, hasNewRole: bool)

  /** The decision after the guard chain, once the new role is known to exist. */
  function Act(u: Update): Action
    requires u.settings.Some?
  {
    if u.settings.value.autoremove && u.lenAfter > u.lenBefore then
      if u.hasNewRole then RemoveNewRole else Nothing
    else if u.settings.value.autoadd && u.lenAfter == 1 then AddNewRole
    else Nothing
  }

  /** `on_member_update` as written: the deletion path names an undefined `member`. */
  function MemberUpdateAsWritten(u: Update): Action {
    if !u.canManage || u.lenBefore == u.lenAfter then Nothing
    else if u.settings.None? || !(u.settings.value.autoremove || u.settings.value.autoadd) then Nothing
    else if u.newRolePos.None? then Crash
    else if u.newRolePos.value > u.botTop then Nothing
    else Act(u)
  }

  lemma MemberUpdateCrashes(u: Update)
    requires u.canManage && u.lenBefore != u.lenAfter && u.settings == Some(Settings(true, false))
    requires u.newRolePos.None?
    ensures MemberUpdateAsWritten(u) == Crash
  {
  }

  /** `on_member_update` as intended: a vanished new role deletes the settings row. */
  function MemberUpdate(u: Update): (r: Action)
    ensures r != Crash
  {
    if !u.canManage || u.lenBefore == u.lenAfter then Nothing
    else if u.settings.None? || !(u.settings.value.autoremove || u.settings.value.autoadd) then Nothing
    else if u.newRolePos.None? then DeleteSettings
    else if u.newRolePos.value > u.botTop then Nothing
    else Act(u)
  }

  /** Every guard of the chain must pass before a role is touched. */
  predicate Guards(u: Update) {
    && u.canManage
    && u.lenBefore != u.lenAfter
    && u.settings.Some? && (u.settings.value.autoremove || u.settings.value.autoadd)
    && u.newRolePos.Some? && u.newRolePos.value <= u.botTop
  }

  /** The new role is removed exactly when the guards pass, autoremove is on, roles grew and the member has it. */
  lemma RemoveIff(u: Update)
    ensures MemberUpdate(u) == RemoveNewRole <==>
      Guards(u) && u.settings.value.autoremove && u.lenAfter > u.lenBefore && u.hasNewRole
  {
  }

  /**
   * The new role is added exactly when the guards pass, the removal branch was
   * not taken, autoadd is on and only `@everyone` remains.
   */
  lemma AddIff(u: Update)
    ensures MemberUpdate(u) == AddNewRole <==>
      && Guards(u)
      && !(u.settings.value.autoremove && u.lenAfter > u.lenBefore)
      && u.settings.value.autoadd && u.lenAfter == 1
  {
  }

  /** The settings row is deleted exactly when it is active but names a role that is gone. */
  lemma DeleteIff(u: Update)
    ensures MemberUpdate(u) == DeleteSettings <==>
      && u.canManage && u.lenBefore != u.lenAfter
      && u.settings.Some? && (u.settings.value.autoremove || u.settings.value.autoadd)
      && u.newRolePos.None?
  {
  }
}
