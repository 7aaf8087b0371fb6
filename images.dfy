/**
 * The images cog's decisions: the xkcd address, the random comic pick, the
 * category parameter of a cat image request, the reaction tally `vote_check`
 * keeps while an image is up for rating, and the score `rerate` reads.
 * HTTP, XML and the reactions as emoji are outside the model: a reaction is
 * its index in the cog's `REACTIONS` tuple, whose emoji strings are a
 * parameter.
 */
module Images {
  import opened Wrappers
  import opened Text
  import UtilsPkg

  const XkcdHome := "http://xkcd.com/"

  /**
   * `make_xkcd_url(num)`: `None` stands for the default `''`. Python treats
   * both `''` and `0` as false, so neither adds a number.
   */
  function XkcdUrl(num: Option<nat>): (r: string)
    ensures num.None? || num.value == 0 ==> r == XkcdHome + "info.0.json"
    ensures num.Some? && num.value > 0 ==> r == XkcdHome + NatToString(num.value) + "/" + "info.0.json"
  {
    var url := XkcdHome;
    var url := if num.Some? && num.value != 0 then url + NatToString(num.value) + "/" else url;
    url + "info.0.json"
  }

  /** A numbered address names its comic: the number reads back from the path. */
  lemma XkcdUrlNumber(n: nat)
    requires n > 0
    ensures var r := XkcdUrl(Some(n));
      var path := r[|XkcdHome|..|r| - |"/info.0.json"|];
      StartsWith(r, XkcdHome) && AllDigits(path) && DigitsValue(path) == n
  {
    var r := XkcdUrl(Some(n));
    var d := NatToString(n);
    assert r == XkcdHome + d + "/info.0.json";
    assert r[|XkcdHome|..|r| - |"/info.0.json"|] == d;
    NatToStringRoundTrip(n);
  }

  /**
   * The random pick of `xkcd r`: `randint(1, latest)` is drawn until it is
   * not 404. The draws are a parameter; `None` means the given draws ran out.
   */
  method PickComic(latest: int, draws: seq<int>) returns (comic: Option<int>)
    requires forall k :: 0 <= k < |draws| ==> 1 <= draws[k] <= latest
    ensures comic.Some? ==> 1 <= comic.value <= latest && comic.value != 404
    ensures comic.Some? ==>
      exists k :: 0 <= k < |draws| && draws[k] == comic.value && forall j :: 0 <= j < k ==> draws[j] == 404
    ensures comic.None? <==> forall k :: 0 <= k < |draws| ==> draws[k] == 404
  {
    var i := 0;
    while i < |draws|
      invariant 0 <= i <= |draws|
      invariant forall j :: 0 <= j < i ==> draws[j] == 404
    {
      var c := draws[i];
      if c != 404 {
        return Some(c);
      }
      i := i + 1;
    }
    comic := None;
  }

  const Categories := ["hats", "space", "funny", "sunglasses", "boxes",
                       "caturday", "ties", "dream", "sinks", "clothes"]

  /**
   * The `{category}` slot of the image request, as written: a listed category
   * becomes `&category=<name>`, while any other text, after the "Invalid
   * category" reply, is left as it was and goes into the address raw.
   */
  function CategoryParam(category: string): (r: string)
    ensures category in Categories ==> r == "&category=" + category
    ensures category !in Categories ==> r == category
  {
    if category in Categories then "&category=" + category else category
  }

  /** The category slot evidently intended: an unlisted category adds nothing. */
  function CategoryParamFixed(category: string): (r: string)
    ensures category in Categories ==> r == "&category=" + category
    ensures category !in Categories ==> r == ""
  {
    if category in Categories then "&category=" + category else ""
  }

  /** The image request address with its `{category}` slot filled. */
  function GetUrl(apiKey: string, slot: string, subId: string): string {
    "http://thecatapi.com/api/images/get?api_key=" + apiKey + "&format=xml" + slot + "&sub_id=" + subId
  }

  /** As written, an unlisted category runs into the `format` value of the address. */
  lemma CategoryLeaks(apiKey: string, category: string, subId: string)
    requires category != "" && category !in Categories
    ensures var u := GetUrl(apiKey, CategoryParam(category), subId);
      var at := |"http://thecatapi.com/api/images/get?api_key=" + apiKey + "&format=xml"|;
      u[at..at + |category|] == category
  {
  }

  /** With the fix the slot is either a well-formed `&category=` pair or empty. */
  lemma CategoryFixedShape(category: string)
    ensures var p := CategoryParamFixed(category);
      p == "" || (StartsWith(p, "&category=") && p[|"&category="|..] in Categories)
  {
  }

  /** A call to the cat API queued by a reaction, by the reacting user's id. */
  datatype CatCall = Fave(sub: nat) | Report(sub: nat)

  /**
   * The state `vote_check` closes over while an image is up for rating:
   * the latest score per user, the users who faved it, the queued API calls
   * and whether it was reported.
   */
  class VoteTally {
    var votes: map<nat, nat>
    var faved: set<nat>
    var actions: seq<CatCall>
    var reported: bool

    constructor()
      ensures votes == map[] && faved == {} && actions == [] && !reported
    {
      votes := map[];
      faved := {};
      actions := [];
      reported := false;
    }

    /** `len(actions) + len(votes)`: what the tally is capped by. */
    function Total(): nat
      reads this
    {
      |actions| + |votes|
    }

    /**
     * `vote_check(reaction, user)` for the reaction at index `score` of
     * `REACTIONS`: 1 to 10 records the user's score, replacing an earlier one;
     * 11 faves; 0 reports and stops. Collection also stops when the total
     * reaches 20, which it cannot skip: it grows by at most one per reaction.
     */
    method Check(user: nat, score: nat) returns (stop: bool)
      requires score < 12
      requires Total() < 20 && !reported
      modifies this
      ensures 1 <= score <= 10 ==>
        (votes == old(votes)[user := score] && faved == old(faved) && actions == old(actions) && !reported)
      ensures score == 11 ==>
        (faved == old(faved) + {user} && actions == old(actions) + [Fave(user)] && votes == old(votes) && !reported)
      ensures score == 0 ==>
        (reported && actions == old(actions) + [Report(user)] && votes == old(votes) && faved == old(faved))
      ensures Total() <= old(Total()) + 1
      ensures stop <==> reported || Total() == 20
      ensures !stop ==> Total() < 20
    {
      if 1 <= score <= 10 {
        CardUpdate(votes, user, score);
        votes := votes[user := score];
      } else if score == 11 {
        faved := faved + {user};
        actions := actions + [Fave(user)];
      } else {
        reported := true;
        actions := actions + [Report(user)];
        return true;
      }
      stop := |actions| + |votes| == 20;
    }
  }

  /** Updating a map adds a key only when it was missing. */
  lemma CardUpdate(m: map<nat, nat>, k: nat, v: nat)
    ensures |m[k := v]| == if k in m then |m| else |m| + 1
  {
    if k in m {
      assert m[k := v].Keys == m.Keys;
    } else {
      assert m[k := v].Keys == m.Keys + {k};
    }
  }

  /** The number of leading decimal digits of `s`. */
  function DigitRun(s: string): (n: nat)
    ensures n <= |s|
    ensures forall k :: 0 <= k < n ==> IsDigit(s[k])
    ensures n < |s| ==> !IsDigit(s[n])
  {
    if |s| > 0 && IsDigit(s[0]) then 1 + DigitRun(s[1..]) else 0
  }

  /**
   * `re.match(r'(-?[0-9]*)/10', s)`: the text of the group when `s` starts
   * with an optional minus, digits and `/10`. The digits cannot hold a `/`,
   * so the match, when there is one, is the one with the longest digit run.
   */
  function ScoreGroup(s: string): (g: Option<string>)
    ensures g.Some? ==> StartsWith(s, g.value + "/10")
  {
    var sign := if |s| > 0 && s[0] == '-' then 1 else 0;
    var end := sign + DigitRun(s[sign..]);
    if StartsWith(s[end..], "/10") then
      assert s[..end + 3] == s[..end] + "/10";
      Some(s[..end])
    else None
  }

  /** What `int(group)` gives for the group text; `None` for `''` and `'-'`. */
  function GroupValue(g: string): Option<int> {
    if |g| > 0 && g[0] == '-' then
      if AllDigits(g[1..]) then Some(-(DigitsValue(g[1..]) as int)) else None
    else if AllDigits(g) then Some(DigitsValue(g))
    else None
  }

  /** The score `rerate` reads, or why it reads none. */
  datatype ScoreRead = Score(value: int) | InvalidFormat | Raises

  /**
   * Python's `tuple.index`: the first position of `x`. Defined where `x`
   * occurs.
   */
  function IndexIn(xs: seq<string>, x: string): (i: nat)
    requires x in xs
    ensures i < |xs| && xs[i] == x && x !in xs[..i]
  {
    if xs[0] == x then 0 else 1 + IndexIn(xs[1..], x)
  }

  /** The emoji of `REACTIONS`: twelve different strings, the digit ones at 1 to 10. */
  predicate ReactionSet(reactions: seq<string>) {
    |reactions| == 12 && forall i, j :: 0 <= i < j < 12 ==> reactions[i] != reactions[j]
  }

  /**
   * `rerate`'s reading of `new_score`, as written: a digit string, clamped
   * to [1, 10]; a digit reaction, by its index; otherwise an `X/10` prefix
   * with `X` clamped. A match with no digits (`/10`, `-/10`) reaches
   * `int('')` or `int('-')`, which raises.
   */
  function ReadScore(reactions: seq<string>, newScore: string): (r: ScoreRead)
    requires ReactionSet(reactions)
  {
    if AllDigits(newScore) then Score(UtilsPkg.Between(DigitsValue(newScore), 1, 10, true))
    else if newScore in reactions[1..11] then Score(IndexIn(reactions, newScore))
    else match ScoreGroup(newScore)
      case None => InvalidFormat
      case Some(g) =>
        match GroupValue(g)
        case None => Raises
        case Some(v) => Score(UtilsPkg.Between(v, 1, 10, true))
  }

  /** The fraction with no digits is the input that raises. */
  lemma ReadScoreRaises(reactions: seq<string>, s: string)
    requires ReactionSet(reactions) && s !in reactions
    requires s == "/10"
    ensures ReadScore(reactions, s) == Raises
  {
    assert s[0..] == s && DigitRun(s) == 0;
    assert ScoreGroup(s) == Some("");
  }

  /**
   * The reading evidently intended (the group as `-?[0-9]+`): a fraction with
   * no digits is an invalid format, and every score read is in [1, 10].
   */
  function ReadScoreFixed(reactions: seq<string>, newScore: string): (r: ScoreRead)
    requires ReactionSet(reactions)
    ensures r != Raises
    ensures r.Score? ==> 1 <= r.value <= 10
  {
    if AllDigits(newScore) then Score(UtilsPkg.Between(DigitsValue(newScore), 1, 10, true))
    else if newScore in reactions[1..11] then Score(ReactionScore(reactions, newScore))
    else match ScoreGroup(newScore)
      case None => InvalidFormat
      case Some(g) =>
        match GroupValue(g)
        case None => InvalidFormat
        case Some(v) => Score(UtilsPkg.Between(v, 1, 10, true))
  }

  /** A digit reaction's index is its score, between 1 and 10. */
  function ReactionScore(reactions: seq<string>, s: string): (i: nat)
    requires ReactionSet(reactions) && s in reactions[1..11]
    ensures 1 <= i <= 10 && reactions[i] == s
  {
    var i := IndexIn(reactions, s);
    var k :| 0 <= k < 10 && reactions[1..11][k] == s;
    assert reactions[k + 1] == s;
    assert i == k + 1;
    i
  }

  /** The two readings agree everywhere except where the written one raises. */
  lemma ReadScoreAgrees(reactions: seq<string>, s: string)
    requires ReactionSet(reactions)
    ensures ReadScore(reactions, s) != Raises ==> ReadScore(reactions, s) == ReadScoreFixed(reactions, s)
    ensures ReadScore(reactions, s) == Raises ==> ReadScoreFixed(reactions, s) == InvalidFormat
  {
    if !AllDigits(s) && s in reactions[1..11] {
      assert ReactionScore(reactions, s) == IndexIn(reactions, s);
    }
  }

  /** A digit string is its value clamped to [1, 10]. */
  lemma ReadDigits(reactions: seq<string>, s: string)
    requires ReactionSet(reactions) && AllDigits(s)
    ensures var v := DigitsValue(s);
      ReadScoreFixed(reactions, s) == Score(if v < 1 then 1 else if v > 10 then 10 else v)
  {
  }

  /** `X/10` followed by anything reads as `X` clamped, when `X` has digits. */
  lemma ReadFraction(reactions: seq<string>, x: string, rest: string)
    requires ReactionSet(reactions) && AllDigits(x)
    requires x + "/10" + rest !in reactions
    ensures var v := DigitsValue(x);
      ReadScoreFixed(reactions, x + "/10" + rest) == Score(if v < 1 then 1 else if v > 10 then 10 else v)
  {
    var s := x + "/10" + rest;
    assert s[0] == x[0] && s[0] != '-';
    RunOf(x, "/10" + rest);
    assert s == x + ("/10" + rest);
    assert s[0..] == s;
    assert s[|x|..] == "/10" + rest;
    assert !AllDigits(s) by { assert !IsDigit(s[|x|]); }
    assert ScoreGroup(s) == Some(x);
  }

  /** The digit run of digits followed by a non-digit is exactly those digits. */
  lemma {:induction false} RunOf(x: string, tail: string)
    requires forall k :: 0 <= k < |x| ==> IsDigit(x[k])
    requires |tail| > 0 && !IsDigit(tail[0])
    ensures DigitRun(x + tail) == |x|
  {
    if |x| > 0 {
      assert (x + tail)[1..] == x[1..] + tail;
      RunOf(x[1..], tail);
    }
  }

  /**
   * `rerate(image_id, new_score)`, reading the score with the corrected
   * `ReadScoreFixed`: an image the user has not rated is refused before the
   * score is read, and an unreadable score (including `/10`, where the
   * command as written raises) gives the format message.
   */
  function Rerate(ratedIds: seq<string>, imageId: string, reactions: seq<string>, newScore: string): (r: Result<int, string>)
    requires ReactionSet(reactions)
    ensures imageId !in ratedIds ==> r == Err("Invalid image_id.")
    ensures r.Ok? ==> imageId in ratedIds && 1 <= r.value <= 10
    ensures imageId in ratedIds && ReadScoreFixed(reactions, newScore) == InvalidFormat ==>
      r == Err("Invalid score format.")
    ensures imageId in ratedIds && ReadScoreFixed(reactions, newScore).Score? ==>
      r == Ok(ReadScoreFixed(reactions, newScore).value)
  {
    if imageId !in ratedIds then Err("Invalid image_id.")
    else match ReadScoreFixed(reactions, newScore)
      case Score(v) => Ok(v)
      case _ => Err("Invalid score format.")
  }
}
