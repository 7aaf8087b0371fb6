/**
 * The general helpers of the single-file bot: the one-line command
 * description, the padding used to align the command list, the stream
 * name/link normaliser and the per-command permission predicate.
 */
module DiscordBot {
  import opened Wrappers
  import opened Text

  /** A docstring up to and including its first full stop, or all of it. */
  function FirstSentence(doc: string): (r: string)
    ensures |r| > 0 ==> '.' !in r[..|r| - 1]
    ensures '.' in doc ==> |r| > 0 && r[|r| - 1] == '.'
    ensures '.' !in doc ==> r == doc
    ensures StartsWith(doc, r)
  {
    if '.' in doc then doc[..IndexOf(doc, '.') + 1] else doc
  }

  /**
   * `func_desc`: "No description." without a docstring; otherwise the first
   * sentence, copied one character at a time with a space put before every
   * newline.
   */
  method FuncDesc(doc: Option<string>) returns (desc: string)
    ensures doc.None? ==> desc == "No description."
    ensures doc.Some? ==> desc == ReplaceAll(FirstSentence(doc.value), '\n', " \n")
  {
    if doc.None? {
      return "No description.";
    }
    var d := doc.value;
    desc := "";
    var i := 0;
    while i < |d|
      invariant 0 <= i <= |d|
      invariant '.' !in d[..i]
      invariant desc == ReplaceAll(d[..i], '\n', " \n")
    {
      var c := d[i];
      ReplaceAllAppend(d[..i], c, '\n', " \n");
      assert d[..i + 1] == d[..i] + [c];
      if c == '\n' {
        desc := desc + " ";
      }
      desc := desc + [c];
      if c == '.' {
        IndexOfAt(d, '.', i);
        return;
      }
      i := i + 1;
    }
    assert d[..i] == d;
  }

  /** The expanded description ends in a full stop exactly when the docstring has one. */
  lemma {:induction false} ExpandedEnd(s: string)
    requires |s| > 0
    ensures |ReplaceAll(s, '\n', " \n")| > 0
    ensures ReplaceAll(s, '\n', " \n")[|ReplaceAll(s, '\n', " \n")| - 1] == s[|s| - 1]
  {
    var init := s[..|s| - 1];
    assert s == init + [s[|s| - 1]];
    ReplaceAllAppend(init, s[|s| - 1], '\n', " \n");
  }

  /** The longest word length, 0 for no words. */
  function MaxLen(words: seq<string>): (m: nat)
    ensures forall i :: 0 <= i < |words| ==> |words[i]| <= m
    ensures |words| > 0 ==> exists i :: 0 <= i < |words| && |words[i]| == m
    ensures |words| == 0 ==> m == 0
  {
    if |words| == 0 then 0
    else
      var rest := MaxLen(words[..|words| - 1]);
      assert forall i :: 0 <= i < |words| - 1 ==> words[..|words| - 1][i] == words[i];
      if |words[|words| - 1]| > rest then |words[|words| - 1]| else rest
  }

  /** `list_align`: for every word, how much shorter it is than the longest one. */
  method ListAlign(words: seq<string>) returns (lens: seq<int>)
    ensures |lens| == |words|
    ensures forall i :: 0 <= i < |words| ==> lens[i] == MaxLen(words) - |words[i]|
    ensures forall i :: 0 <= i < |words| ==> lens[i] >= 0
    ensures |words| > 0 ==> exists i :: 0 <= i < |words| && lens[i] == 0
  {
    var longest := 0;
    var k := 0;
    while k < |words|
      invariant 0 <= k <= |words|
      invariant longest == MaxLen(words[..k])
    {
      assert words[..k + 1][..k] == words[..k];
      if |words[k]| > longest {
        longest := |words[k]|;
      }
      k := k + 1;
    }
    assert words[..k] == words;
    lens := [];
    k := 0;
    while k < |words|
      invariant 0 <= k <= |words|
      invariant |lens| == k
      invariant forall i :: 0 <= i < k ==> lens[i] == longest - |words[i]|
    {
      lens := lens + [longest - |words[k]|];
      k := k + 1;
    }
  }

  datatype Stream = Stream(name: string, link: string)

  predicate IsLink(nl: string) {
    StartsWith(nl, "http://") || StartsWith(nl, "https://")
    || StartsWith(nl, "twitch.tv") || StartsWith(nl, "hitbox.tv")
  }

  /**
   * `stream_name_link`: a link keeps itself and is named by its last path
   * segment; a bare name gets a lower-cased twitch.tv link.
   */
  function StreamNameLink(nl: string): (r: Stream)
    ensures IsLink(nl) ==> r.link == nl && '/' !in r.name && EndsWith(nl, r.name)
    ensures IsLink(nl) ==> |r.name| == |nl| || nl[|nl| - |r.name| - 1] == '/'
    ensures !IsLink(nl) ==> r.name == nl && r.link == "http://twitch.tv/" + Lower(nl)
  {
    if IsLink(nl) then
      var parts := Split(nl, '/');
      SplitLast(nl, '/');
      SplitLastAfter(nl, '/');
      Stream(parts[|parts| - 1], nl)
    else Stream(nl, "http://twitch.tv/" + Lower(nl))
  }

  /** Feeding a built link back in gives the same link, named by the lower-cased name. */
  lemma StreamLinkStable(name: string)
    requires !IsLink(name) && '/' !in name
    ensures StreamNameLink(StreamNameLink(name).link).link == StreamNameLink(name).link
    ensures StreamNameLink(StreamNameLink(name).link).name == Lower(name)
  {
    var low := Lower(name);
    assert '/' !in low by {
      forall k | 0 <= k < |name| ensures low[k] != '/' {
        assert name[k] != '/';
      }
    }
    var link := "http://twitch.tv/" + low;
    assert link[..7] == "http://";
    assert link == "http:" + ['/'] + ("" + ['/'] + ("twitch.tv" + ['/'] + low));
    SplitFour("http:", "", "twitch.tv", low, '/');
  }

  /**
   * The test inside `com_perm_check`: the command has no server list or lists
   * this server, and has no user list or lists the author.
   */
  predicate ComPermCheck<S, U>(servers: Option<set<S>>, users: Option<set<U>>, server: S, author: U) {
    (servers.None? || server in servers.value) && (users.None? || author in users.value)
  }

  /** Widening either list never takes a permission away. */
  lemma ComPermWiden<S, U>(servers: set<S>, more: set<S>, users: Option<set<U>>, server: S, author: U)
    requires servers <= more
    ensures ComPermCheck(Some(servers), users, server, author) ==> ComPermCheck(Some(more), users, server, author)
    ensures ComPermCheck(Some(servers), users, server, author) ==> ComPermCheck(None, users, server, author)
  {
  }
}
