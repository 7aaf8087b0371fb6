/**
 * The owner cog's text handling: `cleanup_code` (the converter that takes a
 * code block off the code given to `eval` and `debug`), `eval_output` (the
 * reply wrapping evaluated output in a code block), and the exit code `exit`
 * chooses from the alias it was invoked with.
 */
module Owner {
  import opened Wrappers
  import opened Text

  const Fence := "```"

  /** Python's `parts[1:-1]`: everything but the first and last item. */
  function Inner(parts: seq<string>): (r: seq<string>)
    ensures |parts| >= 2 ==> r == parts[1..|parts| - 1]
    ensures |parts| < 2 ==> r == []
  {
    if |parts| < 2 then [] else parts[1..|parts| - 1]
  }

  predicate Fenced(content: string) {
    StartsWith(content, Fence) && EndsWith(content, Fence)
  }

  /**
   * `cleanup_code(content)`. Text that is not fenced on both sides loses the
   * backticks, spaces and newlines at its two ends, and nothing else: what is
   * left is a slice of the input whose outside characters are all of that
   * set and whose ends are not.
   */
  function Cleanup(content: string): (r: string)
    ensures !Fenced(content) ==>
      var i := LeftCount(content, Text.Fence);
      && i + |r| <= |content|
      && r == content[i..i + |r|]
      && (forall k :: 0 <= k < i ==> InSet(content[k], Text.Fence))
      && (forall k :: i + |r| <= k < |content| ==> InSet(content[k], Text.Fence))
      && (|r| > 0 ==> !InSet(r[0], Text.Fence) && !InSet(r[|r| - 1], Text.Fence))
  {
    if Fenced(content) then Join("\n", Inner(Split(content, '\n')))
    else
      StripSlice(content, Text.Fence);
      Strip(content, Text.Fence)
  }

  /** Text between a first and a last separator splits into its own parts, framed. */
  lemma SplitFramed(head: string, body: string, tail: string, c: char)
    requires c !in head && c !in tail
    ensures Split(head + [c] + body + [c] + tail, c) == [head] + Split(body, c) + [tail]
  {
    var rest := body + [c] + tail;
    assert head + [c] + body + [c] + tail == head + [c] + rest;
    SplitCons(head, c, rest);
    SplitSnoc(body, c, tail);
  }

  lemma FenceOpen(lang: string)
    requires '\n' !in lang
    ensures '\n' !in Fence + lang
  {
    var head := Fence + lang;
    forall k | 0 <= k < |head|
      ensures head[k] != '\n'
    {
      if k >= 3 {
        assert head[k] == lang[k - 3];
      }
    }
  }

  /**
   * A fenced block, with an optional language on its opening line, loses its
   * first and last lines and keeps the lines between them exactly.
   */
  lemma CleanupFenced(lang: string, body: string)
    requires '\n' !in lang
    ensures Cleanup(Fence + lang + "\n" + body + "\n" + Fence) == body
  {
    var head := Fence + lang;
    var content := head + "\n" + body + "\n" + Fence;
    assert content[..3] == Fence;
    assert content[|content| - 3..] == Fence;
    assert Fenced(content);
    FenceOpen(lang);
    SplitFramed(head, body, Fence, '\n');
    var parts := [head] + Split(body, '\n') + [Fence];
    assert Split(content, '\n') == parts;
    assert Inner(parts) == Split(body, '\n');
    SplitJoin(body, '\n');
  }

  /** The reply line for output: `''` marks empty output and a leading newline. */
  function Shown(out: string): (r: string)
    ensures |r| > 0 && r[0] != '\n'
    ensures EndsWith(r, out)
    ensures out != "" && out[0] != '\n' ==> r == out
    ensures out == "" ==> r == "''"
    ensures out != "" && out[0] == '\n' ==> r == "''" + out
  {
    if out == "" then "''"
    else if out[0] == '\n' then "''" + out
    else out
  }

  const TooLong := "```py\nOutput too long.\n```"

  function CodeBlock(line: string): string { "```py\n" + line + "\n```" }

  /**
   * `eval_output(out)`: nothing for `None`, otherwise the shown output in a
   * `py` code block, replaced by a notice when the block would exceed 2000
   * characters.
   */
  method EvalOutput(out: Option<string>) returns (r: Option<string>)
    ensures out.None? <==> r.None?
    ensures r.Some? ==> |r.value| <= 2000
    ensures out.Some? && |CodeBlock(Shown(out.value))| <= 2000 ==> r == Some(CodeBlock(Shown(out.value)))
    ensures out.Some? && |CodeBlock(Shown(out.value))| > 2000 ==> r == Some(TooLong)
  {
    var lines: seq<string> := [];
    if out.Some? {
      var o := out.value;
      if StartsWith(o, "\n") {
        o := "''" + o;
      }
      lines := lines + [if o != "" then o else "''"];
    }
    if |lines| > 0 {
      var text := "```py\n" + Join("\n", lines) + "\n```";
      if |text| > 2000 {
        text := TooLong;
      }
      r := Some(text);
    } else {
      r := None;
    }
  }

  /** `codes.get(ctx.invoked_with, code)`, with `None` refused. */
  function ExitCode(invokedWith: string, code: Option<int>): (r: Result<int, string>)
    ensures invokedWith == "restart" ==> r == Ok(2)
    ensures invokedWith == "kill" ==> r == Ok(1)
    ensures invokedWith != "restart" && invokedWith != "kill" ==>
      (code.None? <==> r == Err("Invalid exit code.")) && (code.Some? ==> r == Ok(code.value))
  {
    var codes := map["restart" := 2, "kill" := 1];
    var chosen := if invokedWith in codes then Some(codes[invokedWith]) else code;
    match chosen
    case None => Err("Invalid exit code.")
    case Some(c) => Ok(c)
  }

  /** An alias always exits with its fixed code, whatever code was typed. */
  lemma ExitAliasFixed(alias: string, a: Option<int>, b: Option<int>)
    requires alias == "restart" || alias == "kill"
    ensures ExitCode(alias, a) == ExitCode(alias, b) && ExitCode(alias, a).Ok?
  {
  }
}
