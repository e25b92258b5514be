/**
 * The prompt built from a session history: one line per message, `SENDER: content`, with
 * ` [Context: c]` only for a non-null, non-empty context, joined by newlines. A completion
 * provider failure is turned into a sentinel reply text.
 */
module Prompt {
  import opened Wrappers
  import opened JavaText
  import opened ChatMessageModel

  /** The context suffix is printed only for a present, non-empty context. */
  predicate ShowsContext(context: Option<string>) {
    context.Some? && context.value != ""
  }

  /** One history entry as a prompt line. */
  function RenderLine(m: ChatMessage): (r: string)
    ensures var head := SenderName(m.sender) + ": " + m.content;
      && |head| <= |r|
      && r[..|head|] == head
      && (ShowsContext(m.context) <==> |r| > |head|)
      && (ShowsContext(m.context) ==> r[|head|..] == " [Context: " + m.context.value + "]")
    ensures '\n' !in m.content && (m.context.Some? ==> '\n' !in m.context.value) ==> '\n' !in r
  {
    var head := SenderName(m.sender) + ": " + m.content;
    if ShowsContext(m.context) then head + " [Context: " + m.context.value + "]" else head
  }

  /** The lines of a history, in order. */
  function RenderLines(history: seq<ChatMessage>): (r: seq<string>)
    ensures |r| == |history|
    ensures forall k :: 0 <= k < |r| ==> r[k] == RenderLine(history[k])
  {
    if history == [] then [] else [RenderLine(history[0])] + RenderLines(history[1..])
  }

  /** `Collectors.joining("\n")`: the separator goes between lines only; no line gives the empty string. */
  function Join(lines: seq<string>): (r: string)
    ensures |lines| == 1 ==> r == lines[0]
    ensures lines == [] ==> r == ""
  {
    if lines == [] then ""
    else if |lines| == 1 then lines[0]
    else lines[0] + "\n" + Join(lines[1..])
  }

  /** The prompt text sent to the completion provider: the history's lines, in order, one newline between each two. */
  function RenderPrompt(history: seq<ChatMessage>): (r: string)
    ensures history == [] ==> r == ""
    ensures |history| == 1 ==> r == RenderLine(history[0])
    ensures |history| > 1 ==> r == RenderLine(history[0]) + "\n" + RenderPrompt(history[1..])
  {
    var lines := RenderLines(history);
    if |history| > 1 then
      assert lines[1..] == RenderLines(history[1..]);
      Join(lines)
    else
      Join(lines)
  }

  /** Cutting a text at every newline; the inverse of `Join` on lines that hold none. */
  function SplitLines(s: string): (r: seq<string>)
    ensures |r| >= 1
  {
    if s == [] then [""]
    else if s[0] == '\n' then [""] + SplitLines(s[1..])
    else
      var rest := SplitLines(s[1..]);
      [[s[0]] + rest[0]] + rest[1..]
  }

  lemma {:induction false} SplitLineThenRest(line: string, rest: string)
    requires '\n' !in line
    ensures SplitLines(line + "\n" + rest) == [line] + SplitLines(rest)
    ensures SplitLines(line) == [line]
  {
    if line != [] {
      SplitLineThenRest(line[1..], rest);
      assert (line + "\n" + rest)[0] == line[0];
      assert (line + "\n" + rest)[1..] == line[1..] + "\n" + rest;
      assert [line[0]] + line[1..] == line;
    } else {
      assert line + "\n" + rest == "\n" + rest;
      assert ("\n" + rest)[1..] == rest;
    }
  }

  /** Splitting the joined text gives the lines back, as long as no line holds a newline. */
  lemma {:induction false} SplitJoin(lines: seq<string>)
    requires lines != []
    requires forall k :: 0 <= k < |lines| ==> '\n' !in lines[k]
    ensures SplitLines(Join(lines)) == lines
  {
    SplitLineThenRest(lines[0], "");
    if |lines| > 1 {
      SplitJoin(lines[1..]);
      SplitLineThenRest(lines[0], Join(lines[1..]));
    }
  }

  /**
   * A non-empty history whose contents and contexts hold no newline is recovered line by line
   * from its prompt; stored contents are normalised and so never hold one.
   */
  lemma PromptHasOneLinePerMessage(history: seq<ChatMessage>)
    requires history != []
    requires forall k :: 0 <= k < |history| ==> IsNormalized(history[k].content)
    requires forall k :: 0 <= k < |history| ==> history[k].context.Some? ==> '\n' !in history[k].context.value
    ensures SplitLines(RenderPrompt(history)) == RenderLines(history)
    ensures |SplitLines(RenderPrompt(history))| == |history|
  {
    var lines := RenderLines(history);
    forall k | 0 <= k < |lines| ensures '\n' !in lines[k] {
      NormalizedHasNoNewline(history[k].content);
    }
    SplitJoin(lines);
  }

  /** What the completion provider gives back: a reply, or a failure with a possibly null message. */
  datatype Completion = Reply(text: string) | Failure(message: Option<string>)

  /** The reply text stored for a completion: a failure becomes `[AI ERROR: <message>]`. */
  function ReplyText(c: Completion): (r: string)
    ensures c.Reply? ==> r == c.text
    ensures c.Failure? ==>
      var shown := if c.message.Some? then c.message.value else "null";
      && |r| == |shown| + 12
      && r[..11] == "[AI ERROR: " && r[11..|r| - 1] == shown && r[|r| - 1] == ']'
  {
    match c
    case Reply(text) => text
    case Failure(message) => "[AI ERROR: " + (if message.Some? then message.value else "null") + "]"
  }
}
