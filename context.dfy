/**
 * Context assembly in `handle_message`: the topic snippet text
 * (`get_topic_conversation_snippet`), its line count, the three-way decision
 * between raw channel activity, the current line alone and the topic snippet,
 * and the rendering handed to the generators.
 */
module Context {
  import opened Text
  import Labels

  /** One `(timestamp, nick, message)` triple, as thread histories and the channel activity log store them. */
  datatype Msg = Msg(ts: int, nick: string, text: string)

  /** How many raw channel messages the sparse-topic fallback looks at. */
  const RawWindow: nat := 7

  /** How many topic messages the snippet shows. */
  const SnippetSize: int := 8

  /** `f"{nick}: {msg}"`. */
  function Line(nick: string, text: string): string { nick + ": " + text }

  function Min(a: int, b: int): int { if a <= b then a else b }

  /**
   * Python's `lst[-n:]`: for a positive `n` the last `min(n, len)` elements;
   * `lst[-0:]` is the whole list; for a negative `n` the first `-n` are dropped.
   */
  function Tail<T>(s: seq<T>, n: int): (r: seq<T>)
    ensures |r| <= |s| && r == s[|s| - |r|..]
    ensures n > 0 ==> |r| == Min(n, |s|)
    ensures n == 0 ==> r == s
    ensures n < 0 ==> |r| == |s| - Min(-n, |s|)
  {
    if n > 0 then s[|s| - Min(n, |s|)..]
    else if n == 0 then s
    else s[Min(-n, |s|)..]
  }

  /** Each message as its `nick: message` line. */
  function Lines(ms: seq<Msg>): (r: seq<string>)
    ensures |r| == |ms|
    ensures forall i :: 0 <= i < |ms| ==> r[i] == Line(ms[i].nick, ms[i].text)
  {
    if ms == [] then [] else [Line(ms[0].nick, ms[0].text)] + Lines(ms[1..])
  }

  /** The text `get_topic_conversation_snippet` builds from a thread's messages. */
  function SnippetText(ms: seq<Msg>, n: int): string {
    Join("\n", Lines(Tail(ms, n)))
  }

  /** `s.count('\n') + 1 if s else 0`. */
  function LineCount(s: string): nat {
    if s == [] then 0 else Count(s, '\n') + 1
  }

  /** No nick and no message of `ms` holds a newline. */
  predicate SingleLine(ms: seq<Msg>) {
    forall i :: 0 <= i < |ms| ==> '\n' !in ms[i].nick && '\n' !in ms[i].text
  }

  /**
   * Messages as an IRC line can carry them: no newline in a nick or a
   * message, and no nick that starts with whitespace.
   */
  predicate WellFormed(ms: seq<Msg>) {
    SingleLine(ms) && forall i :: 0 <= i < |ms| ==> ms[i].nick == [] || !IsSpace(ms[i].nick[0])
  }

  lemma WellFormedOne(m: Msg)
    ensures WellFormed([m]) <==> '\n' !in m.nick && '\n' !in m.text && (m.nick == [] || !IsSpace(m.nick[0]))
  {
    assert [m][0] == m;
  }

  /** A line of the context: non-empty, without a newline, and not starting with whitespace. */
  predicate CleanLine(l: string) {
    l != [] && !IsSpace(l[0]) && '\n' !in l
  }

  /** The lines of well-formed messages are clean. */
  lemma LinesClean(ms: seq<Msg>)
    requires WellFormed(ms)
    ensures forall i :: 0 <= i < |ms| ==> CleanLine(Lines(ms)[i])
  {
    LinesSingle(ms);
    forall i | 0 <= i < |ms|
      ensures CleanLine(Lines(ms)[i])
    {
      LineStart(ms[i].nick, ms[i].text);
    }
  }

  /** A line starts with the nick's first character, or with the colon when the nick is empty. */
  lemma LineStart(nick: string, text: string)
    ensures Line(nick, text)[0] == if nick == [] then ':' else nick[0]
  {
  }

  /** A line ends with the message's last character. */
  lemma LineEnd(nick: string, text: string)
    requires text != []
    ensures Line(nick, text)[|Line(nick, text)| - 1] == text[|text| - 1]
  {
  }

  lemma LinesSingle(ms: seq<Msg>)
    requires SingleLine(ms)
    ensures forall i :: 0 <= i < |ms| ==> '\n' !in Lines(ms)[i]
  {
    forall i | 0 <= i < |ms|
      ensures '\n' !in Lines(ms)[i]
    {
      assert Lines(ms)[i] == ms[i].nick + ": " + ms[i].text;
      CountAppend(ms[i].nick, ": ", '\n');
      CountAppend(ms[i].nick + ": ", ms[i].text, '\n');
    }
  }

  /**
   * For messages without newlines, the snippet is the last `min(n, len)`
   * messages as lines, oldest first, and its line count is that number.
   */
  lemma SnippetShape(ms: seq<Msg>, n: int)
    requires n > 0 && SingleLine(ms)
    ensures var k := Min(n, |ms|);
      && LineCount(SnippetText(ms, n)) == k
      && (k > 0 ==> Split(SnippetText(ms, n), '\n') == Lines(ms[|ms| - k..]))
  {
    var tail := Tail(ms, n);
    TailSingleLine(ms, n);
    LinesSingle(tail);
    if tail != [] {
      assert |Lines(tail)[0]| >= 2;
      JoinedLines(Lines(tail));
    }
  }

  lemma {:induction false} TailSingleLine(ms: seq<Msg>, n: int)
    requires SingleLine(ms)
    ensures SingleLine(Tail(ms, n))
  {
    var tail := Tail(ms, n);
    var d := |ms| - |tail|;
    assert tail == ms[d..];
    forall i | 0 <= i < |tail| ensures '\n' !in tail[i].nick && '\n' !in tail[i].text {
      var j := d + i;
      assert tail[i] == ms[j];
      assert '\n' !in ms[j].nick && '\n' !in ms[j].text;
    }
  }

  /** Newline-free lines, the first one non-empty, joined by newlines: as many lines as there are, split back. */
  lemma {:induction false} JoinedLines(lines: seq<string>)
    requires |lines| >= 1 && lines[0] != []
    requires forall i :: 0 <= i < |lines| ==> '\n' !in lines[i]
    ensures LineCount(Join("\n", lines)) == |lines| && Split(Join("\n", lines), '\n') == lines
  {
    SplitJoin(lines, '\n');
    JoinFirst(lines, '\n');
  }

  // ---------------------------------------------------------------------------
  // Raw channel activity

  /** A log entry that is the triggering message itself: same nick, same raw text, within two seconds. */
  predicate IsEcho(e: Msg, nick: string, cmd: string, ts: int) {
    e.nick == nick && e.text == cmd && -2 < e.ts - ts < 2
  }

  /** The entries that are not echoes of the triggering message, in their original order. */
  function WithoutEchoes(es: seq<Msg>, nick: string, cmd: string, ts: int): (r: seq<Msg>)
    ensures |r| <= |es|
    ensures forall i :: 0 <= i < |r| ==> r[i] in es && !IsEcho(r[i], nick, cmd, ts)
    ensures forall i :: 0 <= i < |es| && !IsEcho(es[i], nick, cmd, ts) ==> es[i] in r
    ensures (forall i :: 0 <= i < |es| ==> !IsEcho(es[i], nick, cmd, ts)) ==> r == es
  {
    if es == [] then []
    else
      var rest := WithoutEchoes(es[1..], nick, cmd, ts);
      assert forall i :: 1 <= i < |es| ==> es[i] == es[1..][i - 1];
      if IsEcho(es[0], nick, cmd, ts) then rest else [es[0]] + rest
  }

  /** The filter keeps order: what survives of a concatenation is what survives of each part, in turn. */
  lemma {:induction false} WithoutEchoesAppend(a: seq<Msg>, b: seq<Msg>, nick: string, cmd: string, ts: int)
    ensures WithoutEchoes(a + b, nick, cmd, ts) == WithoutEchoes(a, nick, cmd, ts) + WithoutEchoes(b, nick, cmd, ts)
  {
    if a == [] {
      assert a + b == b;
    } else {
      assert (a + b)[0] == a[0] && (a + b)[1..] == a[1..] + b;
      WithoutEchoesAppend(a[1..], b, nick, cmd, ts);
    }
  }

  /** The lines of the last seven activity entries, echoes of the triggering message left out. */
  function RawHistory(log: seq<Msg>, nick: string, cmd: string, ts: int): (r: seq<string>)
    ensures |r| <= RawWindow
  {
    Lines(WithoutEchoes(Tail(log, RawWindow), nick, cmd, ts))
  }

  // ---------------------------------------------------------------------------
  // The decision table

  /** Where the context comes from. */
  datatype Source = RawActivity | CurrentLineOnly | TopicSnippet

  /**
   * The branch `handle_message` takes: raw activity for a mention on a sparse
   * topic (or the fallback label with at most two lines), the current line
   * alone for a direct command opening a new named topic, the snippet otherwise.
   */
  function ChooseSource(lineCount: nat, topic: string, isDirect: bool): (src: Source)
    ensures src == RawActivity ==> !isDirect && lineCount <= 2
    ensures src == CurrentLineOnly ==> isDirect && lineCount <= 1 && topic != Labels.FallbackLabel
    ensures isDirect ==> src != RawActivity
    ensures !isDirect ==> src != CurrentLineOnly
    ensures lineCount > 2 ==> src == TopicSnippet
    ensures !isDirect && (lineCount <= 1 || (topic == Labels.FallbackLabel && lineCount <= 2)) ==> src == RawActivity
    ensures isDirect && lineCount <= 1 && topic != Labels.FallbackLabel ==> src == CurrentLineOnly
  {
    if ((topic == Labels.FallbackLabel && lineCount <= 2) || lineCount <= 1) && !isDirect then RawActivity
    else if lineCount <= 1 && isDirect && topic != Labels.FallbackLabel then CurrentLineOnly
    else TopicSnippet
  }

  /**
   * `context_str`: the text chosen for generation. `snippet` is the topic
   * snippet (already holding the current message), `cmd` the raw message,
   * `stripped` the message without the bot's address prefix.
   */
  function AssembleContext(snippet: string, topic: string, isDirect: bool, log: seq<Msg>,
                           nick: string, cmd: string, stripped: string, ts: int): (ctx: string)
    ensures ChooseSource(LineCount(snippet), topic, isDirect) == TopicSnippet ==> ctx == snippet
    ensures ChooseSource(LineCount(snippet), topic, isDirect) == CurrentLineOnly ==> ctx == Line(nick, stripped)
    ensures ChooseSource(LineCount(snippet), topic, isDirect) == RawActivity ==>
      var raw := RawHistory(log, nick, cmd, ts);
      ctx == if raw != [] then Join("\n", raw + [Line(nick, stripped)]) else snippet
  {
    match ChooseSource(LineCount(snippet), topic, isDirect)
    case RawActivity =>
      var raw := RawHistory(log, nick, cmd, ts);
      if raw != [] then JoinSnoc(raw, Line(nick, stripped), '\n'); Join("\n", raw) + "\n" + Line(nick, stripped)
      else snippet
    case CurrentLineOnly => Line(nick, stripped)
    case TopicSnippet => snippet
  }

  /** The lines of the context in each branch of the decision table, given the lines of the topic snippet. */
  function ContextLines(snippetLines: seq<string>, topic: string, isDirect: bool, log: seq<Msg>,
                        nick: string, cmd: string, stripped: string, ts: int): (ls: seq<string>)
    ensures |snippetLines| >= 1 && snippetLines[|snippetLines| - 1] == Line(nick, stripped) ==>
      |ls| >= 1 && ls[|ls| - 1] == Line(nick, stripped)
  {
    var raw := RawHistory(log, nick, cmd, ts);
    match ChooseSource(|snippetLines|, topic, isDirect)
    case RawActivity => if raw != [] then raw + [Line(nick, stripped)] else snippetLines
    case CurrentLineOnly => [Line(nick, stripped)]
    case TopicSnippet => snippetLines
  }

  /**
   * In every branch the context's lines end with the current line, provided
   * the snippet's lines do (which is so once the message has been stored):
   * with raw activity they are the surviving raw lines followed by it.
   */
  lemma {:induction false} AssembledLines(snippetLines: seq<string>, topic: string, isDirect: bool, log: seq<Msg>,
                                          nick: string, cmd: string, stripped: string, ts: int)
    requires |snippetLines| >= 1
    requires forall i :: 0 <= i < |snippetLines| ==> '\n' !in snippetLines[i]
    requires snippetLines[|snippetLines| - 1] == Line(nick, stripped)
    requires '\n' !in Line(nick, stripped)
    requires SingleLine(log)
    ensures var snippet := Join("\n", snippetLines);
      var ctx := AssembleContext(snippet, topic, isDirect, log, nick, cmd, stripped, ts);
      var raw := RawHistory(log, nick, cmd, ts);
      && LineCount(snippet) == |snippetLines|
      && Split(ctx, '\n') == ContextLines(snippetLines, topic, isDirect, log, nick, cmd, stripped, ts)
  {
    var snippet := Join("\n", snippetLines);
    SplitJoin(snippetLines, '\n');
    JoinNonEmpty(snippetLines, '\n');
    var cur := Line(nick, stripped);
    SplitNoSeparator(cur, '\n');
    var raw := RawHistory(log, nick, cmd, ts);
    if ChooseSource(|snippetLines|, topic, isDirect) == RawActivity && raw != [] {
      var es := WithoutEchoes(Tail(log, RawWindow), nick, cmd, ts);
      assert SingleLine(es) by {
        forall i | 0 <= i < |es| ensures '\n' !in es[i].nick && '\n' !in es[i].text {
          assert es[i] in Tail(log, RawWindow);
          assert es[i] in log;
        }
      }
      LinesSingle(es);
      JoinSnoc(raw, cur, '\n');
      SplitJoin(raw + [cur], '\n');
    }
  }

  /**
   * The prompt keeps the question isolated: for a thread whose newest message
   * is the current one, and well-formed messages throughout, the rendered
   * context is the layout of the context's lines, and the last of those lines,
   * the only one `Layout` puts under the question header, is the current line.
   */
  lemma {:induction false} PromptLayout(msgs: seq<Msg>, topic: string, isDirect: bool, log: seq<Msg>,
                                        nick: string, cmd: string, stripped: string, ts: int)
    requires WellFormed(msgs) && WellFormed(log)
    requires |msgs| >= 1 && msgs[|msgs| - 1].nick == nick && msgs[|msgs| - 1].text == stripped
    requires stripped != [] && !IsSpace(stripped[|stripped| - 1])
    ensures var ls := ContextLines(Lines(Tail(msgs, SnippetSize)), topic, isDirect, log, nick, cmd, stripped, ts);
      && |ls| >= 1 && ls[|ls| - 1] == Line(nick, stripped)
      && Render(AssembleContext(SnippetText(msgs, SnippetSize), topic, isDirect, log, nick, cmd, stripped, ts)) == Layout(ls)
  {
    var snippetLines := Lines(Tail(msgs, SnippetSize));
    SnippetLinesClean(msgs, nick, stripped);
    assert Line(nick, stripped) == snippetLines[|snippetLines| - 1];
    RenderedContext(snippetLines, topic, isDirect, log, nick, cmd, stripped, ts);
  }

  /** The rendered context is the layout of its lines, for clean snippet lines ending in the current line. */
  lemma {:induction false} RenderedContext(snippetLines: seq<string>, topic: string, isDirect: bool, log: seq<Msg>,
                                           nick: string, cmd: string, stripped: string, ts: int)
    requires |snippetLines| >= 1 && forall i :: 0 <= i < |snippetLines| ==> CleanLine(snippetLines[i])
    requires snippetLines[|snippetLines| - 1] == Line(nick, stripped)
    requires WellFormed(log) && stripped != [] && !IsSpace(stripped[|stripped| - 1])
    ensures Render(AssembleContext(Join("\n", snippetLines), topic, isDirect, log, nick, cmd, stripped, ts))
      == Layout(ContextLines(snippetLines, topic, isDirect, log, nick, cmd, stripped, ts))
  {
    var ls := ContextLines(snippetLines, topic, isDirect, log, nick, cmd, stripped, ts);
    var last := ls[|ls| - 1];
    assert last == Line(nick, stripped);
    LineEnd(nick, stripped);
    assert last != [] && !IsSpace(last[|last| - 1]);
    ContextLinesClean(snippetLines, topic, isDirect, log, nick, cmd, stripped, ts);
    AssembledLines(snippetLines, topic, isDirect, log, nick, cmd, stripped, ts);
    JoinSplit(AssembleContext(Join("\n", snippetLines), topic, isDirect, log, nick, cmd, stripped, ts), '\n');
    RenderCleanLines(ls);
  }

  /** The snippet of a well-formed thread whose newest message is the current one: clean lines ending in it. */
  lemma {:induction false} SnippetLinesClean(msgs: seq<Msg>, nick: string, stripped: string)
    requires WellFormed(msgs)
    requires |msgs| >= 1 && msgs[|msgs| - 1].nick == nick && msgs[|msgs| - 1].text == stripped
    ensures var ls := Lines(Tail(msgs, SnippetSize));
      && |ls| >= 1 && ls[|ls| - 1] == Line(nick, stripped)
      && forall i :: 0 <= i < |ls| ==> CleanLine(ls[i])
  {
    var tail := Tail(msgs, SnippetSize);
    assert tail[|tail| - 1] == msgs[|msgs| - 1];
    assert WellFormed(tail) by {
      forall i | 0 <= i < |tail| ensures tail[i] in msgs { assert tail[i] == msgs[|msgs| - |tail| + i]; }
    }
    LinesClean(tail);
  }

  /** Clean lines whose last one ends in a non-blank character render as their layout. */
  lemma {:induction false} RenderCleanLines(ls: seq<string>)
    requires |ls| >= 1 && forall i :: 0 <= i < |ls| ==> CleanLine(ls[i])
    requires ls[|ls| - 1] != [] && !IsSpace(ls[|ls| - 1][|ls[|ls| - 1]| - 1])
    ensures Render(Join("\n", ls)) == Layout(ls)
  {
    JoinFirst(ls, '\n');
    JoinLast(ls, '\n');
    StripUnchanged(Join("\n", ls));
    RenderJoin(ls);
  }

  /** Every line of the context is clean when the snippet's lines and the log are. */
  lemma {:induction false} ContextLinesClean(snippetLines: seq<string>, topic: string, isDirect: bool, log: seq<Msg>,
                                             nick: string, cmd: string, stripped: string, ts: int)
    requires forall i :: 0 <= i < |snippetLines| ==> CleanLine(snippetLines[i])
    requires WellFormed(log) && CleanLine(Line(nick, stripped))
    ensures var ls := ContextLines(snippetLines, topic, isDirect, log, nick, cmd, stripped, ts);
      forall i :: 0 <= i < |ls| ==> CleanLine(ls[i])
  {
    var es := WithoutEchoes(Tail(log, RawWindow), nick, cmd, ts);
    assert WellFormed(es) by {
      forall i | 0 <= i < |es| ensures es[i] in log {
        assert es[i] in Tail(log, RawWindow);
      }
    }
    LinesClean(es);
  }

  lemma JoinFirst(parts: seq<string>, c: char)
    requires |parts| >= 1 && parts[0] != []
    ensures Join([c], parts) != [] && Join([c], parts)[0] == parts[0][0]
  {
  }

  lemma {:induction false} JoinLast(parts: seq<string>, c: char)
    requires |parts| >= 1 && parts[|parts| - 1] != []
    ensures var j := Join([c], parts); j != [] && j[|j| - 1] == parts[|parts| - 1][|parts[|parts| - 1]| - 1]
  {
    if |parts| > 1 {
      JoinLast(parts[1..], c);
    }
  }

  lemma JoinNonEmpty(parts: seq<string>, c: char)
    requires |parts| >= 1 && parts[|parts| - 1] != []
    ensures Join([c], parts) != []
  {
    if |parts| > 1 {
      JoinNonEmpty(parts[1..], c);
    }
  }

  lemma {:induction false} JoinSnoc(parts: seq<string>, last: string, c: char)
    requires parts != []
    ensures Join([c], parts + [last]) == Join([c], parts) + [c] + last
  {
    if |parts| == 1 {
      assert parts + [last] == [parts[0], last];
    } else {
      assert (parts + [last])[1..] == parts[1..] + [last];
      JoinSnoc(parts[1..], last, c);
    }
  }

  // ---------------------------------------------------------------------------
  // Rendering

  const QuestionHeader: string := "Current question to respond to:\n"
  /** The multi-line layout comes from an indented triple-quoted string: note the space after the colon. */
  const HistoryHeader: string := "Recent conversation: \n            "
  const Indented: string := "\n            "

  /**
   * `context_str_for_llm`: a single line goes under the question header; with
   * more lines, all but the last go under the history header and the last one
   * alone goes under the question header.
   */
  function Render(ctx: string): (prompt: string) {
    Layout(Split(Strip(ctx), '\n'))
  }

  /** The layout of `context_str_for_llm` for the lines of the stripped context. */
  function Layout(lines: seq<string>): string
    requires |lines| >= 1
  {
    if |lines| == 1 then QuestionHeader + lines[0]
    else HistoryHeader + Join("\n", lines[..|lines| - 1]) + Indented + "Current question to respond to:" + Indented
         + lines[|lines| - 1]
  }

  /**
   * Rendering a context made of lines keeps the last line, and only it, under
   * the question header, and every earlier line, in order, under the history header.
   */
  lemma RenderLines(lines: seq<string>)
    requires |lines| >= 1
    requires forall i :: 0 <= i < |lines| ==> '\n' !in lines[i]
    requires Strip(Join("\n", lines)) == Join("\n", lines)
    ensures |lines| == 1 ==> Render(Join("\n", lines)) == QuestionHeader + lines[0]
    ensures |lines| > 1 ==> (Render(Join("\n", lines)) ==
      HistoryHeader + Join("\n", lines[..|lines| - 1]) + Indented + "Current question to respond to:" + Indented
      + lines[|lines| - 1])
  {
    RenderJoin(lines);
    LayoutShape(lines);
  }

  lemma RenderJoin(lines: seq<string>)
    requires |lines| >= 1
    requires forall i :: 0 <= i < |lines| ==> '\n' !in lines[i]
    requires Strip(Join("\n", lines)) == Join("\n", lines)
    ensures Render(Join("\n", lines)) == Layout(lines)
  {
    SplitStrippedJoin(lines);
    RenderSplit(Join("\n", lines), lines);
  }

  lemma LayoutShape(lines: seq<string>)
    requires |lines| >= 1
    ensures |lines| == 1 ==> Layout(lines) == QuestionHeader + lines[0]
    ensures |lines| > 1 ==> (Layout(lines) ==
      HistoryHeader + Join("\n", lines[..|lines| - 1]) + Indented + "Current question to respond to:" + Indented
      + lines[|lines| - 1])
  {
  }

  lemma SplitStrippedJoin(lines: seq<string>)
    requires |lines| >= 1
    requires forall i :: 0 <= i < |lines| ==> '\n' !in lines[i]
    requires Strip(Join("\n", lines)) == Join("\n", lines)
    ensures Split(Strip(Join("\n", lines)), '\n') == lines
  {
    SplitJoin(lines, '\n');
  }

  lemma RenderSplit(ctx: string, lines: seq<string>)
    requires |lines| >= 1
    requires Split(Strip(ctx), '\n') == lines
    ensures Render(ctx) == Layout(lines)
  {
  }
}
