# Wintermute: a verified model of the topic router and the log filter

Wintermute is an IRC bot. It sorts every message it is asked about into a
topic thread, keeps a short per-nick history and a raw log of each channel,
and builds the prompt for a language model from these. It then sends the
model's reply back in chunks of 420 characters. A companion script,
`prompt.generator.py`, reads the channel's WeeChat log once a day. It keeps
the last day of user messages as `nick: message` lines, picks an analysis
model by input size, and repairs the generated personality directive.

This project models that core in Dafny and proves what the code promises.

- `text.dfy`: the Python string operations the code relies on:
  - `str.isspace`, `strip`, `lower`;
  - `startswith`, `in`, `count`;
  - `split`, `join`, `str(n)`.
- `labels.dfy`: the `deque(maxlen=…)` append, `normalize_topic_label`, and the post-processing of the topic classifier's reply.
- `threads.dfy`: the stored values (threads, user entries) and the pure rules for:
  - expiry;
  - pruning;
  - the two upserts;
  - the topics report.
- `context.dfy`: snippet text, the line count, the three-way context decision of `handle_message`, and the rendering of the prompt.
- `dispatch.dfy`: the primary, fallback and apology reply choice, and `send_multiline`'s cleaning, addressing and chunking.
- `router.dfy`: the bot's state as a class, `Router.Bot`, with fields `topicThreads`, `userTopics`, `activityLog`, `joinTimes` and `ignoredUsers`.
  - Its methods are the mutating handlers: the sweep, the upserts, the snippet read, the topics report, `handle_message`, `on_pubmsg`, `on_privmsg`, `on_join` and the clear command.
  - Each method's new state is stated against the pure functions above.
  - `Valid()` is preserved throughout: every container's capacity holds, and every user entry names a thread that survived the last sweep (a key of the channel's threads, of any age).
- `promptgen.dfy`: three pieces of the generator:
  - the WeeChat line parser and filter, with a reverse scan that stops at the cutoff;
  - `select_analysis_model`;
  - the directive prefix repair.

The outside world becomes parameters:

- The current time is an integer number of seconds.
- The classifier's reply, the primary and fallback generators' replies, and the log file's lines are given as `Option` values. `None` means the call raised or the file could not be read.
- The messages sent to IRC are returned as a sequence of strings.

## Model

| member | source | states |
|---|---|---|
| Text.Strip | wintermute.py:481-485 | the stripped string has no whitespace at either end and is no longer than the input |
| Text.StripSlice | wintermute.py:481-485 | `strip` keeps one contiguous slice of the input and removes only strippable characters before and after it |
| Text.StripUnchanged | wintermute.py:481-485 | a string with no whitespace at either end is its own `strip()` |
| Text.LowerChar | wintermute.py:57 | one character lower-cases to one or two characters, none an upper-case ASCII letter |
| Text.LowerNoUpper | wintermute.py:475 | `lower()` never yields an upper-case ASCII letter |
| Text.LowerUnchanged | wintermute.py:57 | a string without upper-case letters, KELVIN SIGN or U+0130 is its own lower case |
| Text.LowerNeverEquals | wintermute.py:489 | no string lower-cases to a string that holds an upper-case ASCII letter |
| Text.ContainsAt | wintermute.py:434 | `sub in s` holds exactly when `sub` occurs at some offset of `s` |
| Text.Count | wintermute.py:571 | `count(c)` is at most the length and is zero exactly when `c` does not occur |
| Text.Split | wintermute.py:605 | `split(c)` gives one piece more than there are separators, and no piece holds the separator |
| Text.JoinSplit | wintermute.py:605 | joining the pieces of a split with the separator gives back the string |
| Text.SplitJoin | wintermute.py:145 | splitting a join of separator-free pieces gives back the pieces, and the join holds one separator fewer than there are pieces |
| Text.JoinCount | wintermute.py:571 | the separator occurs in a join only where the join put it |
| Text.NatToString | wintermute.py:545 | `str(n)` is a non-empty run of decimal digits whose decimal value is `n`, with no leading zero except for `0` itself, which is written `"0"` |
| Fifo.Append | wintermute.py:51 | appending to a bounded deque keeps the newest `cap` elements, with the new one last; the oldest is dropped exactly when the deque was full, and the order is kept |
| Labels.NormalizeShape | wintermute.py:56-61 | a normalised label holds only `[a-z0-9-]` and neither starts nor ends with `-` |
| Labels.NormalizeCanonical | wintermute.py:56-61 | a label of the form `[a-z0-9]+(-[a-z0-9]+)*` is returned unchanged |
| Labels.NormalizeNotIdempotent | wintermute.py:56-61 | normalising `"a-!-b"` gives `"a--b"`, and normalising that gives `"a-b"`, so the normaliser is not idempotent |
| Labels.NormalizeTwiceIsFixed | wintermute.py:56-61 | two applications reach a canonical label (or the empty one), which a third application leaves unchanged |
| Labels.NormalizeFixed | wintermute.py:56-61 | canonical labels and the empty label are fixed points |
| Labels.NormalizeLabelChars | wintermute.py:58-60 | a string made only of label characters normalises to a canonical label or to nothing |
| Labels.NormalizeEmptyIff | wintermute.py:56-61 | the result is empty exactly when the lower-cased input holds no ASCII letter or digit |
| Labels.CollapseLeavesHyphens | wintermute.py:58 | after the separator substitution, the hyphen is the only separator left |
| Labels.CollapseNoDoubleHyphen | wintermute.py:58 | the separator substitution never produces two hyphens in a row |
| Labels.KeepShape | wintermute.py:59 | the character filter leaves only `[a-z0-9-]` |
| Labels.TrimHyphens | wintermute.py:60 | `strip('-')` leaves no hyphen at either end |
| Labels.TrimKeepsNoDoubleHyphen | wintermute.py:60 | trimming hyphens cannot create two adjacent hyphens |
| Labels.ClassifiedTopic | wintermute.py:108-113 | the label is never empty; it is `"general"` exactly when the call raised or the normalised reply is empty or `"general"`, and otherwise it is the normalised reply |
| Labels.ClassifiedTopicShape | wintermute.py:108-113 | the adapter's label holds only `[a-z0-9-]` and neither starts nor ends with `-` |
| Labels.ClassifierFallback | wintermute.py:108-113 | the adapter returns the normalised reply when the reply holds a letter or a digit, and `"general"` when it holds neither or the call raised |
| Context.Tail | wintermute.py:141 | Python's `lst[-n:]`: the last `min(n, len)` elements for positive `n`, the whole list for `n == 0`, and all but the first `-n` elements for negative `n` |
| Context.Lines | wintermute.py:142-144 | one `nick: message` line per message, in order |
| Context.SnippetShape | wintermute.py:140-145 | for single-line messages, the snippet holds the last `min(n, len)` messages as lines, oldest first, and its line count is that number |
| Context.WithoutEchoes | wintermute.py:583-587 | the dedup drops exactly the entries with the same nick, the same raw text and a timestamp less than 2 s away, and keeps the others |
| Context.WithoutEchoesAppend | wintermute.py:583-587 | the dedup keeps order: what survives of a concatenation is what survives of each part, in turn |
| Context.RawHistory | wintermute.py:583-587 | at most seven raw lines are taken from the activity log |
| Context.ChooseSource | wintermute.py:575-602 | the decision table in both directions: raw activity exactly for a mention with at most one line, or with at most two on `general`; the current line alone exactly for a direct command with at most one line on a named topic; the snippet otherwise, and always with more than two lines |
| Context.AssembleContext | wintermute.py:575-602 | the default branch uses the snippet; the current-line branch uses `nick: stripped`; the raw branch joins the surviving raw lines and `nick: stripped` with newlines, or falls back to the snippet when no raw line survives |
| Context.ContextLines | wintermute.py:575-602 | the context's lines in each branch end with the current line whenever the snippet's lines do |
| Context.AssembledLines | wintermute.py:570-602 | in every branch the context's lines are: the surviving raw lines followed by the current line; or the current line alone; or the snippet's lines. The snippet's line count is its number of messages |
| Context.RenderLines | wintermute.py:605-622 | one line goes under the question header; with more lines, all but the last go, in order, under the history header, and the last goes alone under the question header |
| Context.PromptLayout | wintermute.py:570-622 | for well-formed messages and a thread whose newest message is the current one, the rendered prompt is the layout of the context's lines, and the last of them, the only one under the question header, is `nick: stripped` |
| Context.RenderedContext | wintermute.py:575-622 | for clean snippet lines ending in the current line, rendering the assembled context gives the layout of the context's lines |
| Threads.LiveNotExpired | wintermute.py:67 | a thread offered as active is never expired, and an expired one is never offered |
| Threads.ExpiryBoundary | wintermute.py:119 | a thread exactly 1800 s old is neither offered nor expired |
| Threads.ExpireThreads | wintermute.py:118-121 | exactly the threads older than 1800 s are deleted; the survivors are untouched, and every live thread survives |
| Threads.ExpireIdempotent | wintermute.py:118-121 | sweeping twice at the same time removes nothing more |
| Threads.KeepLinked | wintermute.py:124 | a nick's history keeps exactly the entries whose label is still a thread |
| Threads.KeepLinkedAppend | wintermute.py:124 | the filter keeps the order of entries |
| Threads.PruneUsers | wintermute.py:123-126 | each nick keeps its linked entries, and a nick is deleted exactly when none remain |
| Threads.PruneLinked | wintermute.py:122-128 | after the sweep, every user entry names a thread that survived it (a key of the channel) and no nick maps to an empty list |
| Threads.PruneDropsNick | wintermute.py:123-126 | a nick loses its key exactly when none of its labels survived |
| Threads.PruneNothingDead | wintermute.py:122-128 | when no label died, the per-nick pass changes nothing |
| Threads.Touch | wintermute.py:134-138 | the nick joins the members, the message becomes the newest in the ten-message history, older messages keep their order, and the last activity becomes `ts` |
| Threads.TouchMonotone | wintermute.py:134-138 | touching never removes a member and never lets the history exceed ten messages |
| Threads.Record | wintermute.py:130-132 | the entry is appended and only the newest eight are kept |
| Threads.RecordLinked | wintermute.py:130-132 | recording an entry whose label has a thread keeps every entry linked |
| Threads.Materialise | wintermute.py:536-538 | reading labels through the `defaultdict` adds an empty thread under each label that was not a key, and leaves existing threads untouched |
| Threads.MaterialisedLabelIsEmpty | wintermute.py:536-545 | a live key whose label is not itself a key produces a memberless thread under that label |
| Threads.NormalizeAllAt | wintermute.py:66-68 | each listed label is the normalised form of the key at the same position |
| Threads.PeopleOfHas | wintermute.py:541-544 | every visited key leaves its label in `topic_people` |
| Threads.PeopleOfLast | wintermute.py:541-544 | the count held for a label is the member count of the last visited key with that label |
| Threads.MaterialisedLabelCountsZero | wintermute.py:536-545 | a live key whose label was not a key is visited before the thread the lookups created under that label, so the report counts that label as 0 people |
| Threads.MaterialisedLabelExample | wintermute.py:536-545 | with one thread `a--b` of one member, the report counts `a-b` as 0 people |
| Threads.Entries | wintermute.py:545 | one `label (n people)` entry per label, in order |
| Dispatch.ChooseReply | wintermute.py:626-628 | the primary's stripped text when non-empty (one attempt); otherwise the fallback's stripped text, or the apology when the fallback raised (two attempts); the reply is empty only when the fallback's text is blank |
| Dispatch.ApologyStripped | wintermute.py:468 | the apology is non-empty and unchanged by `strip()` |
| Dispatch.CleanForIrc | wintermute.py:664 | the cleaned reply has no `\r` and no `\n` and is shorter by the number of `\r` |
| Dispatch.CleanReplacesNewlines | wintermute.py:664 | without carriage returns, cleaning changes exactly the newlines, each into a space |
| Dispatch.CleanUnchanged | wintermute.py:664 | cleaning is the identity on a single IRC line |
| Dispatch.FirstMatch | wintermute.py:665-666 | the first case-insensitive whole-word match from an offset: a match, with no match between the offset and it; or none when no offset matches |
| Dispatch.FirstMatchDecides | wintermute.py:665-666 | the search from the start finds a match exactly when the nick occurs as a whole word |
| Dispatch.Chunks | wintermute.py:667-668 | every chunk is between 1 and 420 characters long |
| Dispatch.ChunksConcat | wintermute.py:667-668 | the chunks put back together are the cleaned reply |
| Dispatch.ChunksShape | wintermute.py:667-668 | chunk `k` is the slice starting at `420 * k`, and the chunks cover the string |
| Dispatch.ChunksCount | wintermute.py:667 | there are `ceil(len / 420)` chunks |
| Dispatch.ThousandCharacters | wintermute.py:667-668 | a 1000-character reply goes out as 420, 420 and 160 characters |
| Dispatch.Framed | wintermute.py:669 | each chunk is sent as `nick: chunk` when addressed, or as the bare chunk |
| Dispatch.SendMultiline | wintermute.py:663-670 | the loop over offsets sends exactly the framed chunks of the cleaned reply, addressed when not a PM and the nick is not already named |
| Dispatch.OutgoingCarriesReply | wintermute.py:663-670 | `ceil(len / 420)` messages are sent; an empty reply sends nothing; a PM sends the bare chunks; and the chunks rebuild the cleaned reply |
| Dispatch.OutgoingChunksAreLines | wintermute.py:663-670 | no chunk holds a newline or a carriage return |
| Router.DirectIsMention | wintermute.py:433-434 | a direct command always mentions the bot |
| Router.SweptUsers | wintermute.py:122-128 | the sweep changes only the swept channel's histories, prunes them, and removes the channel's key exactly when no nick is left |
| Router.SweepThreads | wintermute.py:118-121 | the deletion loop leaves exactly the unexpired threads |
| Router.SweepUsers | wintermute.py:123-126 | the per-nick loop yields the pruned histories |
| Router.SweepChannelUsers | wintermute.py:122-128 | the channel's pass yields the swept user store |
| Router.LiveLabels | wintermute.py:63-69 | the loop lists every live key once, at most once, with its label at the same position; the set of listed labels is the set of active labels |
| Router.LiveLabelsAreActive | wintermute.py:63-69 | the labels listed once per live key are exactly the active labels |
| Router.FormatSnippet | wintermute.py:142-145 | the loop builds the `nick: message` lines joined by newlines |
| Router.MaterialiseLabels | wintermute.py:536-538 | the sort key's lookups create a thread under every active label that was not a key |
| Router.TopicPeople | wintermute.py:541-544 | the loop visits every key once and records the member count of the last key seen for each label |
| Router.DistinctOrder | wintermute.py:545 | `set(active_topics)` lists each label once |
| Router.ActiveCounted | wintermute.py:536-545 | every active label has an entry in `topic_people` |
| Router.CountActive | wintermute.py:541-545 | the report lists each active label once, with the count `topic_people` holds for it |
| Router.ReportOn | wintermute.py:535-549 | the report text, the distinct active labels and their counts, and the channel's threads after the lookups |
| Router.SweepKeepsInvariants | wintermute.py:115-128 | the sweep keeps every capacity bound and every link between entries and threads |
| Router.RecordKeepsBounded | wintermute.py:130-132 | every history stays between one and eight entries |
| Router.TouchKeepsBounded | wintermute.py:134-138 | every thread history stays within ten messages |
| Router.UpsertsKeepLinked | wintermute.py:566-568 | the two upserts of one message together keep every entry linked |
| Router.GrowKeepsInvariants | wintermute.py:141 | creating empty threads through a `defaultdict` read keeps every invariant |
| Router.ClearKeepsInvariants | wintermute.py:490-492 | emptying a channel's threads and histories keeps every invariant |
| Router.JoinKeepsInvariants | wintermute.py:411-414 | the join reset keeps every invariant |
| Router.LogAppendBounded | wintermute.py:427 | the activity log stays within fifteen messages |
| Router.LogAppendWellFormed | wintermute.py:427 | logging a message without line breaks keeps every activity log free of them |
| Router.UpsertKeepsWellFormed | wintermute.py:134-138 | touching a thread with a well-formed message keeps every thread history well-formed |
| Router.ShrinkGrowKeepsWellFormed | wintermute.py:118-121 | deleting threads and creating empty ones keeps every thread history well-formed |
| Router.StrippedSingleLine | wintermute.py:433-436 | removing the address prefix and stripping adds no line break |
| Router.StrippedEnd | wintermute.py:481-485 | a non-empty stripped command ends in a non-blank character |
| Router.TouchedLast | wintermute.py:134-138 | after the thread upsert, the message is the newest of the thread |
| Router.Respond | wintermute.py:626-645 | the chosen reply is sent, followed by the help text exactly when the command is `help` |
| Router.LastBotMessageIsNewest | wintermute.py:551-557 | the text of the newest bot message, or `""` when the bot has not spoken |
| Router.FindBotMessage | wintermute.py:551-557 | the reversed loop over the newest ten entries finds the bot's last message |
| Router.AdminBranchUnreachable | wintermute.py:489 | `nick.lower() == "adminName"` never holds |
| Router.Bot.constructor | wintermute.py:215-228 | a fresh bot has empty stores and the ignore list as loaded |
| Router.Bot.ExpireOldThreads | wintermute.py:115-128 | the channel keeps its unexpired threads, its histories are swept with the survivors, and the invariants hold |
| Router.Bot.ActiveTopicList | wintermute.py:63-69 | the labels of exactly the live threads, one per thread; a missing channel is not created |
| Router.Bot.UpdateUserContext | wintermute.py:130-132 | the nick's history gets the entry and keeps the newest eight; nothing else changes |
| Router.Bot.UpdateTopicThreads | wintermute.py:134-138 | the topic's thread, created if missing, is touched; nothing else changes |
| Router.Bot.Snippet | wintermute.py:140-145 | the last `n` messages of the thread as lines; a missing thread is created |
| Router.Bot.TopicsReport | wintermute.py:535-549 | the report of the distinct active labels with their counts; the lookups create threads, and the invariants hold |
| Router.Bot.HandleMessage | wintermute.py:470-645 | the outcome in each case, with the whole new state (`HandledAs`). Ignored nick: only the sweep. Empty command: only the sweep. `topics`: the report, its order and counts, the visit order that yields them, and the threads the lookups create. Otherwise: the classifier's inputs, both upserts, the prompt, whose question line is the current message alone, the chosen reply and the messages sent |
| Router.Bot.Answer | wintermute.py:550-645 | the classifier's inputs, both upserts, the prompt laid out from the context's lines with the current message last, the reply and the messages sent (`AnsweredFrom`) |
| Router.Bot.ReadChannelLog | wintermute.py:555 | reading the channel's log through the `defaultdict` creates a missing one, and nothing else changes |
| Router.Bot.RecordMessage | wintermute.py:566-568 | the nick's history gets the entry, then the topic's thread is touched; the invariants hold and nothing else changes |
| Router.Bot.BuildPrompt | wintermute.py:570-622 | once the message is the newest of its thread, the prompt is the layout of the context's lines ending with the current line; nothing changes |
| Router.Bot.OnPubmsg | wintermute.py:422-436 | the message is always logged. It is dropped within 4 s of joining, and dropped when neither a direct command nor a mention. Otherwise it is handled, with the address prefix removed when it is a direct command, and the new state is exactly what `handle_message` makes of the stores with the message logged |
| Router.Bot.OnPrivmsg | wintermute.py:417-420 | only the admin's private messages are handled, as direct commands stripped whole, with the new state exactly what `handle_message` makes of the old one; nothing else changes |
| Router.Bot.OnJoin | wintermute.py:408-415 | the channel's threads and histories are emptied if present, and the join time is recorded |
| Router.Bot.ClearContext | wintermute.py:489-494 | both stores of the channel are emptied, and the reply is `Context cleared.` |
| PromptGenerator.StampRoundTrip | prompt.generator.py:79 | every valid timestamp is written in the `YYYY-MM-DD HH:MM:SS` shape and parses back to itself |
| PromptGenerator.StampTextOf | prompt.generator.py:63 | text in the timestamp shape is exactly the writing of the fields parsed from it |
| PromptGenerator.TabIndex | prompt.generator.py:64 | the first tab of the rest of the line, which ends the sender |
| PromptGenerator.ParseLine | prompt.generator.py:62-82 | a line that parses has a valid timestamp, a non-empty sender without tabs, and a non-empty message without newlines |
| PromptGenerator.FormatParsed | prompt.generator.py:62-82 | a parsed line is exactly the stripped input written back |
| PromptGenerator.ParseFormatted | prompt.generator.py:62-82 | every WeeChat line for a real moment, with a tab-free sender and a message not ending in whitespace, parses back to its fields |
| PromptGenerator.DropNickPrefix | prompt.generator.py:100 | the nick is the sender minus its leading run of `~&@%+` and whitespace |
| PromptGenerator.BotFilterUnreachable | prompt.generator.py:105-106 | the `cloudBot` filter never fires |
| PromptGenerator.ScanStopsAt | prompt.generator.py:84-86 | the scan stops at a line older than the cutoff |
| PromptGenerator.CutoffStopsScan | prompt.generator.py:84-86 | nothing at or before a parsed line older than the cutoff is included |
| PromptGenerator.RecentConcat | prompt.generator.py:114-115 | the entries come out in file order |
| PromptGenerator.KeptHasNoNewline | prompt.generator.py:88-108 | a kept entry is a single line of text |
| PromptGenerator.PreparedLogLines | prompt.generator.py:110-117 | the prepared text splits back into exactly the kept entries, in order |
| PromptGenerator.FetchAndPrepareLogs | prompt.generator.py:34-117 | the loop over the reversed lines, with its `continue`s and its `break`, yields the kept entries in file order joined by newlines, or `None` for an unreadable file or when nothing is kept |
| PromptGenerator.SelectAnalysisModel | prompt.generator.py:120-141 | the estimate is `chars / 4`, and the smaller model is chosen exactly when `chars > 480000` |
| PromptGenerator.RepairDirective | prompt.generator.py:307-318 | it is `None` exactly when the call raised, or when the reply lacks the phrase and has at most 30 characters; a stripped reply with the phrase is returned as it is, and any other is returned as the phrase, a space and the stripped reply |
| PromptGenerator.RepairIdempotent | prompt.generator.py:309-318 | a repaired directive passes the check unchanged |

## Left out

- IRC transport is not modelled: the connection, NickServ identification, joins, and the target of each `privmsg`. The messages sent are returned as a sequence of strings.
- The language-model calls are not modelled, nor the prompts they carry: the topic classifier, the primary and fallback generators, and the analysis and directive models. Their results are `Option<string>` parameters, and `None` stands for a call that raised. The primary generator's `""` on failure is the same as `None` here.
- `get_current_full_prompt_preamble`, the dynamic-prompt polling, and the ignore-list and archive persistence are file and clock I/O. The ignore list is the constructor's parameter.
- The response log written at the end of `handle_message` is not modelled. Neither are the generator's JSON and archive writes, or the rest of `prompt.generator.py`: the analysis call, its truncation and the directive prompt building.
- Time is an integer number of seconds, passed in. The source reads the clock separately at each of these places: `get_active_topic_list` (wintermute.py:64), `expire_old_threads` (:116), `on_join` (:415), twice in `on_pubmsg` (:423 and :430), `handle_message` (:472), and once per key in the report's label generator (:537). The model passes one `now` to every step of an event, so it does not capture a thread expiring between two of these reads. The 2-second dedup window is compared on integer seconds.
- The log cutoff is a parameter. The source computes it as now minus 24 hours, and the model does no date arithmetic.
- The nickname is its default, `wintermute`. The `IRC_BOT_NICKNAME` environment override is not modelled.
- `str.lower()` maps ASCII letters, KELVIN SIGN and U+0130; other non-ASCII characters are left as they are. These are the only characters whose lower case holds an ASCII letter. That is enough for the label normaliser and the admin test, which compare against ASCII-only text.
- Router.Bot.HandleMessage: the ignore test `nick.lower() in self.ignored_users` (wintermute.py:475) is modelled with this partial `lower()`. The ignore list is loaded from JSON (wintermute.py:371) and may hold non-ASCII nicks, so a nick such as `É` is matched against `é` in Python but not in the model.
- The handlers require an IRC line without line breaks and a sender without leading whitespace. The IRC protocol cannot carry CR or LF inside a message (section 2.3.1 of RFC 1459), and a nick never starts with a space.
- `\d` in the log pattern is read as the ASCII digits, and `\w` in the nick search as ASCII word characters. Python also accepts other Unicode digits and letters.
- Dispatch.FirstMatch: `re.escape` and `re.IGNORECASE` are modelled as a literal comparison with ASCII case folding.
- Dictionary and set iteration order are unspecified in the model: the active-label list, the sweep and the `topic_people` loop follow an arbitrary order of keys. The contracts hold for every order. With insertion order, a label created by the report's own lookups is visited after the key that produced it, so that label is reported with 0 people (Threads.MaterialisedLabelCountsZero).
- The sort of the active labels by recency (wintermute.py:536-539) only decides the order of the lookups it performs. The report is built from `set(active_topics)`, so only the set and those lookups are modelled.
- The second, unused snippet call (wintermute.py:574) and the dead assignment after the rendering (wintermute.py:623-624) change nothing and are not modelled. The code after line 145 of `get_topic_conversation_snippet` is unreachable.
- The admin commands (set, show and clear the prompt; ignore, unignore and show ignored) sit behind a test that never holds (Router.AdminBranchUnreachable). Only the clear command is modelled, as `Router.Bot.ClearContext`.
- `on_join` fires for every join, whoever joins; it is modelled as an event for the channel.
- A private message is handled with the bot's own nick as its channel, because the event's target is the bot.
- `readlines` is modelled as a sequence of lines. Each line may end in a newline (PromptGenerator.IsFileLine).
- PromptGenerator.SelectAnalysisModel: the estimate is an exact real, where the source uses a floating-point division. The two agree on the comparison for every character count a string can have.
