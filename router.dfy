/**
 * The bot's per-channel state and the handlers that change it: the expiry
 * sweep, the two upserts, snippet extraction, the topics report, the join
 * reset and the path of a message from `on_pubmsg` / `on_privmsg` through
 * `handle_message` to the lines sent back.
 */
module Router {
  import opened Text
  import opened Wrappers
  import opened Context
  import opened Threads
  import Labels
  import Fifo
  import Dispatch

  /** `nickname` (its default value). */
  const BotNick: string := "wintermute"
  /** `call_prefix`: `nickname + ':'`. */
  const CallPrefix: string := "wintermute:"
  /** The only sender whose private messages are handled. */
  const AdminNick: string := "adminName"
  /** `min_lag`: messages this soon after joining a channel are ignored. */
  const JoinLag: int := 4
  /** `search_limit` of the bot's-last-message lookup. */
  const SearchLimit: int := 10

  const HelpText: string :=
    "Available commands:\n"
    + "- 'wintermute: clear topics' or 'wintermute: clear context' (admin only): Clears conversation topics.\n"
    + "- 'wintermute: topics' or 'wintermute: show topics': Shows active conversation topics.\n"
    + "- 'wintermute: ignore <user>' (admin only): Ignores a user.\n"
    + "- 'wintermute: unignore <user>' (admin only): Unignores a user.\n"
    + "- 'wintermute: show ignored' (admin only): Shows ignored users.\n"
    + "- 'wintermute: help': Shows this help message.\n"
    + "Just talk to me by starting your message with 'wintermute:' or mentioning 'wintermute' anywhere in your message."

  /** What became of one incoming message. */
  datatype Handled =
    | NotAddressed                 // neither a direct command nor a mention
    | TooSoonAfterJoin             // within the join lag
    | NotFromAdmin                 // a private message from anyone else
    | Ignored                      // the sender is on the ignore list
    | EmptyCommand                 // nothing left once the address is removed
    | TopicsListed(report: string, order: seq<string>, counts: seq<nat>, visit: seq<string>)
    | Answered(query: Query, topic: string, prompt: string, reply: Dispatch.Reply, sends: seq<string>)

  /** What the topic classifier is asked with: the message, the offered labels, the bot's last message and the nick. */
  datatype Query = Query(message: string, options: seq<string>, lastBotMessage: string, nick: string)

  /** Python's `s[n:]` for `n >= 0`. */
  function DropFirst(s: string, n: nat): string {
    if n <= |s| then s[n..] else ""
  }

  /** `stripped_cmd`: a direct command loses the call prefix by length, then everything is stripped. */
  function StrippedCommand(cmd: string, isPm: bool, isDirect: bool): string {
    if !isPm && isDirect then Strip(DropFirst(cmd, |CallPrefix|)) else Strip(cmd)
  }

  /** The commands answered with the topics report. */
  predicate IsTopicsCommand(s: string) {
    Lower(s) == "topics" || Lower(s) == "show topics"
  }

  /** `is_direct_command`: the message starts with the call prefix, ignoring case. */
  predicate IsDirect(text: string) { StartsWith(Lower(text), CallPrefix) }

  /** `is_mention`: the bot's nick occurs in the message, ignoring case. */
  predicate IsMention(text: string) { Contains(Lower(text), BotNick) }

  /** A direct command always mentions the bot, since the call prefix starts with its nick. */
  lemma DirectIsMention(text: string)
    ensures IsDirect(text) ==> IsMention(text)
  {
    if IsDirect(text) {
      var l := Lower(text);
      assert l[..|BotNick|] == CallPrefix[..|BotNick|] == BotNick;
      ContainsAt(l, BotNick);
      assert StartsWith(l[0..], BotNick);
    }
  }

  /** What `send_multiline` sends for the reply, followed by the help text when the command was `help`. */
  ghost function Sends(reply: string, stripped: string, nick: string, isPm: bool): seq<string> {
    Dispatch.Outgoing(reply, nick, isPm) + (if Lower(stripped) == "help" then Dispatch.Outgoing(HelpText, nick, isPm) else [])
  }

  /** The sweep of one channel's per-nick histories, as `user_topics` is left by it. */
  function SweptUsers(users: map<string, map<string, seq<UserEntry>>>, channel: string, live: set<string>)
    : (r: map<string, map<string, seq<UserEntry>>>)
    ensures forall ch :: ch != channel ==> (ch in r <==> ch in users) && (ch in r ==> r[ch] == users[ch])
    ensures channel in r ==> channel in users && r[channel] == PruneUsers(users[channel], live) && r[channel] != map[]
    ensures channel !in r <==> channel !in users || PruneUsers(users[channel], live) == map[]
  {
    if channel !in users then users
    else
      var pruned := PruneUsers(users[channel], live);
      if pruned == map[] then users - {channel} else users[channel := pruned]
  }

  /** The deletion loop of `expire_old_threads` over the channel's expired labels. */
  method SweepThreads(channelData: map<string, Thread>, now: int) returns (kept: map<string, Thread>)
    ensures kept == ExpireThreads(channelData, now)
  {
    var expired := set t | t in channelData && IsExpired(channelData[t], now);
    kept := channelData;
    var todo := expired;
    while todo != {}
      invariant todo <= expired
      invariant forall k :: k in kept <==> k in channelData && (k in todo || !IsExpired(channelData[k], now))
      invariant forall k :: k in kept ==> kept[k] == channelData[k]
      decreases |todo|
    {
      var t :| t in todo;
      kept := kept - {t};
      todo := todo - {t};
    }
  }

  /** The per-nick loop of `expire_old_threads`: filter each history by `live`, delete the emptied ones. */
  method SweepUsers(users: map<string, seq<UserEntry>>, live: set<string>) returns (u: map<string, seq<UserEntry>>)
    ensures u == PruneUsers(users, live)
  {
    u := users;
    var nicks := users.Keys;
    while nicks != {}
      invariant nicks <= users.Keys
      invariant forall n :: n in u <==> n in users && (n in nicks || KeepLinked(users[n], live) != [])
      invariant forall n :: n in u ==> u[n] == if n in nicks then users[n] else KeepLinked(users[n], live)
      decreases |nicks|
    {
      var n :| n in nicks;
      var entries := KeepLinked(u[n], live);
      if entries == [] {
        u := u - {n};
      } else {
        u := u[n := entries];
      }
      nicks := nicks - {n};
    }
  }

  /** The second half of the sweep: the channel's histories pruned, and deleted once no nick is left. */
  method SweepChannelUsers(users: UserStore, channel: string, live: set<string>) returns (r: UserStore)
    ensures r == SweptUsers(users, channel, live)
  {
    r := users;
    if channel in users {
      var u := SweepUsers(users[channel], live);
      r := if u == map[] then users - {channel} else users[channel := u];
    }
  }

  /** The loop of `get_active_topic_list`: the live keys, each once, and their labels in the same order. */
  method LiveLabels(threads: map<string, Thread>, now: int) returns (topics: seq<string>, keys: seq<string>)
    ensures topics == NormalizeAll(keys)
    ensures forall i :: 0 <= i < |keys| ==> keys[i] in threads && IsLive(threads[keys[i]], now)
    ensures (set j | 0 <= j < |topics| :: topics[j]) == ActiveLabels(threads, now)
    ensures forall k :: k in threads && IsLive(threads[k], now) ==> k in keys
    ensures forall i, j :: 0 <= i < j < |keys| ==> keys[i] != keys[j]
  {
    var todo := threads.Keys;
    topics, keys := [], [];
    while todo != {}
      invariant todo <= threads.Keys
      invariant topics == NormalizeAll(keys)
      invariant forall i :: 0 <= i < |keys| ==> keys[i] in threads && keys[i] !in todo && IsLive(threads[keys[i]], now)
      invariant forall k :: k in threads && k !in todo && IsLive(threads[k], now) ==> k in keys
      invariant forall i, j :: 0 <= i < j < |keys| ==> keys[i] != keys[j]
      decreases |todo|
    {
      var k :| k in todo;
      if IsLive(threads[k], now) {
        assert (keys + [k])[..|keys|] == keys;
        topics, keys := topics + [Labels.Normalize(k)], keys + [k];
      }
      todo := todo - {k};
    }
    LiveLabelsAreActive(threads, now, topics, keys);
  }

  /** The loop of `get_topic_conversation_snippet`: one `nick: message` line per message, joined by newlines. */
  method FormatSnippet(msgs: seq<Msg>) returns (snippet: string)
    ensures snippet == Join("\n", Lines(msgs))
  {
    var out: seq<string> := [];
    var i := 0;
    while i < |msgs|
      invariant 0 <= i <= |msgs|
      invariant out == Lines(msgs[..i])
    {
      assert msgs[..i + 1] == msgs[..i] + [msgs[i]];
      LinesSnoc(msgs[..i], msgs[i]);
      out := out + [Line(msgs[i].nick, msgs[i].text)];
      i := i + 1;
    }
    assert msgs[..i] == msgs;
    snippet := Join("\n", out);
  }

  /** The labels of the live threads, listed once per thread, are exactly the active labels. */
  lemma LiveLabelsAreActive(threads: map<string, Thread>, now: int, topics: seq<string>, keys: seq<string>)
    requires topics == NormalizeAll(keys)
    requires forall i :: 0 <= i < |keys| ==> keys[i] in threads && IsLive(threads[keys[i]], now)
    requires forall k :: k in threads && IsLive(threads[k], now) ==> k in keys
    ensures (set j | 0 <= j < |topics| :: topics[j]) == ActiveLabels(threads, now)
  {
    ActiveLabelsListed(threads, now, topics, keys);
    ListedLabelsActive(threads, now, topics, keys);
  }

  lemma ActiveLabelsListed(threads: map<string, Thread>, now: int, topics: seq<string>, keys: seq<string>)
    requires topics == NormalizeAll(keys)
    requires forall k :: k in threads && IsLive(threads[k], now) ==> k in keys
    ensures ActiveLabels(threads, now) <= set j | 0 <= j < |topics| :: topics[j]
  {
    forall l | l in ActiveLabels(threads, now)
      ensures exists j :: 0 <= j < |topics| && topics[j] == l
    {
      var k :| k in threads && IsLive(threads[k], now) && Labels.Normalize(k) == l;
      var i :| 0 <= i < |keys| && keys[i] == k;
      NormalizeAllAt(keys, i);
    }
  }

  lemma ListedLabelsActive(threads: map<string, Thread>, now: int, topics: seq<string>, keys: seq<string>)
    requires topics == NormalizeAll(keys)
    requires forall i :: 0 <= i < |keys| ==> keys[i] in threads && IsLive(threads[keys[i]], now)
    ensures (set j | 0 <= j < |topics| :: topics[j]) <= ActiveLabels(threads, now)
  {
    forall j | 0 <= j < |topics|
      ensures topics[j] in ActiveLabels(threads, now)
    {
      NormalizeAllAt(keys, j);
      assert keys[j] in threads && IsLive(threads[keys[j]], now);
    }
  }

  /** The sort key of the topics report: each label read through the `defaultdict` in turn. */
  method MaterialiseLabels(threads: map<string, Thread>, labels: seq<string>, now: int) returns (after: map<string, Thread>)
    ensures after == Materialise(threads, set j | 0 <= j < |labels| :: labels[j], now)
  {
    after := threads;
    var i := 0;
    while i < |labels|
      invariant 0 <= i <= |labels|
      invariant after == Materialise(threads, set j | 0 <= j < i :: labels[j], now)
    {
      if labels[i] !in after {
        after := after[labels[i] := NewThread(now)];
      }
      assert (set j | 0 <= j < i + 1 :: labels[j]) == (set j | 0 <= j < i :: labels[j]) + {labels[i]};
      i := i + 1;
    }
  }

  /**
   * The `topic_people` loop of the topics report: every thread of the
   * channel, visited in the order `visit`, writes its member count under its
   * label `labels[i]`.
   */
  method TopicPeople(threads: map<string, Thread>) returns (people: map<string, nat>, visit: seq<string>, labels: seq<string>)
    ensures forall k :: k in visit <==> k in threads
    ensures forall i, j :: 0 <= i < j < |visit| ==> visit[i] != visit[j]
    ensures labels == NormalizeAll(visit)
    ensures people == PeopleOf(threads, visit, labels)
  {
    people, visit, labels := map[], [], [];
    var todo := threads.Keys;
    while todo != {}
      invariant todo <= threads.Keys
      invariant Visited(threads, todo, visit)
      invariant labels == NormalizeAll(visit)
      invariant people == PeopleOf(threads, visit, labels)
      decreases |todo|
    {
      var k :| k in todo;
      var l := Labels.Normalize(k);
      VisitStep(threads, todo, visit, k);
      NormalizeAllSnoc(visit, k);
      PeopleStep(threads, visit, labels, k, l);
      people, visit, labels := people[l := |threads[k].members|], visit + [k], labels + [l];
      todo := todo - {k};
    }
  }

  /** The keys of `threads` not in `todo` are visited, each once, and nothing else is. */
  ghost predicate Visited(threads: map<string, Thread>, todo: set<string>, visit: seq<string>) {
    && (forall i :: 0 <= i < |visit| ==> visit[i] in threads && visit[i] !in todo)
    && (forall k :: k in threads && k !in todo ==> k in visit)
    && (forall i, j :: 0 <= i < j < |visit| ==> visit[i] != visit[j])
  }

  /** Visiting a key still to do keeps every other key visited once. */
  lemma VisitStep(threads: map<string, Thread>, todo: set<string>, visit: seq<string>, k: string)
    requires k in todo && todo <= threads.Keys && Visited(threads, todo, visit)
    ensures Visited(threads, todo - {k}, visit + [k])
  {
    var v := visit + [k];
    assert forall i :: 0 <= i < |visit| ==> v[i] == visit[i];
  }

  /** Visiting one more key appends its label. */
  lemma NormalizeAllSnoc(visit: seq<string>, k: string)
    ensures NormalizeAll(visit + [k]) == NormalizeAll(visit) + [Labels.Normalize(k)]
  {
    assert (visit + [k])[..|visit|] == visit;
  }

  /** Visiting one more key writes its member count under its label. */
  lemma PeopleStep(threads: map<string, Thread>, visit: seq<string>, labels: seq<string>, k: string, l: string)
    requires k in threads && |labels| == |visit|
    requires forall i :: 0 <= i < |visit| ==> visit[i] in threads
    ensures PeopleOf(threads, visit + [k], labels + [l]) == PeopleOf(threads, visit, labels)[l := |threads[k].members|]
  {
    assert (visit + [k])[..|visit|] == visit;
    assert (labels + [l])[..|labels|] == labels;
  }

  /** The distinct labels of the report, each once, in some order. */
  method DistinctOrder(labels: set<string>) returns (order: seq<string>)
    ensures forall l :: l in order <==> l in labels
    ensures forall i, j :: 0 <= i < j < |order| ==> order[i] != order[j]
  {
    order := [];
    var todo := labels;
    while todo != {}
      invariant todo <= labels
      invariant forall l :: l in order <==> l in labels && l !in todo
      invariant forall i, j :: 0 <= i < j < |order| ==> order[i] != order[j]
      decreases |todo|
    {
      var l :| l in todo;
      order := order + [l];
      todo := todo - {l};
    }
  }

  /** Every active label has an entry in `topic_people`: the loop visits the live thread it came from. */
  lemma ActiveCounted(threads: map<string, Thread>, after: map<string, Thread>, visit: seq<string>, labels: seq<string>, now: int)
    requires threads.Keys <= after.Keys
    requires forall k :: k in visit <==> k in after
    requires labels == NormalizeAll(visit)
    ensures forall l :: l in ActiveLabels(threads, now) ==> l in PeopleOf(after, visit, labels)
  {
    forall l | l in ActiveLabels(threads, now)
      ensures l in PeopleOf(after, visit, labels)
    {
      var k :| k in threads && IsLive(threads[k], now) && Labels.Normalize(k) == l;
      var m :| 0 <= m < |visit| && visit[m] == k;
      NormalizeAllAt(visit, m);
      PeopleOfHas(after, visit, labels, m);
    }
  }

  /**
   * The counts of the report: `topic_people` built over the threads of
   * `after` in the order `visit`, read back for each distinct active label.
   */
  method CountActive(threads: map<string, Thread>, after: map<string, Thread>, active: seq<string>, now: int)
    returns (order: seq<string>, counts: seq<nat>, visit: seq<string>)
    requires threads.Keys <= after.Keys
    requires (set j | 0 <= j < |active| :: active[j]) == ActiveLabels(threads, now)
    ensures |order| == |counts|
    ensures forall i, j :: 0 <= i < j < |order| ==> order[i] != order[j]
    ensures forall l :: l in order <==> l in ActiveLabels(threads, now)
    ensures forall k :: k in visit <==> k in after
    ensures forall i, j :: 0 <= i < j < |visit| ==> visit[i] != visit[j]
    ensures forall i :: 0 <= i < |order| ==> order[i] in PeopleOf(after, visit, NormalizeAll(visit))
    ensures forall i :: 0 <= i < |order| ==> counts[i] == PeopleOf(after, visit, NormalizeAll(visit))[order[i]]
  {
    var people, labels;
    people, visit, labels := TopicPeople(after);
    ActiveCounted(threads, after, visit, labels, now);
    order := DistinctOrder(set j | 0 <= j < |active| :: active[j]);
    counts := seq(|order|, i requires 0 <= i < |order| => people[order[i]]);
  }

  /**
   * The topics report on one channel's threads: the labels are read through
   * the `defaultdict` (creating `after`), then counted and listed.
   */
  method ReportOn(threads: map<string, Thread>, now: int)
    returns (after: map<string, Thread>, report: string, order: seq<string>, counts: seq<nat>, visit: seq<string>)
    ensures after == Materialise(threads, ActiveLabels(threads, now), now)
    ensures |order| == |counts| && report == Report(order, counts)
    ensures forall i, j :: 0 <= i < j < |order| ==> order[i] != order[j]
    ensures forall l :: l in order <==> l in ActiveLabels(threads, now)
    ensures forall k :: k in visit <==> k in after
    ensures forall i, j :: 0 <= i < j < |visit| ==> visit[i] != visit[j]
    ensures forall i :: 0 <= i < |order| ==> order[i] in PeopleOf(after, visit, NormalizeAll(visit))
    ensures forall i :: 0 <= i < |order| ==> counts[i] == PeopleOf(after, visit, NormalizeAll(visit))[order[i]]
  {
    var active, keys := LiveLabels(threads, now);
    // the sort key reads every label through the defaultdict
    after := MaterialiseLabels(threads, active, now);
    order, counts, visit := CountActive(threads, after, active, now);
    report := Report(order, counts);
  }

  // ---------------------------------------------------------------------------
  // The three stores as values, and what each handler keeps of their invariants

  type ThreadStore = map<string, map<string, Thread>>
  type UserStore = map<string, map<string, seq<UserEntry>>>
  type LogStore = map<string, seq<Msg>>

  /** `topic_threads.get(channel, {})`. */
  function ThreadsIn(tt: ThreadStore, channel: string): map<string, Thread> {
    if channel in tt then tt[channel] else map[]
  }

  /** What `topic_threads[channel][topic]` yields at time `now`: the factory's thread when missing. */
  function ThreadIn(tt: ThreadStore, channel: string, topic: string, now: int): Thread {
    if topic in ThreadsIn(tt, channel) then ThreadsIn(tt, channel)[topic] else NewThread(now)
  }

  function UsersIn(ut: UserStore, channel: string): map<string, seq<UserEntry>> {
    if channel in ut then ut[channel] else map[]
  }

  function EntriesIn(ut: UserStore, channel: string, nick: string): seq<UserEntry> {
    if nick in UsersIn(ut, channel) then UsersIn(ut, channel)[nick] else []
  }

  function LogIn(al: LogStore, channel: string): seq<Msg> {
    if channel in al then al[channel] else []
  }

  /** `topic_threads` after the sweep of `channel` at `now`. */
  function SweptThreads(tt: ThreadStore, channel: string, now: int): ThreadStore {
    tt[channel := ExpireThreads(ThreadsIn(tt, channel), now)]
  }

  /** `topic_threads` after `update_topic_threads`: the thread for `topic`, created at `now` if missing, touched. */
  function Upserted(tt: ThreadStore, channel: string, topic: string, nick: string, text: string, ts: int, now: int)
    : ThreadStore
  {
    tt[channel := ThreadsIn(tt, channel)[topic := Touch(ThreadIn(tt, channel, topic, now), nick, text, ts)]]
  }

  /** `user_topics` after `update_user_context`. */
  function Recorded(ut: UserStore, channel: string, nick: string, e: UserEntry): UserStore {
    ut[channel := UsersIn(ut, channel)[nick := Record(EntriesIn(ut, channel, nick), e)]]
  }

  /** `topic_threads` after reading `topic_threads[channel][topic]` at `now`: only a missing thread is created. */
  function ReadThread(tt: ThreadStore, channel: string, topic: string, now: int): ThreadStore {
    if topic in ThreadsIn(tt, channel) then tt else tt[channel := ThreadsIn(tt, channel)[topic := NewThread(now)]]
  }

  /** `channel_activity_log` after reading `channel_activity_log[channel]`: only a missing deque is created. */
  function ReadLog(al: LogStore, channel: string): LogStore {
    if channel in al then al else al[channel := []]
  }

  /** `topic_threads` after the topics report: every active label of the channel read through the `defaultdict`. */
  ghost function ReportedThreads(tt: ThreadStore, channel: string, now: int): ThreadStore {
    tt[channel := Materialise(ThreadsIn(tt, channel), ActiveLabels(ThreadsIn(tt, channel), now), now)]
  }

  /** `channel_activity_log` after `on_pubmsg` appends `m` to the channel's fifteen-message deque. */
  function Logged(al: LogStore, channel: string, m: Msg): LogStore {
    al[channel := Fifo.Append(LogIn(al, channel), m, LogCapacity)]
  }

  /** Every thread history holds at most ten messages. */
  ghost predicate ThreadsBounded(tt: ThreadStore) {
    forall ch, t :: ch in tt && t in tt[ch] ==> |tt[ch][t].messages| <= ThreadCapacity
  }

  /** Every nick's history holds one to eight entries. */
  ghost predicate UsersBounded(ut: UserStore) {
    forall ch, n :: ch in ut && n in ut[ch] ==> 1 <= |ut[ch][n]| <= UserCapacity
  }

  /** Every activity log holds at most fifteen messages. */
  ghost predicate LogBounded(al: LogStore) {
    forall ch :: ch in al ==> |al[ch]| <= LogCapacity
  }

  /** Every thread history holds messages as an IRC line carries them. */
  ghost predicate ThreadsWellFormed(tt: ThreadStore) {
    forall ch, t :: ch in tt && t in tt[ch] ==> WellFormed(tt[ch][t].messages)
  }

  /** Every activity log holds messages as an IRC line carries them. */
  ghost predicate LogWellFormed(al: LogStore) {
    forall ch :: ch in al ==> WellFormed(al[ch])
  }

  /** Every user entry names a thread of its channel. */
  ghost predicate StoresLinked(ut: UserStore, tt: ThreadStore) {
    forall ch :: ch in ut ==> ch in tt && LinkedUsers(ut[ch], tt[ch].Keys)
  }

  /** The sweep: the channel keeps its unexpired threads, and the histories keep the entries naming them. */
  lemma SweepKeepsInvariants(tt: ThreadStore, ut: UserStore, channel: string, now: int, tt': ThreadStore, ut': UserStore)
    requires ThreadsBounded(tt) && UsersBounded(ut) && StoresLinked(ut, tt)
    requires tt' == SweptThreads(tt, channel, now)
    requires ut' == SweptUsers(ut, channel, tt'[channel].Keys)
    ensures ThreadsBounded(tt') && UsersBounded(ut') && StoresLinked(ut', tt')
  {
    if channel in ut {
      PruneLinked(ut[channel], tt'[channel].Keys);
    }
  }

  /** `update_user_context` keeps every history between one and eight entries. */
  lemma RecordKeepsBounded(ut: UserStore, channel: string, nick: string, e: UserEntry, ut': UserStore)
    requires UsersBounded(ut)
    requires ut' == Recorded(ut, channel, nick, e)
    ensures UsersBounded(ut')
  {
  }

  /** `update_topic_threads` keeps every thread history within ten messages. */
  lemma TouchKeepsBounded(tt: ThreadStore, channel: string, topic: string, nick: string, text: string, ts: int, now: int,
                          tt': ThreadStore)
    requires ThreadsBounded(tt)
    requires tt' == Upserted(tt, channel, topic, nick, text, ts, now)
    ensures ThreadsBounded(tt')
  {
    assert |ThreadIn(tt, channel, topic, now).messages| <= ThreadCapacity;
  }

  /** The two upserts of one message together keep every entry linked: the new entry's label gets its thread. */
  lemma UpsertsKeepLinked(ut: UserStore, tt: ThreadStore, channel: string, nick: string, e: UserEntry, t: Thread,
                          ut': UserStore, tt': ThreadStore)
    requires StoresLinked(ut, tt)
    requires ut' == Recorded(ut, channel, nick, e)
    requires tt' == tt[channel := ThreadsIn(tt, channel)[e.topic := t]]
    ensures StoresLinked(ut', tt')
  {
    var live := ThreadsIn(tt, channel).Keys;
    var live' := tt'[channel].Keys;
    assert live' == live + {e.topic};
    RecordLinked(UsersIn(ut, channel), live, live', nick, e);
  }

  /** Creating threads (a `defaultdict` read) keeps the bounds, since new threads are empty, and every link. */
  lemma GrowKeepsInvariants(tt: ThreadStore, ut: UserStore, channel: string, tt': ThreadStore)
    requires ThreadsBounded(tt) && StoresLinked(ut, tt)
    requires channel in tt' && tt' == tt[channel := tt'[channel]]
    requires ThreadsIn(tt, channel).Keys <= tt'[channel].Keys
    requires forall k :: k in tt'[channel] ==> |tt'[channel][k].messages| <= ThreadCapacity
    ensures ThreadsBounded(tt') && StoresLinked(ut, tt')
  {
    forall ch | ch in ut
      ensures ch in tt' && LinkedUsers(ut[ch], tt'[ch].Keys)
    {
      if ch == channel {
        assert LinkedUsers(ut[ch], ThreadsIn(tt, channel).Keys);
      }
    }
  }

  /** Emptying a channel's threads together with its histories keeps every invariant. */
  lemma ClearKeepsInvariants(tt: ThreadStore, ut: UserStore, channel: string, tt': ThreadStore, ut': UserStore)
    requires ThreadsBounded(tt) && UsersBounded(ut) && StoresLinked(ut, tt)
    requires tt' == tt[channel := map[]] && ut' == ut[channel := map[]]
    ensures ThreadsBounded(tt') && UsersBounded(ut') && StoresLinked(ut', tt')
  {
  }

  /** The join reset empties whichever of the two stores hold the channel, and keeps every invariant. */
  lemma JoinKeepsInvariants(tt: ThreadStore, ut: UserStore, channel: string, tt': ThreadStore, ut': UserStore)
    requires ThreadsBounded(tt) && UsersBounded(ut) && StoresLinked(ut, tt)
    requires tt' == if channel in tt then tt[channel := map[]] else tt
    requires ut' == if channel in ut then ut[channel := map[]] else ut
    ensures ThreadsBounded(tt') && UsersBounded(ut') && StoresLinked(ut', tt')
  {
  }

  /** Deleting threads and creating empty ones keeps every thread history well-formed. */
  lemma ShrinkGrowKeepsWellFormed(tt: ThreadStore, channel: string, tt': ThreadStore)
    requires ThreadsWellFormed(tt)
    requires channel in tt' && tt' == tt[channel := tt'[channel]]
    requires forall k :: k in tt'[channel] ==>
      (k in ThreadsIn(tt, channel) && tt'[channel][k] == ThreadsIn(tt, channel)[k]) || tt'[channel][k].messages == []
    ensures ThreadsWellFormed(tt')
  {
  }

  /** `update_topic_threads` with a well-formed message keeps every thread history well-formed. */
  lemma UpsertKeepsWellFormed(tt: ThreadStore, channel: string, topic: string, nick: string, text: string, ts: int,
                              now: int, tt': ThreadStore)
    requires ThreadsWellFormed(tt) && WellFormed([Msg(ts, nick, text)])
    requires tt' == Upserted(tt, channel, topic, nick, text, ts, now)
    ensures ThreadsWellFormed(tt')
  {
    var t := ThreadIn(tt, channel, topic, now);
    var r := Touch(t, nick, text, ts);
    assert WellFormed(t.messages);
    assert WellFormed(r.messages) by {
      forall i | 0 <= i < |r.messages|
        ensures r.messages[i] == Msg(ts, nick, text) || r.messages[i] in t.messages
      {
        if i < |r.messages| - 1 {
          assert r.messages[i] == t.messages[|t.messages| - (|r.messages| - 1) + i];
        }
      }
      assert [Msg(ts, nick, text)][0] == Msg(ts, nick, text);
    }
  }

  /** Logging a well-formed message keeps every activity log well-formed. */
  lemma LogAppendWellFormed(al: LogStore, channel: string, m: Msg, al': LogStore)
    requires LogWellFormed(al) && WellFormed([m])
    requires al' == Logged(al, channel, m)
    ensures LogWellFormed(al')
  {
    var log := LogIn(al, channel);
    var r := al'[channel];
    assert WellFormed(log);
    assert WellFormed(r) by {
      forall i | 0 <= i < |r|
        ensures r[i] == m || r[i] in log
      {
        if i < |r| - 1 {
          assert r[i] == log[|log| - (|r| - 1) + i];
        }
      }
      assert [m][0] == m;
    }
  }

  /** After `update_topic_threads` the message is the newest of the thread. */
  lemma TouchedLast(t: Thread, nick: string, text: string, ts: int)
    ensures Touch(t, nick, text, ts).messages != [] && Last(Touch(t, nick, text, ts).messages) == Msg(ts, nick, text)
  {
  }

  /** The stripped command ends in a non-blank character, when there is one. */
  lemma StrippedEnd(cmd: string, isPm: bool, isDirect: bool, stripped: string)
    requires stripped == StrippedCommand(cmd, isPm, isDirect) && stripped != []
    ensures !IsSpace(stripped[|stripped| - 1])
  {
  }

  /** A direct command and its stripped form: no newline appears that the raw message did not hold. */
  lemma StrippedSingleLine(cmd: string, isPm: bool, isDirect: bool)
    requires '\n' !in cmd
    ensures '\n' !in StrippedCommand(cmd, isPm, isDirect)
  {
    var x := if !isPm && isDirect then DropFirst(cmd, |CallPrefix|) else cmd;
    assert forall i :: 0 <= i < |x| ==> x[i] in cmd;
    var lo := StripSlice(x, Whitespace);
    assert forall i :: 0 <= i < |Strip(x)| ==> Strip(x)[i] == x[lo + i];
  }

  /** The `deque(maxlen=15)` append keeps every log within fifteen messages. */
  lemma LogAppendBounded(al: LogStore, channel: string, m: Msg, al': LogStore)
    requires LogBounded(al)
    requires al' == Logged(al, channel, m)
    ensures LogBounded(al')
  {
  }

  /**
   * The end of `handle_message`: the primary generator's reply, or the
   * fallback's, sent with `send_multiline`, and the help text after it when
   * the command was `help`.
   */
  method Respond(stripped: string, nick: string, isPm: bool, primary: Option<string>, fallback: Option<string>)
    returns (reply: Dispatch.Reply, sends: seq<string>)
    ensures reply == Dispatch.ChooseReply(primary, fallback)
    ensures sends == Sends(reply.text, stripped, nick, isPm)
  {
    reply := Dispatch.ChooseReply(primary, fallback);
    sends := Dispatch.SendMultiline(reply.text, nick, isPm);
    if Lower(stripped) == "help" {
      var help := Dispatch.SendMultiline(HelpText, nick, isPm);
      sends := sends + help;
    }
  }

  /**
   * The bot's last message in `w`, the newest one whose nick is the bot's;
   * "" when the bot has not spoken there.
   */
  function LastBotMessage(w: seq<Msg>): string {
    if w == [] then ""
    else if w[|w| - 1].nick == BotNick then w[|w| - 1].text
    else LastBotMessage(w[..|w| - 1])
  }

  /** `LastBotMessage` is the text of the newest bot message, or "" when there is none. */
  lemma {:induction false} LastBotMessageIsNewest(w: seq<Msg>)
    ensures (forall i :: 0 <= i < |w| ==> w[i].nick != BotNick) ==> LastBotMessage(w) == ""
    ensures forall i :: 0 <= i < |w| && w[i].nick == BotNick && (forall j :: i < j < |w| ==> w[j].nick != BotNick) ==>
      LastBotMessage(w) == w[i].text
  {
    if w != [] && w[|w| - 1].nick != BotNick {
      var p := w[..|w| - 1];
      LastBotMessageIsNewest(p);
      assert forall i :: 0 <= i < |p| ==> p[i] == w[i];
    }
  }

  /**
   * The bot's last message among the newest ten activity entries, found by
   * scanning them newest first.
   */
  method FindBotMessage(log: seq<Msg>) returns (text: string)
    ensures text == LastBotMessage(Tail(log, SearchLimit))
  {
    var w := Tail(log, SearchLimit);
    text := "";
    var i := |w|;
    assert w[..i] == w;
    while i > 0
      invariant 0 <= i <= |w|
      invariant LastBotMessage(w) == LastBotMessage(w[..i])
      invariant text == ""
      decreases i
    {
      assert w[..i][..i - 1] == w[..i - 1];
      i := i - 1;
      if w[i].nick == BotNick {
        text := w[i].text;
        return;
      }
    }
  }

  // ---------------------------------------------------------------------------
  // What `handle_message` leaves behind

  function Last<T>(s: seq<T>): T
    requires s != []
  {
    s[|s| - 1]
  }

  /** The three stores `handle_message` reads and writes. */
  datatype Stores = Stores(threads: ThreadStore, users: UserStore, log: LogStore)

  /** The outcomes of a message that reached `handle_message`. */
  predicate Reached(outcome: Handled) {
    outcome.Ignored? || outcome.EmptyCommand? || outcome.TopicsListed? || outcome.Answered?
  }

  /**
   * The topics report `outcome` on the swept threads `swept`, leaving the
   * threads `after`: each active label once, with the count `topic_people`
   * holds for it once every thread of the channel has been visited in the
   * order `outcome.visit`.
   */
  ghost predicate ListedFrom(outcome: Handled, swept: ThreadStore, after: ThreadStore, channel: string, now: int)
    requires outcome.TopicsListed?
  {
    var active := ActiveLabels(ThreadsIn(swept, channel), now);
    var threads := ThreadsIn(after, channel);
    && after == ReportedThreads(swept, channel, now)
    && |outcome.order| == |outcome.counts|
    && outcome.report == Report(outcome.order, outcome.counts)
    && (forall i, j :: 0 <= i < j < |outcome.order| ==> outcome.order[i] != outcome.order[j])
    && (forall l :: l in outcome.order <==> l in active)
    && (forall k :: k in outcome.visit <==> k in threads)
    && (forall i, j :: 0 <= i < j < |outcome.visit| ==> outcome.visit[i] != outcome.visit[j])
    && (forall i :: 0 <= i < |outcome.order| ==>
          && outcome.order[i] in PeopleOf(threads, outcome.visit, NormalizeAll(outcome.visit))
          && outcome.counts[i] == PeopleOf(threads, outcome.visit, NormalizeAll(outcome.visit))[outcome.order[i]])
  }

  /**
   * The prompt built from the topic's thread `msgs` and the channel's log: the
   * rendered context, which is the layout of the context's lines, the last of
   * them (the only one under the question header) being the current message.
   */
  ghost predicate PromptFrom(prompt: string, msgs: seq<Msg>, topic: string, log: seq<Msg>,
                             nick: string, cmd: string, stripped: string, isDirect: bool, now: int)
  {
    var ls := ContextLines(Lines(Tail(msgs, SnippetSize)), topic, isDirect, log, nick, cmd, stripped, now);
    && prompt == Render(AssembleContext(SnippetText(msgs, SnippetSize), topic, isDirect, log, nick, cmd, stripped, now))
    && |ls| >= 1 && ls[|ls| - 1] == Line(nick, stripped) && prompt == Layout(ls)
  }

  /**
   * The answer `outcome` to `stripped` from `nick`, starting from the stores
   * `s` once swept (`swept`, `kept`) and leaving `s'`: the classifier's
   * query, both upserts, the prompt, whose last line and only it is the
   * current message, and the reply sent.
   */
  ghost predicate AnsweredFrom(outcome: Handled, s: Stores, swept: ThreadStore, kept: UserStore, s': Stores,
                               channel: string, nick: string, cmd: string, stripped: string, isPm: bool, isDirect: bool,
                               now: int, classifierReply: Option<string>, primary: Option<string>, fallback: Option<string>)
    requires outcome.Answered?
  {
    && outcome.query == Query(stripped, outcome.query.options, LastBotMessage(Tail(LogIn(s.log, channel), SearchLimit)), nick)
    && (set j | 0 <= j < |outcome.query.options| :: outcome.query.options[j]) == ActiveLabels(ThreadsIn(swept, channel), now)
    && outcome.topic == Labels.ClassifiedTopic(classifierReply)
    && s'.threads == Upserted(swept, channel, outcome.topic, nick, stripped, now, now)
    && s'.users == Recorded(kept, channel, nick, UserEntry(now, stripped, outcome.topic))
    && s'.log == ReadLog(s.log, channel)
    && PromptFrom(outcome.prompt, ThreadIn(s'.threads, channel, outcome.topic, now).messages, outcome.topic,
                  LogIn(s'.log, channel), nick, cmd, stripped, isDirect, now)
    && outcome.reply == Dispatch.ChooseReply(primary, fallback)
    && outcome.sends == Sends(outcome.reply.text, stripped, nick, isPm)
  }

  /**
   * What `handle_message` does with `cmd` from `nick` on `channel` at `now`,
   * starting from the stores `s` and leaving `s'`: the sweep always happens
   * first; an ignored nick and an empty command stop there; the topics
   * command is answered with the report; anything else is answered.
   */
  ghost predicate HandledAs(outcome: Handled, s: Stores, s': Stores, ignored: set<string>,
                            channel: string, nick: string, cmd: string, isPm: bool, isDirect: bool, now: int,
                            classifierReply: Option<string>, primary: Option<string>, fallback: Option<string>)
  {
    var stripped := StrippedCommand(cmd, isPm, isDirect);
    var swept := SweptThreads(s.threads, channel, now);
    var kept := SweptUsers(s.users, channel, ThreadsIn(swept, channel).Keys);
    && Reached(outcome)
    && (outcome.Ignored? <==> Lower(nick) in ignored)
    && (outcome.EmptyCommand? <==> Lower(nick) !in ignored && stripped == [])
    && (outcome.TopicsListed? <==> Lower(nick) !in ignored && stripped != [] && IsTopicsCommand(stripped))
    && (!outcome.Answered? ==> s'.users == kept && s'.log == s.log)
    && (outcome.Ignored? || outcome.EmptyCommand? ==> s'.threads == swept)
    && (outcome.TopicsListed? ==> ListedFrom(outcome, swept, s'.threads, channel, now))
    && (outcome.Answered? ==> AnsweredFrom(outcome, s, swept, kept, s', channel, nick, cmd, stripped, isPm, isDirect, now,
                                           classifierReply, primary, fallback))
  }

  class Bot {
    /** `topic_threads`: channel, then label, then the thread. */
    var topicThreads: ThreadStore
    /** `user_topics`: channel, then nick, then that nick's newest entries. */
    var userTopics: UserStore
    /** `channel_activity_log`: the newest fifteen raw messages of each channel. */
    var activityLog: LogStore
    /** `join_times`. */
    var joinTimes: map<string, int>
    /** `ignored_users`, lower-case nicks. */
    var ignoredUsers: set<string>

    /**
     * The capacities of the three bounded containers, no nick without entries,
     * every entry linked, and every stored message as an IRC line carries it.
     */
    ghost predicate Valid()
      reads this
    {
      && ThreadsBounded(topicThreads) && UsersBounded(userTopics) && LogBounded(activityLog)
      && StoresLinked(userTopics, topicThreads)
      && ThreadsWellFormed(topicThreads) && LogWellFormed(activityLog)
    }

    function ThreadsOf(channel: string): map<string, Thread>
      reads this
    {
      ThreadsIn(topicThreads, channel)
    }

    function ThreadOf(channel: string, topic: string, now: int): Thread
      reads this
    {
      ThreadIn(topicThreads, channel, topic, now)
    }

    function UsersOf(channel: string): map<string, seq<UserEntry>>
      reads this
    {
      UsersIn(userTopics, channel)
    }

    function EntriesOf(channel: string, nick: string): seq<UserEntry>
      reads this
    {
      EntriesIn(userTopics, channel, nick)
    }

    function LogOf(channel: string): seq<Msg>
      reads this
    {
      LogIn(activityLog, channel)
    }

    /** A fresh bot: no threads, no histories, no log, the ignore list as loaded. */
    constructor(ignored: set<string>)
      ensures Valid()
      ensures topicThreads == map[] && userTopics == map[] && activityLog == map[] && joinTimes == map[]
      ensures ignoredUsers == ignored
    {
      topicThreads := map[];
      userTopics := map[];
      activityLog := map[];
      joinTimes := map[];
      ignoredUsers := ignored;
    }

    /**
     * `expire_old_threads`: delete the channel's threads older than the
     * expiry time (creating the channel's entry, as the `defaultdict` read
     * does), then drop every user entry whose label went with them, every
     * nick left without entries and, if no nick is left, the channel's
     * histories altogether.
     */
    method ExpireOldThreads(channel: string, now: int)
      requires Valid()
      modifies this
      ensures Valid()
      ensures topicThreads == SweptThreads(old(topicThreads), channel, now)
      ensures userTopics == SweptUsers(old(userTopics), channel, ThreadsOf(channel).Keys)
      ensures activityLog == old(activityLog) && joinTimes == old(joinTimes) && ignoredUsers == old(ignoredUsers)
    {
      var kept := SweepThreads(ThreadsOf(channel), now);
      var tt := topicThreads[channel := kept];
      var users := SweepChannelUsers(userTopics, channel, kept.Keys);
      SweepKeepsInvariants(topicThreads, userTopics, channel, now, tt, users);
      topicThreads, userTopics := tt, users;
    }

    /**
     * `get_active_topic_list`: the normalised label of every live thread of
     * the channel, one per thread, listed in the order `keys` gives; a
     * missing channel is read as empty and is not created.
     */
    method ActiveTopicList(channel: string, now: int) returns (topics: seq<string>, keys: seq<string>)
      ensures topics == NormalizeAll(keys)
      ensures forall i :: 0 <= i < |keys| ==> keys[i] in ThreadsOf(channel) && IsLive(ThreadsOf(channel)[keys[i]], now)
      ensures forall k :: k in ThreadsOf(channel) && IsLive(ThreadsOf(channel)[k], now) ==> k in keys
      ensures forall i, j :: 0 <= i < j < |keys| ==> keys[i] != keys[j]
      ensures (set j | 0 <= j < |topics| :: topics[j]) == ActiveLabels(ThreadsOf(channel), now)
    {
      topics, keys := LiveLabels(ThreadsOf(channel), now);
    }

    /** `update_user_context`: append the entry to the nick's history and keep the newest eight. */
    method UpdateUserContext(channel: string, nick: string, text: string, topic: string, ts: int)
      requires UsersBounded(userTopics)
      modifies this
      ensures UsersBounded(userTopics)
      ensures userTopics == Recorded(old(userTopics), channel, nick, UserEntry(ts, text, topic))
      ensures topicThreads == old(topicThreads) && activityLog == old(activityLog)
      ensures joinTimes == old(joinTimes) && ignoredUsers == old(ignoredUsers)
    {
      var ut := userTopics[channel := UsersOf(channel)[nick := Record(EntriesOf(channel, nick), UserEntry(ts, text, topic))]];
      RecordKeepsBounded(userTopics, channel, nick, UserEntry(ts, text, topic), ut);
      userTopics := ut;
    }

    /**
     * `update_topic_threads`: on the channel's thread for `topic` (created at
     * `now` if missing) add the nick to the members, append the message and
     * set the last activity to `ts`.
     */
    method UpdateTopicThreads(channel: string, topic: string, nick: string, text: string, ts: int, now: int)
      requires ThreadsBounded(topicThreads)
      modifies this
      ensures ThreadsBounded(topicThreads)
      ensures topicThreads == Upserted(old(topicThreads), channel, topic, nick, text, ts, now)
      ensures userTopics == old(userTopics) && activityLog == old(activityLog)
      ensures joinTimes == old(joinTimes) && ignoredUsers == old(ignoredUsers)
    {
      var t := ThreadOf(channel, topic, now);
      var tt := topicThreads[channel := ThreadsOf(channel)[topic := Touch(t, nick, text, ts)]];
      TouchKeepsBounded(topicThreads, channel, topic, nick, text, ts, now, tt);
      topicThreads := tt;
    }

    /**
     * `get_topic_conversation_snippet`: the last `n` messages of the thread as
     * `nick: message` lines joined by newlines. Reading a missing thread
     * creates it, as the `defaultdict` does.
     */
    method Snippet(channel: string, topic: string, n: int, now: int) returns (snippet: string)
      requires Valid()
      modifies this
      ensures Valid()
      ensures snippet == SnippetText(old(ThreadOf(channel, topic, now)).messages, n)
      ensures topicThreads == ReadThread(old(topicThreads), channel, topic, now)
      ensures userTopics == old(userTopics) && activityLog == old(activityLog)
      ensures joinTimes == old(joinTimes) && ignoredUsers == old(ignoredUsers)
    {
      var t := ThreadOf(channel, topic, now);
      if topic !in ThreadsOf(channel) {
        var tt := topicThreads[channel := ThreadsOf(channel)[topic := t]];
        GrowKeepsInvariants(topicThreads, userTopics, channel, tt);
        ShrinkGrowKeepsWellFormed(topicThreads, channel, tt);
        topicThreads := tt;
      }
      snippet := FormatSnippet(Tail(t.messages, n));
    }

    /**
     * The topics report: the distinct labels of the live threads, each with
     * the count `topic_people` holds for it after the loop over the channel's
     * threads in the order `visit`. Looking labels up through the
     * `defaultdict` first creates a thread under every label that was not a
     * key, and the loop visits those too.
     */
    method TopicsReport(channel: string, now: int)
      returns (report: string, order: seq<string>, counts: seq<nat>, visit: seq<string>)
      requires Valid()
      modifies this
      ensures Valid()
      ensures topicThreads == ReportedThreads(old(topicThreads), channel, now)
      ensures |order| == |counts| && report == Report(order, counts)
      ensures forall i, j :: 0 <= i < j < |order| ==> order[i] != order[j]
      ensures forall l :: l in order <==> l in ActiveLabels(old(ThreadsOf(channel)), now)
      ensures forall k :: k in visit <==> k in ThreadsOf(channel)
      ensures forall i, j :: 0 <= i < j < |visit| ==> visit[i] != visit[j]
      ensures forall i :: 0 <= i < |order| ==> order[i] in PeopleOf(ThreadsOf(channel), visit, NormalizeAll(visit))
      ensures forall i :: 0 <= i < |order| ==> counts[i] == PeopleOf(ThreadsOf(channel), visit, NormalizeAll(visit))[order[i]]
      ensures userTopics == old(userTopics) && activityLog == old(activityLog)
      ensures joinTimes == old(joinTimes) && ignoredUsers == old(ignoredUsers)
    {
      var after;
      after, report, order, counts, visit := ReportOn(ThreadsOf(channel), now);
      var tt := topicThreads[channel := after];
      GrowKeepsInvariants(topicThreads, userTopics, channel, tt);
      ShrinkGrowKeepsWellFormed(topicThreads, channel, tt);
      topicThreads := tt;
    }

    /**
     * `handle_message`: sweep the channel; drop messages from ignored nicks
     * and empty commands; answer `topics` with the report; otherwise find the
     * bot's last message, classify the message into a topic (the classifier's
     * answer is `classifierReply`), record it in the nick's history and the
     * topic's thread, build the prompt from the thread's snippet or the raw
     * activity, and send the generators' reply (`primary`, `fallback`; `None`
     * when a call raised), followed by the help text for `help`.
     */
    method HandleMessage(channel: string, nick: string, cmd: string, isPm: bool, isDirect: bool, now: int,
                         classifierReply: Option<string>, primary: Option<string>, fallback: Option<string>)
      returns (outcome: Handled)
      requires Valid()
      requires WellFormed([Msg(now, nick, cmd)])
      modifies this
      ensures Valid()
      ensures joinTimes == old(joinTimes) && ignoredUsers == old(ignoredUsers)
      ensures HandledAs(outcome, Stores(old(topicThreads), old(userTopics), old(activityLog)),
                        Stores(topicThreads, userTopics, activityLog), ignoredUsers,
                        channel, nick, cmd, isPm, isDirect, now, classifierReply, primary, fallback)
    {
      ExpireOldThreads(channel, now);
      if Lower(nick) in ignoredUsers {
        return Ignored;
      }
      var stripped := StrippedCommand(cmd, isPm, isDirect);
      if stripped == [] {
        return EmptyCommand;
      }
      // the admin commands (clear, prompt changes, the ignore list) are never reached
      AdminBranchUnreachable(nick);
      if IsTopicsCommand(stripped) {
        var report, order, counts, visit := TopicsReport(channel, now);
        return TopicsListed(report, order, counts, visit);
      }
      assert [Msg(now, nick, cmd)][0] == Msg(now, nick, cmd);
      StrippedSingleLine(cmd, isPm, isDirect);
      outcome := Answer(channel, nick, cmd, stripped, isPm, isDirect, now, classifierReply, primary, fallback);
    }

    /** The answering half of `handle_message`, once the message is known to need a reply. */
    method Answer(channel: string, nick: string, cmd: string, stripped: string, isPm: bool, isDirect: bool, now: int,
                  classifierReply: Option<string>, primary: Option<string>, fallback: Option<string>)
      returns (outcome: Handled)
      requires Valid()
      requires WellFormed([Msg(now, nick, cmd)])
      requires stripped == StrippedCommand(cmd, isPm, isDirect) && stripped != [] && '\n' !in stripped
      modifies this
      ensures Valid()
      ensures joinTimes == old(joinTimes) && ignoredUsers == old(ignoredUsers)
      ensures outcome.Answered?
      ensures AnsweredFrom(outcome, Stores(old(topicThreads), old(userTopics), old(activityLog)), old(topicThreads),
                           old(userTopics), Stores(topicThreads, userTopics, activityLog), channel, nick, cmd, stripped,
                           isPm, isDirect, now, classifierReply, primary, fallback)
    {
      ReadChannelLog(channel);
      var lastBot := FindBotMessage(LogOf(channel));
      var options, keys := ActiveTopicList(channel, now);
      var topic := Labels.ClassifiedTopic(classifierReply);
      WellFormedOne(Msg(now, nick, cmd));
      WellFormedOne(Msg(now, nick, stripped));
      ghost var tt0 := topicThreads;
      RecordMessage(channel, nick, stripped, topic, now);
      ghost var t := Touch(ThreadIn(tt0, channel, topic, now), nick, stripped, now);
      assert topic in ThreadsOf(channel) && ThreadsOf(channel)[topic] == t;
      TouchedLast(ThreadIn(tt0, channel, topic, now), nick, stripped, now);
      StrippedEnd(cmd, isPm, isDirect, stripped);
      var prompt := BuildPrompt(channel, topic, nick, cmd, stripped, isDirect, now);
      var reply, sends := Respond(stripped, nick, isPm, primary, fallback);
      outcome := Answered(Query(stripped, options, lastBot, nick), topic, prompt, reply, sends);
    }

    /**
     * The prompt of `handle_message`, once the message is the newest of its
     * topic's thread: the snippet (the thread exists, so reading it creates
     * nothing), the context chosen from it or the raw activity, rendered.
     */
    method BuildPrompt(channel: string, topic: string, nick: string, cmd: string, stripped: string, isDirect: bool,
                       now: int) returns (prompt: string)
      requires Valid()
      requires topic in ThreadsOf(channel) && ThreadsOf(channel)[topic].messages != []
      requires Last(ThreadsOf(channel)[topic].messages) == Msg(now, nick, stripped)
      requires stripped != [] && !IsSpace(stripped[|stripped| - 1])
      modifies this
      ensures Valid()
      ensures topicThreads == old(topicThreads) && userTopics == old(userTopics) && activityLog == old(activityLog)
      ensures joinTimes == old(joinTimes) && ignoredUsers == old(ignoredUsers)
      ensures PromptFrom(prompt, ThreadOf(channel, topic, now).messages, topic, LogOf(channel), nick, cmd, stripped,
                         isDirect, now)
    {
      var snippet := Snippet(channel, topic, SnippetSize, now);
      prompt := Render(AssembleContext(snippet, topic, isDirect, LogOf(channel), nick, cmd, stripped, now));
      var msgs := ThreadOf(channel, topic, now).messages;
      assert WellFormed(msgs) && WellFormed(LogOf(channel));
      PromptLayout(msgs, topic, isDirect, LogOf(channel), nick, cmd, stripped, now);
    }

    /** Reading `channel_activity_log[channel]` through the `defaultdict`: a missing deque is created. */
    method ReadChannelLog(channel: string)
      requires Valid()
      modifies this
      ensures Valid()
      ensures activityLog == ReadLog(old(activityLog), channel)
      ensures topicThreads == old(topicThreads) && userTopics == old(userTopics)
      ensures joinTimes == old(joinTimes) && ignoredUsers == old(ignoredUsers)
    {
      if channel !in activityLog {
        activityLog := activityLog[channel := []];
      }
    }

    /** The two upserts of `handle_message`: the nick's history, then the topic's thread. */
    method RecordMessage(channel: string, nick: string, stripped: string, topic: string, now: int)
      requires Valid() && WellFormed([Msg(now, nick, stripped)])
      modifies this
      ensures Valid()
      ensures userTopics == Recorded(old(userTopics), channel, nick, UserEntry(now, stripped, topic))
      ensures topicThreads == Upserted(old(topicThreads), channel, topic, nick, stripped, now, now)
      ensures activityLog == old(activityLog) && joinTimes == old(joinTimes) && ignoredUsers == old(ignoredUsers)
    {
      ghost var tt0, ut0 := topicThreads, userTopics;
      UpdateUserContext(channel, nick, stripped, topic, now);
      UpdateTopicThreads(channel, topic, nick, stripped, now, now);
      UpsertsKeepLinked(ut0, tt0, channel, nick, UserEntry(now, stripped, topic),
                        Touch(ThreadIn(tt0, channel, topic, now), nick, stripped, now), userTopics, topicThreads);
      UpsertKeepsWellFormed(tt0, channel, topic, nick, stripped, now, now, topicThreads);
    }

    /**
     * `on_pubmsg`: log the message, ignore it within the join lag, and hand
     * direct commands and mentions to `handle_message`.
     */
    method OnPubmsg(channel: string, sender: string, text: string, now: int,
                    classifierReply: Option<string>, primary: Option<string>, fallback: Option<string>)
      returns (outcome: Handled)
      requires Valid()
      // an IRC line carries no line break, and a nick no leading whitespace
      requires WellFormed([Msg(now, sender, text)])
      modifies this
      ensures Valid()
      ensures joinTimes == old(joinTimes) && ignoredUsers == old(ignoredUsers)
      ensures activityLog == Logged(old(activityLog), channel, Msg(now, sender, text))
      ensures outcome.TooSoonAfterJoin? <==> channel in joinTimes && now - joinTimes[channel] < JoinLag
      ensures outcome.NotAddressed? <==> (!outcome.TooSoonAfterJoin? && !IsDirect(text) && !IsMention(text))
      ensures outcome.TooSoonAfterJoin? || outcome.NotAddressed? ==>
        topicThreads == old(topicThreads) && userTopics == old(userTopics)
      ensures !outcome.NotFromAdmin?
      // every other message is handled by `handle_message`, from the stores with the message logged
      ensures Reached(outcome) ==>
        HandledAs(outcome, Stores(old(topicThreads), old(userTopics), Logged(old(activityLog), channel, Msg(now, sender, text))),
                  Stores(topicThreads, userTopics, activityLog), ignoredUsers,
                  channel, sender, text, false, IsDirect(text), now, classifierReply, primary, fallback)
    {
      var al := Logged(activityLog, channel, Msg(now, sender, text));
      LogAppendBounded(activityLog, channel, Msg(now, sender, text), al);
      LogAppendWellFormed(activityLog, channel, Msg(now, sender, text), al);
      activityLog := al;
      if channel in joinTimes && now - joinTimes[channel] < JoinLag {
        return TooSoonAfterJoin;
      }
      var isDirect := IsDirect(text);
      var isMention := IsMention(text);
      if isDirect || isMention {
        outcome := HandleMessage(channel, sender, text, false, isDirect, now, classifierReply, primary, fallback);
      } else {
        outcome := NotAddressed;
      }
    }

    /** `on_privmsg`: only the admin's private messages are handled, as direct commands in the bot's own query window. */
    method OnPrivmsg(sender: string, text: string, now: int,
                     classifierReply: Option<string>, primary: Option<string>, fallback: Option<string>)
      returns (outcome: Handled)
      requires Valid()
      // an IRC line carries no line break
      requires '\n' !in text
      modifies this
      ensures Valid()
      ensures joinTimes == old(joinTimes) && ignoredUsers == old(ignoredUsers)
      ensures outcome.NotFromAdmin? <==> sender != AdminNick
      ensures outcome.NotFromAdmin? ==>
        topicThreads == old(topicThreads) && userTopics == old(userTopics) && activityLog == old(activityLog)
      ensures !outcome.NotAddressed? && !outcome.TooSoonAfterJoin?
      // the admin's message is handled by `handle_message` in the bot's own query window
      ensures sender == AdminNick ==>
        HandledAs(outcome, Stores(old(topicThreads), old(userTopics), old(activityLog)),
                  Stores(topicThreads, userTopics, activityLog), ignoredUsers,
                  BotNick, sender, text, true, true, now, classifierReply, primary, fallback)
    {
      if sender == AdminNick {
        assert WellFormed([Msg(now, sender, text)]);
        outcome := HandleMessage(BotNick, sender, text, true, true, now, classifierReply, primary, fallback);
      } else {
        outcome := NotFromAdmin;
      }
    }

    /** `on_join`: the channel's threads and histories are emptied if present, and the join time recorded. */
    method OnJoin(channel: string, now: int)
      requires Valid()
      modifies this
      ensures Valid()
      ensures topicThreads == if channel in old(topicThreads) then old(topicThreads)[channel := map[]] else old(topicThreads)
      ensures userTopics == if channel in old(userTopics) then old(userTopics)[channel := map[]] else old(userTopics)
      ensures joinTimes == old(joinTimes)[channel := now]
      ensures activityLog == old(activityLog) && ignoredUsers == old(ignoredUsers)
    {
      var tt := if channel in topicThreads then topicThreads[channel := map[]] else topicThreads;
      var ut := if channel in userTopics then userTopics[channel := map[]] else userTopics;
      JoinKeepsInvariants(topicThreads, userTopics, channel, tt, ut);
      topicThreads, userTopics := tt, ut;
      joinTimes := joinTimes[channel := now];
    }

    /** The admin `clear topics` / `clear context` command: both stores of the channel emptied (and created). */
    method ClearContext(channel: string) returns (reply: string)
      requires Valid()
      modifies this
      ensures Valid()
      ensures topicThreads == old(topicThreads)[channel := map[]] && userTopics == old(userTopics)[channel := map[]]
      ensures reply == "Context cleared."
      ensures activityLog == old(activityLog) && joinTimes == old(joinTimes) && ignoredUsers == old(ignoredUsers)
    {
      var tt, ut := topicThreads[channel := map[]], userTopics[channel := map[]];
      ClearKeepsInvariants(topicThreads, userTopics, channel, tt, ut);
      topicThreads, userTopics := tt, ut;
      reply := "Context cleared.";
    }
  }

  /** `nick.lower() == "adminName"` never holds: a lower-cased nick has no upper-case `N`. */
  lemma AdminBranchUnreachable(nick: string)
    ensures Lower(nick) != AdminNick
  {
    LowerNeverEquals(nick, AdminNick, 5);
  }

  lemma LinesSnoc(ms: seq<Msg>, m: Msg)
    ensures Lines(ms + [m]) == Lines(ms) + [Line(m.nick, m.text)]
  {
  }
}
