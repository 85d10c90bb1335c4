/**
 * The values the router stores per channel: topic threads (members, a
 * ten-message history, the time of the last message) and per-nick histories
 * of `(ts, message, label)` entries, with the pure rules for expiry, pruning
 * and the two upserts.
 */
module Threads {
  import opened Context
  import Fifo
  import Labels

  /** `TOPIC_EXPIRY_SECONDS`. */
  const ExpirySeconds: int := 1800
  /** `deque(maxlen=10)` of a thread. */
  const ThreadCapacity: nat := 10
  /** `user_topics[channel][nick][-8:]`. */
  const UserCapacity: nat := 8
  /** `deque(maxlen=15)` of the channel activity log. */
  const LogCapacity: nat := 15

  datatype Thread = Thread(members: set<string>, messages: seq<Msg>, lastActive: int)

  datatype UserEntry = UserEntry(ts: int, text: string, topic: string)

  /** The thread the `defaultdict` factory creates on first access at time `now`. */
  function NewThread(now: int): (t: Thread)
    ensures t.members == {} && t.messages == [] && t.lastActive == now
  {
    Thread({}, [], now)
  }

  /** `expire_old_threads` deletes a thread older than the expiry time. */
  predicate IsExpired(t: Thread, now: int) { now - t.lastActive > ExpirySeconds }

  /** `get_active_topic_list` offers a thread younger than the expiry time. */
  predicate IsLive(t: Thread, now: int) { now - t.lastActive < ExpirySeconds }

  /** A live thread is never expired; an expired one is never offered. */
  lemma LiveNotExpired(t: Thread, now: int)
    ensures IsLive(t, now) ==> !IsExpired(t, now)
    ensures IsExpired(t, now) ==> !IsLive(t, now)
  {
  }

  /** A thread exactly 1800 seconds old is neither offered nor deleted. */
  lemma ExpiryBoundary(t: Thread, now: int)
    requires now - t.lastActive == ExpirySeconds
    ensures !IsLive(t, now) && !IsExpired(t, now)
  {
  }

  /** The threads of a channel that survive the sweep, untouched. */
  function ExpireThreads(threads: map<string, Thread>, now: int): (r: map<string, Thread>)
    ensures forall k :: k in r <==> k in threads && !IsExpired(threads[k], now)
    ensures forall k :: k in r ==> r[k] == threads[k]
    ensures forall k :: k in threads && IsLive(threads[k], now) ==> k in r
  {
    map k | k in threads && !IsExpired(threads[k], now) :: threads[k]
  }

  /** Sweeping twice at the same time removes nothing more. */
  lemma ExpireIdempotent(threads: map<string, Thread>, now: int)
    ensures ExpireThreads(ExpireThreads(threads, now), now) == ExpireThreads(threads, now)
  {
    var once := ExpireThreads(threads, now);
    assert ExpireThreads(once, now).Keys == once.Keys;
  }

  /** A user's entries whose label is still a thread, in their original order. */
  function KeepLinked(entries: seq<UserEntry>, keys: set<string>): (r: seq<UserEntry>)
    ensures |r| <= |entries|
    ensures forall i :: 0 <= i < |r| ==> r[i] in entries && r[i].topic in keys
    ensures forall i :: 0 <= i < |entries| && entries[i].topic in keys ==> entries[i] in r
    ensures (forall i :: 0 <= i < |entries| ==> entries[i].topic in keys) ==> r == entries
  {
    if entries == [] then []
    else
      var rest := KeepLinked(entries[1..], keys);
      assert forall i :: 1 <= i < |entries| ==> entries[i] == entries[1..][i - 1];
      if entries[0].topic in keys then [entries[0]] + rest else rest
  }

  /** Filtering keeps the newest-last order: what it keeps of a suffix is a suffix of what it keeps. */
  lemma {:induction false} KeepLinkedAppend(a: seq<UserEntry>, b: seq<UserEntry>, keys: set<string>)
    ensures KeepLinked(a + b, keys) == KeepLinked(a, keys) + KeepLinked(b, keys)
  {
    if a == [] {
      assert a + b == b;
    } else {
      assert (a + b)[1..] == a[1..] + b;
      KeepLinkedAppend(a[1..], b, keys);
    }
  }

  /**
   * The per-nick pass of the sweep: each list keeps only entries whose label
   * is in `keys`, and a nick whose list becomes empty is deleted.
   */
  function PruneUsers(users: map<string, seq<UserEntry>>, keys: set<string>): (r: map<string, seq<UserEntry>>)
    ensures forall n :: n in r <==> n in users && KeepLinked(users[n], keys) != []
    ensures forall n :: n in r ==> r[n] == KeepLinked(users[n], keys)
  {
    map n | n in users && KeepLinked(users[n], keys) != [] :: KeepLinked(users[n], keys)
  }

  /** Every entry of every nick names a label in `keys`. */
  predicate LinkedUsers(users: map<string, seq<UserEntry>>, keys: set<string>) {
    forall n, i :: n in users && 0 <= i < |users[n]| ==> users[n][i].topic in keys
  }

  /** Recording an entry whose label is in `keys'` keeps every entry linked, and so does a growing set of labels. */
  lemma RecordLinked(users: map<string, seq<UserEntry>>, keys: set<string>, keys': set<string>,
                     nick: string, e: UserEntry)
    requires LinkedUsers(users, keys) && keys <= keys' && e.topic in keys'
    ensures LinkedUsers(users[nick := Record(if nick in users then users[nick] else [], e)], keys')
  {
    var old_ := if nick in users then users[nick] else [];
    var r := Record(old_, e);
    forall i | 0 <= i < |r|
      ensures r[i].topic in keys'
    {
      if i < |r| - 1 {
        assert |old_| < UserCapacity ==> r[i] == old_[i];
        assert |old_| >= UserCapacity ==> r[i] == old_[|old_| - (UserCapacity - 1) + i];
      }
    }
  }

  /** Every entry the sweep leaves names a thread that survived it (a key of the channel), and no nick is left with no entries. */
  lemma PruneLinked(users: map<string, seq<UserEntry>>, keys: set<string>)
    ensures LinkedUsers(PruneUsers(users, keys), keys)
    ensures forall n :: n in PruneUsers(users, keys) ==> |PruneUsers(users, keys)[n]| >= 1
  {
  }

  /** A nick loses its key exactly when none of its labels survived. */
  lemma PruneDropsNick(users: map<string, seq<UserEntry>>, keys: set<string>, n: string)
    requires n in users
    ensures n !in PruneUsers(users, keys) <==> forall i :: 0 <= i < |users[n]| ==> users[n][i].topic !in keys
  {
    var kept := KeepLinked(users[n], keys);
    if kept != [] {
      assert kept[0] in users[n] && kept[0].topic in keys;
    }
  }

  /** When no label died, the per-nick pass changes nothing for nicks that have entries. */
  lemma PruneNothingDead(users: map<string, seq<UserEntry>>, keys: set<string>)
    requires forall n :: n in users ==> users[n] != [] && forall i :: 0 <= i < |users[n]| ==> users[n][i].topic in keys
    ensures PruneUsers(users, keys) == users
  {
  }

  /**
   * `update_topic_threads` on one thread: the nick joins the members, the
   * message is appended to the ten-message history and the thread becomes
   * as recent as the message.
   */
  function Touch(t: Thread, nick: string, text: string, ts: int): (r: Thread)
    ensures r.members == t.members + {nick}
    ensures r.lastActive == ts
    ensures |r.messages| == if |t.messages| < ThreadCapacity then |t.messages| + 1 else ThreadCapacity
    ensures r.messages[|r.messages| - 1] == Msg(ts, nick, text)
    ensures forall i :: 0 <= i < |r.messages| - 1 ==> r.messages[i] == t.messages[|t.messages| - (|r.messages| - 1) + i]
  {
    Thread(t.members + {nick}, Fifo.Append(t.messages, Msg(ts, nick, text), ThreadCapacity), ts)
  }

  /** Touching never removes a member and never lets the history exceed ten messages. */
  lemma TouchMonotone(t: Thread, nick: string, text: string, ts: int, other: string)
    requires other in t.members
    ensures other in Touch(t, nick, text, ts).members
    ensures |t.messages| <= ThreadCapacity ==> |Touch(t, nick, text, ts).messages| <= ThreadCapacity
  {
  }

  /** `update_user_context` on one nick: append the entry and keep the newest eight. */
  function Record(entries: seq<UserEntry>, e: UserEntry): (r: seq<UserEntry>)
    ensures 1 <= |r| <= UserCapacity
    ensures r[|r| - 1] == e
    ensures |entries| < UserCapacity ==> r == entries + [e]
    ensures |entries| >= UserCapacity ==> r == entries[|entries| - (UserCapacity - 1)..] + [e]
  {
    var r := Fifo.Append(entries, e, UserCapacity);
    assert |entries| >= UserCapacity ==> r == (entries + [e])[|entries| + 1 - UserCapacity..];
    assert |entries| >= UserCapacity ==> (entries + [e])[|entries| + 1 - UserCapacity..] == entries[|entries| - (UserCapacity - 1)..] + [e];
    r
  }

  // ---------------------------------------------------------------------------
  // The topics report

  /** The labels `get_active_topic_list` offers: the normalised keys of the live threads. */
  ghost function ActiveLabels(threads: map<string, Thread>, now: int): set<string> {
    set k | k in threads && IsLive(threads[k], now) :: Labels.Normalize(k)
  }

  /**
   * Looking up each label through the `defaultdict` (as the sort key of the
   * topics report does) creates a fresh thread under every label that is not
   * yet a key; existing threads are untouched.
   */
  function Materialise(threads: map<string, Thread>, labels: set<string>, now: int): (r: map<string, Thread>)
    ensures r.Keys == threads.Keys + labels
    ensures forall k :: k in threads ==> r[k] == threads[k]
    ensures forall k :: k in labels && k !in threads ==> r[k] == NewThread(now)
  {
    map k | k in threads.Keys + labels :: if k in threads then threads[k] else NewThread(now)
  }

  /**
   * A live key whose label is not itself a key produces a thread with no
   * members under that label, so a report that counts that thread says
   * "0 people".
   */
  lemma MaterialisedLabelIsEmpty(threads: map<string, Thread>, now: int, k: string)
    requires k in threads && IsLive(threads[k], now) && Labels.Normalize(k) !in threads
    ensures var m := Materialise(threads, ActiveLabels(threads, now), now);
      Labels.Normalize(k) in m && m[Labels.Normalize(k)].members == {}
  {
    assert Labels.Normalize(k) in ActiveLabels(threads, now);
  }

  /** The labels of `keys`, one each, in order. */
  function NormalizeAll(keys: seq<string>): (r: seq<string>)
    ensures |r| == |keys|
  {
    if keys == [] then [] else NormalizeAll(keys[..|keys| - 1]) + [Labels.Normalize(keys[|keys| - 1])]
  }

  lemma {:induction false} NormalizeAllAt(keys: seq<string>, i: nat)
    requires i < |keys|
    ensures NormalizeAll(keys)[i] == Labels.Normalize(keys[i])
  {
    if i < |keys| - 1 {
      var prefix := keys[..|keys| - 1];
      NormalizeAllAt(prefix, i);
      assert keys[i] == prefix[i];
    }
  }

  /**
   * `topic_people` after the loop over the channel's threads in the order
   * `ks`, whose labels are `ls`: each key writes its thread's member count
   * under its label, so a later key with the same label overwrites an
   * earlier one.
   */
  function PeopleOf(threads: map<string, Thread>, ks: seq<string>, ls: seq<string>): (people: map<string, nat>)
    requires |ls| == |ks|
    requires forall i :: 0 <= i < |ks| ==> ks[i] in threads
  {
    if ks == [] then map[]
    else PeopleOf(threads, ks[..|ks| - 1], ls[..|ls| - 1])[ls[|ls| - 1] := |threads[ks[|ks| - 1]].members|]
  }

  /** Every key visited leaves its label in `topic_people`. */
  lemma {:induction false} PeopleOfHas(threads: map<string, Thread>, ks: seq<string>, ls: seq<string>, i: nat)
    requires |ls| == |ks|
    requires forall j :: 0 <= j < |ks| ==> ks[j] in threads
    requires i < |ks|
    ensures ls[i] in PeopleOf(threads, ks, ls)
  {
    if i < |ks| - 1 {
      PeopleOfHas(threads, ks[..|ks| - 1], ls[..|ls| - 1], i);
    }
  }

  /**
   * The count `topic_people` holds for a label is the member count of the
   * last visited key with that label.
   */
  lemma {:induction false} PeopleOfLast(threads: map<string, Thread>, ks: seq<string>, ls: seq<string>, l: string)
    returns (i: nat)
    requires |ls| == |ks|
    requires forall j :: 0 <= j < |ks| ==> ks[j] in threads
    requires l in PeopleOf(threads, ks, ls)
    ensures i < |ks| && ls[i] == l
    ensures PeopleOf(threads, ks, ls)[l] == |threads[ks[i]].members|
    ensures forall j :: i < j < |ks| ==> ls[j] != l
  {
    if ls[|ls| - 1] == l {
      i := |ks| - 1;
    } else {
      i := PeopleOfLast(threads, ks[..|ks| - 1], ls[..|ls| - 1], l);
    }
  }

  /**
   * In the dictionary's insertion order the threads the label lookups create
   * come after every existing key. A live key whose label is not itself a key
   * (the normaliser is not idempotent, so a key such as "a--b" has the label
   * "a-b") is then always counted as the created, memberless thread under
   * its label: the report says 0 people whatever the key's own members.
   */
  lemma {:induction false} MaterialisedLabelCountsZero(threads: map<string, Thread>, now: int, k: string,
                                                       existing: seq<string>, created: seq<string>)
    requires k in threads && IsLive(threads[k], now)
    requires Labels.Normalize(k) !in threads && Labels.Normalize(Labels.Normalize(k)) == Labels.Normalize(k)
    requires forall i :: 0 <= i < |existing| ==> existing[i] in threads
    requires forall i :: 0 <= i < |created| ==> created[i] in ActiveLabels(threads, now) && created[i] !in threads
    requires Labels.Normalize(k) in created
    ensures var after := Materialise(threads, ActiveLabels(threads, now), now);
      var visit := existing + created;
      && Labels.Normalize(k) in PeopleOf(after, visit, NormalizeAll(visit))
      && PeopleOf(after, visit, NormalizeAll(visit))[Labels.Normalize(k)] == 0
  {
    var after := Materialise(threads, ActiveLabels(threads, now), now);
    var visit := existing + created;
    var labels := NormalizeAll(visit);
    var l := Labels.Normalize(k);
    var c :| 0 <= c < |created| && created[c] == l;
    var p := |existing| + c;
    assert visit[p] == l;
    NormalizeAllAt(visit, p);
    PeopleOfHas(after, visit, labels, p);
    var i := PeopleOfLast(after, visit, labels, l);
    assert i >= p;
    assert visit[i] == created[i - |existing|];
  }

  /** The smallest instance: a key "a--b" with one member is reported as "a-b (0 people)". */
  lemma MaterialisedLabelExample(now: int)
    ensures Labels.Normalize("a--b") == "a-b" && Labels.Normalize("a-b") == "a-b"
    ensures var threads := map["a--b" := Thread({"alice"}, [], now)];
      var after := Materialise(threads, ActiveLabels(threads, now), now);
      var visit := ["a--b", "a-b"];
      "a-b" in PeopleOf(after, visit, NormalizeAll(visit)) && PeopleOf(after, visit, NormalizeAll(visit))["a-b"] == 0
  {
    var threads := map["a--b" := Thread({"alice"}, [], now)];
    ExampleLabel(threads, now);
    MaterialisedLabelCountsZero(threads, now, "a--b", ["a--b"], ["a-b"]);
    assert ["a--b"] + ["a-b"] == ["a--b", "a-b"];
  }

  /** The label of the key "a--b" is "a-b", a fixed point that is not a key, and it is active. */
  lemma ExampleLabel(threads: map<string, Thread>, now: int)
    requires threads == map["a--b" := Thread({"alice"}, [], now)]
    ensures Labels.Normalize("a--b") == "a-b" && Labels.Normalize("a-b") == "a-b"
    ensures "a-b" !in threads && "a-b" in ActiveLabels(threads, now)
  {
    Labels.NormalizeNotIdempotent();
    Labels.NormalizeCanonical("a-b");
    assert IsLive(threads["a--b"], now);
  }

  /** A report entry: `f"{label} ({n} people)"`. */
  function Entry(topic: string, people: nat): string {
    topic + " (" + Text.NatToString(people) + " people)"
  }

  function Entries(order: seq<string>, counts: seq<nat>): (r: seq<string>)
    requires |order| == |counts|
    ensures |r| == |order|
    ensures forall i :: 0 <= i < |r| ==> r[i] == Entry(order[i], counts[i])
  {
    if order == [] then [] else [Entry(order[0], counts[0])] + Entries(order[1..], counts[1..])
  }

  const NoTopics: string := "No active topics right now."
  const TopicsHeader: string := "Active topics: "

  /** The reply to `topics`: the header and the `; `-separated entries, or the fixed text when nothing is live. */
  function Report(order: seq<string>, counts: seq<nat>): string
    requires |order| == |counts|
  {
    if order == [] then NoTopics else TopicsHeader + Text.Join("; ", Entries(order, counts))
  }
}
