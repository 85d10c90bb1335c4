/**
 * What happens to a prompt after the context is built: the choice between the
 * primary generator, the fallback generator and the fixed apology, and the
 * way `send_multiline` cleans, frames and cuts a reply into IRC messages.
 */
module Dispatch {
  import opened Text
  import opened Wrappers

  /** The text the fallback generator returns when its own call raises. */
  const Apology: string := "[" + "My backup circuits are also fried. I'm completely offline. Try again later." + "]"

  /** `max_length` of `send_multiline`. */
  const MaxChunk: nat := 420

  // ---------------------------------------------------------------------------
  // Reply choice

  /** The answer sent back and how many generators were asked for it. */
  datatype Reply = Reply(text: string, attempts: nat)

  /** A stripped string is its own strip. */
  lemma StripIdempotent(s: string)
    ensures Strip(Strip(s)) == Strip(s)
  {
    StripUnchanged(Strip(s));
  }

  /**
   * The primary generator's stripped text when that is non-empty (`None`
   * means its call raised, which the adapter turns into ""); otherwise the
   * fallback's stripped text, or the apology when the fallback raised too.
   */
  function ChooseReply(primary: Option<string>, fallback: Option<string>): (r: Reply)
    ensures 1 <= r.attempts <= 2
    ensures r.attempts == 1 <==> primary.Some? && Strip(primary.value) != []
    ensures r.attempts == 1 ==> r.text == Strip(primary.value)
    ensures r.attempts == 2 ==> r.text == (if fallback.Some? then Strip(fallback.value) else Apology)
    ensures r.text == [] <==> r.attempts == 2 && fallback.Some? && Strip(fallback.value) == []
    ensures Strip(r.text) == r.text
  {
    var first := if primary.Some? then Strip(primary.value) else "";
    if first != [] then
      StripIdempotent(primary.value);
      Reply(first, 1)
    else if fallback.Some? then
      StripIdempotent(fallback.value);
      Reply(Strip(fallback.value), 2)
    else
      ApologyStripped(Apology);
      Reply(Apology, 2)
  }

  /** The apology has no surrounding whitespace: it opens and closes with a bracket. */
  lemma ApologyStripped(a: string)
    requires a == Apology
    ensures a != [] && Strip(a) == a
  {
    assert a[0] == '[' && a[|a| - 1] == ']';
    StripUnchanged(a);
  }

  // ---------------------------------------------------------------------------
  // Cleaning

  /** `response.replace('\r', '').replace('\n', ' ')`. */
  function CleanForIrc(s: string): (r: string)
    ensures |r| == |s| - Count(s, '\r')
    ensures '\r' !in r && '\n' !in r
  {
    if s == [] then []
    else if s[0] == '\r' then CleanForIrc(s[1..])
    else [if s[0] == '\n' then ' ' else s[0]] + CleanForIrc(s[1..])
  }

  /** Without carriage returns, cleaning changes exactly the newlines, each into a space. */
  lemma {:induction false} CleanReplacesNewlines(s: string)
    requires '\r' !in s
    ensures |CleanForIrc(s)| == |s|
    ensures forall i :: 0 <= i < |s| ==> CleanForIrc(s)[i] == if s[i] == '\n' then ' ' else s[i]
  {
    if s != [] {
      CleanReplacesNewlines(s[1..]);
      assert forall i :: 1 <= i < |s| ==> CleanForIrc(s)[i] == CleanForIrc(s[1..])[i - 1];
    }
  }

  /** Cleaning is the identity on a single IRC line. */
  lemma {:induction false} CleanUnchanged(s: string)
    requires '\r' !in s && '\n' !in s
    ensures CleanForIrc(s) == s
  {
    if s != [] {
      CleanUnchanged(s[1..]);
      assert [s[0]] + s[1..] == s;
    }
  }

  // ---------------------------------------------------------------------------
  // Whole-word search of the nick

  /** `\w` on ASCII text. */
  predicate IsWordChar(c: char) {
    ('a' <= c <= 'z') || ('A' <= c <= 'Z') || ('0' <= c <= '9') || c == '_'
  }

  /** Whether position `p` of `s` (past either end counts as a non-word) holds a word character. */
  predicate WordAt(s: string, p: int) {
    0 <= p < |s| && IsWordChar(s[p])
  }

  /** `\b`: a word character on exactly one side of position `p`. */
  predicate Boundary(s: string, p: int) {
    WordAt(s, p - 1) != WordAt(s, p)
  }

  /** Case-insensitive comparison of one character, ASCII letters folded. */
  function Fold(c: char): char {
    if IsUpperAscii(c) then (c as int + 32) as char else c
  }

  predicate SameIgnoringCase(a: string, b: string) {
    |a| == |b| && forall i :: 0 <= i < |a| ==> Fold(a[i]) == Fold(b[i])
  }

  /** `\b<w>\b` matches `s` at offset `i`, ignoring case. */
  predicate MatchesAt(s: string, w: string, i: int) {
    0 <= i && i + |w| <= |s| && SameIgnoringCase(s[i..i + |w|], w) && Boundary(s, i) && Boundary(s, i + |w|)
  }

  /** `re.search(rf'\b{re.escape(w)}\b', s, re.IGNORECASE)` finds a match. */
  ghost predicate ContainsWholeWord(s: string, w: string) {
    exists i :: MatchesAt(s, w, i)
  }

  /** The search is the search of the first offset that matches: it is decided position by position. */
  function FirstMatch(s: string, w: string, from: nat): (r: Option<nat>)
    requires from <= |s| + 1
    ensures r.Some? ==> from <= r.value && MatchesAt(s, w, r.value)
    ensures r.Some? ==> forall i :: from <= i < r.value ==> !MatchesAt(s, w, i)
    ensures r.None? ==> forall i :: from <= i ==> !MatchesAt(s, w, i)
    decreases |s| + 1 - from
  {
    if from + |w| > |s| then None
    else if MatchesAt(s, w, from) then Some(from)
    else FirstMatch(s, w, from + 1)
  }

  /** Searching from the start decides `ContainsWholeWord`. */
  lemma FirstMatchDecides(s: string, w: string)
    ensures FirstMatch(s, w, 0).Some? <==> ContainsWholeWord(s, w)
  {
    if FirstMatch(s, w, 0).Some? {
      assert MatchesAt(s, w, FirstMatch(s, w, 0).value);
    }
  }

  // ---------------------------------------------------------------------------
  // Chunking

  /** `[response[i:i+420] for i in range(0, len(response), 420)]`. */
  function Chunks(s: string): (cs: seq<string>)
    ensures forall k :: 0 <= k < |cs| ==> 1 <= |cs[k]| <= MaxChunk
    decreases |s|
  {
    if s == [] then []
    else if |s| <= MaxChunk then [s]
    else [s[..MaxChunk]] + Chunks(s[MaxChunk..])
  }

  function Concat(cs: seq<string>): string {
    if cs == [] then "" else cs[0] + Concat(cs[1..])
  }

  /** The chunks put back together are the string they were cut from. */
  lemma {:induction false} ChunksConcat(s: string)
    ensures Concat(Chunks(s)) == s
    decreases |s|
  {
    if |s| > MaxChunk {
      ChunksConcat(s[MaxChunk..]);
      assert s[..MaxChunk] + s[MaxChunk..] == s;
    }
  }

  /** Chunk `k` is the slice at offset `420 * k`, and the chunks cover the whole string. */
  lemma {:induction false} ChunksShape(s: string)
    ensures |s| <= MaxChunk * |Chunks(s)|
    ensures forall k :: 0 <= k < |Chunks(s)| ==>
      MaxChunk * k < |s| && Chunks(s)[k] == s[MaxChunk * k..Min(MaxChunk * k + MaxChunk, |s|)]
    decreases |s|
  {
    if |s| > MaxChunk {
      var rest := s[MaxChunk..];
      ChunksShape(rest);
      assert |Chunks(s)| == 1 + |Chunks(rest)|;
      forall k | 1 <= k < |Chunks(s)|
        ensures MaxChunk * k < |s| && Chunks(s)[k] == s[MaxChunk * k..Min(MaxChunk * k + MaxChunk, |s|)]
      {
        var a, b := MaxChunk * (k - 1), Min(MaxChunk * (k - 1) + MaxChunk, |rest|);
        assert Chunks(s)[k] == Chunks(rest)[k - 1] == rest[a..b];
        assert MaxChunk * k == a + MaxChunk;
        assert b + MaxChunk == Min(MaxChunk * k + MaxChunk, |s|);
        SliceOfSuffix(s, MaxChunk, a, b);
      }
    }
  }

  lemma SliceOfSuffix(s: string, d: nat, a: nat, b: nat)
    requires d <= |s| && a <= b <= |s| - d
    ensures s[d..][a..b] == s[d + a..d + b]
  {
    assert |s[d..][a..b]| == |s[d + a..d + b]|;
    forall i | 0 <= i < b - a
      ensures s[d..][a..b][i] == s[d + a..d + b][i]
    {
    }
  }

  lemma ChunksCover(s: string)
    ensures |s| <= MaxChunk * |Chunks(s)|
  {
    ChunksShape(s);
  }

  lemma ChunkAt(s: string, k: nat)
    requires k < |Chunks(s)|
    ensures MaxChunk * k < |s| && Chunks(s)[k] == s[MaxChunk * k..Min(MaxChunk * k + MaxChunk, |s|)]
  {
    ChunksShape(s);
  }

  /** There are `ceil(len / 420)` chunks. */
  lemma ChunksCount(s: string)
    ensures |Chunks(s)| == (|s| + MaxChunk - 1) / MaxChunk
  {
    ChunksShape(s);
    var n := |Chunks(s)|;
    if n > 0 {
      assert MaxChunk * (n - 1) < |s|;
    }
  }

  function Min(a: int, b: int): int { if a <= b then a else b }

  /** A 1000-character reply goes out as 420, 420 and 160 characters. */
  lemma ThousandCharacters(s: string)
    requires |s| == 1000
    ensures |Chunks(s)| == 3
    ensures |Chunks(s)[0]| == 420 && |Chunks(s)[1]| == 420 && |Chunks(s)[2]| == 160
  {
    ChunksShape(s);
    ChunksCount(s);
  }

  /** Each chunk as the message put on the wire, with or without the `nick: ` address. */
  function Framed(chunks: seq<string>, nick: string, addressed: bool): (msgs: seq<string>)
    ensures |msgs| == |chunks|
    ensures forall k :: 0 <= k < |chunks| ==> msgs[k] == if addressed then nick + ": " + chunks[k] else chunks[k]
  {
    if chunks == [] then [] else [if addressed then nick + ": " + chunks[0] else chunks[0]] + Framed(chunks[1..], nick, addressed)
  }

  /** The messages `send_multiline` sends for `response`: not a PM and the nick not already named means addressed. */
  ghost function Outgoing(response: string, nick: string, isPm: bool): seq<string> {
    var clean := CleanForIrc(response);
    Framed(Chunks(clean), nick, !isPm && !ContainsWholeWord(clean, nick))
  }

  /**
   * `send_multiline`: clean the reply, decide once whether to address the
   * nick, then send one message per 420-character offset.
   */
  method SendMultiline(response: string, nick: string, isPm: bool) returns (sent: seq<string>)
    ensures sent == Outgoing(response, nick, isPm)
  {
    var clean := CleanForIrc(response);
    FirstMatchDecides(clean, nick);
    var prefixNeeded := FirstMatch(clean, nick, 0).None?;
    ChunksCover(clean);
    ghost var chunks := Chunks(clean);
    ghost var addressed := !isPm && prefixNeeded;
    sent := [];
    var i := 0;
    while i < |clean|
      invariant i == MaxChunk * |sent|
      invariant |sent| <= |chunks|
      invariant |sent| == |chunks| ==> |clean| <= i
      invariant sent == Framed(chunks[..|sent|], nick, addressed)
      decreases |clean| - i
    {
      assert |sent| < |chunks| by {
        if |sent| == |chunks| { assert false; }
      }
      ghost var k := |sent|;
      var chunk := clean[i..Min(i + MaxChunk, |clean|)];
      ChunkAt(clean, k);
      assert chunk == chunks[k];
      var msg := if !isPm && prefixNeeded then nick + ": " + chunk else chunk;
      FramedStep(chunks, k, nick, addressed);
      ghost var before := Framed(chunks[..k], nick, addressed);
      assert Framed(chunks[..k + 1], nick, addressed) == before + [msg];
      sent := sent + [msg];
      assert |sent| == k + 1;
      i := i + MaxChunk;
    }
    assert |sent| == |chunks| by {
      if |sent| < |chunks| { ChunkAt(clean, |sent|); }
    }
    assert chunks[..|sent|] == chunks;
  }

  /** Framing one more chunk appends its message. */
  lemma FramedStep(chunks: seq<string>, k: nat, nick: string, addressed: bool)
    requires k < |chunks|
    ensures Framed(chunks[..k + 1], nick, addressed)
      == Framed(chunks[..k], nick, addressed) + [if addressed then nick + ": " + chunks[k] else chunks[k]]
  {
    assert chunks[..k + 1] == chunks[..k] + [chunks[k]];
    FramedSnoc(chunks[..k], chunks[k], nick, addressed);
  }

  lemma FramedSnoc(chunks: seq<string>, last: string, nick: string, addressed: bool)
    ensures Framed(chunks + [last], nick, addressed)
      == Framed(chunks, nick, addressed) + Framed([last], nick, addressed)
  {
  }

  /** What goes on the wire, joined, is the cleaned reply, each message carrying the address when one is due. */
  lemma OutgoingCarriesReply(response: string, nick: string, isPm: bool)
    ensures var clean := CleanForIrc(response);
      && |Outgoing(response, nick, isPm)| == (|clean| + MaxChunk - 1) / MaxChunk
      && Concat(Chunks(clean)) == clean
      && (response == [] ==> Outgoing(response, nick, isPm) == [])
      && (isPm ==> Outgoing(response, nick, isPm) == Chunks(clean))
  {
    var clean := CleanForIrc(response);
    ChunksCount(clean);
    ChunksConcat(clean);
    if isPm {
      assert Outgoing(response, nick, isPm) == Chunks(clean);
    }
  }

  /** Every chunk of a cleaned reply is a single IRC line. */
  lemma OutgoingChunksAreLines(response: string)
    ensures forall k :: 0 <= k < |Chunks(CleanForIrc(response))| ==>
      '\n' !in Chunks(CleanForIrc(response))[k] && '\r' !in Chunks(CleanForIrc(response))[k]
  {
    var clean := CleanForIrc(response);
    var chunks := Chunks(clean);
    ChunksShape(clean);
    forall k | 0 <= k < |chunks|
      ensures '\n' !in chunks[k] && '\r' !in chunks[k]
    {
      assert chunks[k] == clean[MaxChunk * k..Min(MaxChunk * k + MaxChunk, |clean|)];
    }
  }
}
