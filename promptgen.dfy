/**
 * The offline directive generator: the filter that turns a WeeChat channel log
 * into `nick: message` lines for the last day, the choice of analysis model by
 * input size, and the repair of a generated directive that lacks the opening
 * phrase the bot's persona requires.
 */
module PromptGenerator {
  import opened Wrappers
  import opened Text

  // ---------------------------------------------------------------------------
  // Timestamps
  // ---------------------------------------------------------------------------

  /** A naive local `datetime`. Parsed log lines carry no microseconds; the cutoff may. */
  datatype Stamp = Stamp(year: nat, month: nat, day: nat, hour: nat, minute: nat, second: nat, micro: nat)

  /** The fields in order of significance, as `datetime` compares them. */
  function Fields(st: Stamp): seq<nat> {
    [st.year, st.month, st.day, st.hour, st.minute, st.second, st.micro]
  }

  /** Lexicographic `<` on equally long sequences of numbers. */
  predicate LexLess(a: seq<nat>, b: seq<nat>)
    requires |a| == |b|
  {
    a != [] && (a[0] < b[0] || (a[0] == b[0] && LexLess(a[1..], b[1..])))
  }

  /** `a < b` on naive datetimes. */
  predicate Earlier(a: Stamp, b: Stamp) {
    LexLess(Fields(a), Fields(b))
  }

  predicate IsLeap(y: int) {
    y % 4 == 0 && (y % 100 != 0 || y % 400 == 0)
  }

  function DaysInMonth(y: int, m: int): nat
    requires 1 <= m <= 12
  {
    if m == 2 then (if IsLeap(y) then 29 else 28)
    else if m == 4 || m == 6 || m == 9 || m == 11 then 30
    else 31
  }

  /**
   * What `datetime.strptime(…, "%Y-%m-%d %H:%M:%S")` accepts once the digits are
   * in place: a Gregorian date in years 1 to 9999 and a time of day without
   * leap seconds (the `datetime` constructor refuses seconds 60 and 61).
   */
  predicate ValidStamp(st: Stamp) {
    && 1 <= st.year <= 9999
    && 1 <= st.month <= 12
    && 1 <= st.day <= DaysInMonth(st.year, st.month)
    && st.hour < 24 && st.minute < 60 && st.second < 60
    && st.micro == 0
  }

  // ---------------------------------------------------------------------------
  // Fixed-width decimal fields
  // ---------------------------------------------------------------------------

  /** `\d`, read as the ASCII digits. */
  predicate IsDigit(c: char) { '0' <= c <= '9' }

  /** The value of a digit character (only ever applied to digits). */
  function DigitValue(c: char): nat {
    if IsDigit(c) then c as int - '0' as int else 0
  }

  function DigitChar(d: nat): char
    requires d < 10
  {
    ('0' as int + d) as char
  }

  /** `int(s[lo:hi])` for a run of digits. */
  function Number(s: string, lo: nat, hi: nat): nat
    requires lo <= hi <= |s|
    decreases hi - lo
  {
    if hi == lo then 0 else 10 * Number(s, lo, hi - 1) + DigitValue(s[hi - 1])
  }

  /** What position `k` of `YYYY-MM-DD HH:MM:SS` holds: a separator or a digit. */
  predicate PosOk(s: string, k: nat)
    requires k < |s|
  {
    if k == 4 || k == 7 then s[k] == '-'
    else if k == 10 then s[k] == ' '
    else if k == 13 || k == 16 then s[k] == ':'
    else IsDigit(s[k])
  }

  /** `\d{4}-\d{2}-\d{2} \d{2}:\d{2}:\d{2}` at the start of `s`. */
  predicate StampShape(s: string) {
    |s| >= 19 && forall k :: 0 <= k < 19 ==> PosOk(s, k)
  }

  /** The fields `strptime` reads from a timestamp. */
  function StampOf(s: string): Stamp
    requires |s| >= 19
  {
    Stamp(Number(s, 0, 4), Number(s, 5, 7), Number(s, 8, 10),
          Number(s, 11, 13), Number(s, 14, 16), Number(s, 17, 19), 0)
  }

  /** The tens digit of `n`'s last two. */
  function Tens(n: nat): char { DigitChar(n / 10 % 10) }

  /** The units digit of `n`. */
  function Units(n: nat): char { DigitChar(n % 10) }

  /** `YYYY-MM-DD HH:MM:SS`, each field zero-padded to its width. */
  function StampText(st: Stamp): (r: string)
    ensures |r| == 19
  {
    [Tens(st.year / 100), Units(st.year / 100), Tens(st.year % 100), Units(st.year % 100), '-',
     Tens(st.month), Units(st.month), '-',
     Tens(st.day), Units(st.day), ' ',
     Tens(st.hour), Units(st.hour), ':',
     Tens(st.minute), Units(st.minute), ':',
     Tens(st.second), Units(st.second)]
  }

  lemma Number2(s: string, k: nat)
    requires k + 2 <= |s|
    ensures Number(s, k, k + 2) == 10 * DigitValue(s[k]) + DigitValue(s[k + 1])
  {
    assert Number(s, k, k + 1) == DigitValue(s[k]);
  }

  lemma Number4(s: string, k: nat)
    requires k + 4 <= |s|
    ensures Number(s, k, k + 4) == 100 * Number(s, k, k + 2) + Number(s, k + 2, k + 4)
  {
    Number2(s, k);
    Number2(s, k + 2);
    assert Number(s, k, k + 3) == 10 * Number(s, k, k + 2) + DigitValue(s[k + 2]);
  }

  /** Two padded digits read back as the number, below one hundred. */
  lemma PairValue(n: nat)
    requires n < 100
    ensures IsDigit(Tens(n)) && IsDigit(Units(n))
    ensures 10 * DigitValue(Tens(n)) + DigitValue(Units(n)) == n
  {
  }

  /** Two digits written back from their value are the same two digits. */
  lemma PairChars(s: string, k: nat)
    requires k + 2 <= |s| && IsDigit(s[k]) && IsDigit(s[k + 1])
    ensures Tens(Number(s, k, k + 2)) == s[k] && Units(Number(s, k, k + 2)) == s[k + 1]
  {
    Number2(s, k);
    var a, b := DigitValue(s[k]), DigitValue(s[k + 1]);
    assert (10 * a + b) / 10 == a && (10 * a + b) % 10 == b;
  }

  lemma CenturySplit(hi: nat, lo: nat)
    requires lo < 100
    ensures (100 * hi + lo) / 100 == hi && (100 * hi + lo) % 100 == lo
  {
  }

  /** A written timestamp has the timestamp's shape. */
  lemma StampTextShape(st: Stamp)
    ensures StampShape(StampText(st))
  {
    var t := StampText(st);
    forall k | 0 <= k < 19
      ensures PosOk(t, k)
    {
    }
  }

  /** A two-digit field holding the padded digits of `n` reads back as `n`. */
  lemma FieldRead(t: string, k: nat, n: nat)
    requires k + 2 <= |t| && n < 100 && t[k] == Tens(n) && t[k + 1] == Units(n)
    ensures Number(t, k, k + 2) == n
  {
    Number2(t, k);
    PairValue(n);
  }

  /** A timestamp reads back as the moment it was written for. */
  lemma StampRoundTrip(st: Stamp)
    requires ValidStamp(st)
    ensures StampShape(StampText(st)) && StampOf(StampText(st)) == st
  {
    var t := StampText(st);
    StampTextShape(st);
    var y := st.year;
    FieldRead(t, 0, y / 100);
    FieldRead(t, 2, y % 100);
    Number4(t, 0);
    assert Number(t, 0, 4) == y;
    FieldRead(t, 5, st.month);
    FieldRead(t, 8, st.day);
    FieldRead(t, 11, st.hour);
    FieldRead(t, 14, st.minute);
    FieldRead(t, 17, st.second);
  }

  /** The four year digits written back from the year they spell. */
  lemma YearChars(s: string)
    requires |s| >= 4 && IsDigit(s[0]) && IsDigit(s[1]) && IsDigit(s[2]) && IsDigit(s[3])
    ensures Tens(Number(s, 0, 4) / 100) == s[0] && Units(Number(s, 0, 4) / 100) == s[1]
    ensures Tens(Number(s, 0, 4) % 100) == s[2] && Units(Number(s, 0, 4) % 100) == s[3]
  {
    var hi, lo := Number(s, 0, 2), Number(s, 2, 4);
    Number4(s, 0);
    Number2(s, 2);
    assert lo < 100;
    CenturySplit(hi, lo);
    assert Number(s, 0, 4) / 100 == hi && Number(s, 0, 4) % 100 == lo;
    PairChars(s, 0);
    PairChars(s, 2);
  }

  /** Writing back the fields read from a timestamp gives the timestamp. */
  lemma StampTextOf(s: string)
    requires StampShape(s)
    ensures StampText(StampOf(s)) == s[..19]
  {
    var st := StampOf(s);
    assert PosOk(s, 0) && PosOk(s, 1) && PosOk(s, 2) && PosOk(s, 3) && PosOk(s, 4);
    assert PosOk(s, 5) && PosOk(s, 6) && PosOk(s, 7) && PosOk(s, 8) && PosOk(s, 9);
    assert PosOk(s, 10) && PosOk(s, 11) && PosOk(s, 12) && PosOk(s, 13) && PosOk(s, 14);
    assert PosOk(s, 15) && PosOk(s, 16) && PosOk(s, 17) && PosOk(s, 18);
    YearChars(s);
    PairChars(s, 5);
    PairChars(s, 8);
    PairChars(s, 11);
    PairChars(s, 14);
    PairChars(s, 17);
    var t := StampText(st);
    assert t[0] == s[0] && t[1] == s[1] && t[2] == s[2] && t[3] == s[3];
    assert t[5] == s[5] && t[6] == s[6] && t[8] == s[8] && t[9] == s[9];
    assert t[11] == s[11] && t[12] == s[12] && t[14] == s[14] && t[15] == s[15];
    assert t[17] == s[17] && t[18] == s[18];
    assert forall k :: 0 <= k < 19 ==> t[k] == s[..19][k];
  }

  // ---------------------------------------------------------------------------
  // Line pattern
  // ---------------------------------------------------------------------------

  /** The three groups of the log-line pattern, with the timestamp parsed. */
  datatype LogLine = LogLine(stamp: Stamp, sender: string, message: string)

  /** How WeeChat writes a line: timestamp, tab, sender, tab, message. */
  function FormatLine(l: LogLine): string {
    StampText(l.stamp) + "\t" + l.sender + "\t" + l.message
  }

  /** Index of the first tab in `s`, or `|s|` when there is none. */
  function TabIndex(s: string): (i: nat)
    ensures i <= |s|
    ensures i < |s| ==> s[i] == '\t'
    ensures forall k :: 0 <= k < i ==> s[k] != '\t'
  {
    if s == [] || s[0] == '\t' then 0 else 1 + TabIndex(s[1..])
  }

  /**
   * The line pattern matched against the stripped line, followed by `strptime`:
   * a timestamp, a tab, a sender of one or more characters other than a tab,
   * a tab, then a message of one or more characters other than a newline.
   * Since the sender holds no tab, it ends at the first tab after the
   * timestamp, so the match is unique. A line that does not match, or whose
   * timestamp names no real moment, gives `None`.
   */
  function ParseLine(raw: string): (r: Option<LogLine>)
    ensures r.Some? ==> ValidStamp(r.value.stamp)
    ensures r.Some? ==> r.value.sender != [] && '\t' !in r.value.sender
    ensures r.Some? ==> r.value.message != [] && '\n' !in r.value.message
  {
    var s := Strip(raw);
    if |s| < 20 || !StampShape(s) || s[19] != '\t' then None
    else
      var rest := s[20..];
      var j := TabIndex(rest);
      if j == 0 || j == |rest| then None
      else
        var message := rest[j + 1..];
        var stamp := StampOf(s);
        if message == [] || '\n' in message || !ValidStamp(stamp) then None
        else Some(LogLine(stamp, rest[..j], message))
  }

  /** A parsed line is exactly the stripped input written back. */
  lemma FormatParsed(raw: string)
    requires ParseLine(raw).Some?
    ensures FormatLine(ParseLine(raw).value) == Strip(raw)
  {
    var s := Strip(raw);
    var l := ParseLine(raw).value;
    var rest := s[20..];
    var j := TabIndex(rest);
    assert l.stamp == StampOf(s) && l.sender == rest[..j] && l.message == rest[j + 1..];
    StampTextOf(s);
    SplitAtTab(rest, j);
    SplitAtTab(s, 19);
    Associate(StampText(l.stamp), l.sender, l.message);
  }

  lemma SplitAtTab(r: string, j: nat)
    requires j < |r| && r[j] == '\t'
    ensures r == r[..j] + "\t" + r[j + 1..] && r == r[..j] + ("\t" + r[j + 1..])
  {
  }

  /** `FormatLine` with the concatenation grouped after the timestamp. */
  lemma Associate(ts: string, sender: string, message: string)
    ensures ts + "\t" + sender + "\t" + message == ts + ("\t" + (sender + "\t" + message))
  {
  }

  lemma {:induction false} NumberPrefix(t: string, u: string, lo: nat, hi: nat)
    requires lo <= hi <= |t|
    ensures Number(t + u, lo, hi) == Number(t, lo, hi)
    decreases hi - lo
  {
    if hi > lo {
      NumberPrefix(t, u, lo, hi - 1);
      assert (t + u)[hi - 1] == t[hi - 1];
    }
  }

  /** The timestamp test and fields look only at the first 19 characters. */
  lemma StampShapePrefix(t: string, u: string)
    requires StampShape(t)
    ensures StampShape(t + u) && StampOf(t + u) == StampOf(t)
  {
    forall k | 0 <= k < 19
      ensures PosOk(t + u, k)
    {
      assert PosOk(t, k) && (t + u)[k] == t[k];
    }
    NumberPrefix(t, u, 0, 4);
    NumberPrefix(t, u, 5, 7);
    NumberPrefix(t, u, 8, 10);
    NumberPrefix(t, u, 11, 13);
    NumberPrefix(t, u, 14, 16);
    NumberPrefix(t, u, 17, 19);
  }

  lemma {:induction false} TabIndexAfter(p: string, t: string)
    requires '\t' !in p
    ensures TabIndex(p + "\t" + t) == |p|
  {
    if p != [] {
      TabIndexAfter(p[1..], t);
      assert (p + "\t" + t)[1..] == p[1..] + "\t" + t;
    }
  }

  /**
   * Every line WeeChat can write for a real moment, a sender without tabs
   * and a message that does not end in whitespace parses back to its fields.
   */
  lemma ParseFormatted(l: LogLine)
    requires ValidStamp(l.stamp)
    requires l.sender != [] && '\t' !in l.sender
    requires l.message != [] && '\n' !in l.message && !IsSpace(l.message[|l.message| - 1])
    ensures ParseLine(FormatLine(l)) == Some(l)
  {
    var s := FormatLine(l);
    var body := l.sender + "\t" + l.message;
    FormattedFields(l);
    TabIndexAfter(l.sender, l.message);
    assert body[..|l.sender|] == l.sender && body[|l.sender| + 1..] == l.message;
  }

  /** What the parser finds in a formatted line: no surrounding whitespace, the timestamp, a tab, then sender, tab and message. */
  lemma FormattedFields(l: LogLine)
    requires ValidStamp(l.stamp)
    requires l.message != [] && !IsSpace(l.message[|l.message| - 1])
    ensures Strip(FormatLine(l)) == FormatLine(l) && |FormatLine(l)| >= 20
    ensures StampShape(FormatLine(l)) && StampOf(FormatLine(l)) == l.stamp
    ensures FormatLine(l)[19] == '\t' && FormatLine(l)[20..] == l.sender + "\t" + l.message
  {
    var ts := StampText(l.stamp);
    var body := l.sender + "\t" + l.message;
    var s := ts + ("\t" + body);
    Associate(ts, l.sender, l.message);
    StampRoundTrip(l.stamp);
    StampShapePrefix(ts, "\t" + body);
    assert s[|s| - 1] == l.message[|l.message| - 1];
    StripUnchanged(s);
    assert s[19] == '\t' && s[20..] == body;
  }

  // ---------------------------------------------------------------------------
  // Filtering
  // ---------------------------------------------------------------------------

  /** The sender fields WeeChat uses for joins, parts and other network notices. */
  const ServerSenders: seq<string> := ["-->", "<--", "---"]
  const ServerName: string := "irc.serverName.org"
  /** The nick the bot filter compares a lower-cased nick with. */
  const BotFilterNick: string := "cloudBot"

  predicate IsServerSender(sender: string) {
    sender in ServerSenders || Contains(sender, ServerName)
  }

  /** The message openings of WeeChat's join, quit, part, nick-change, mode and status lines. */
  const SystemPrefixes: seq<string> := ["has joined", "has quit", "has parted", "is now known as", "Mode ", "***"]

  /** `s` starts with one of `prefixes`. */
  predicate StartsWithAny(s: string, prefixes: seq<string>)
    decreases |prefixes|
  {
    prefixes != [] && (StartsWith(s, prefixes[0]) || StartsWithAny(s, prefixes[1..]))
  }

  predicate IsSystemMessage(message: string) {
    StartsWithAny(message, SystemPrefixes)
  }

  /** The status sigils and whitespace stripped from the front of a sender. */
  predicate IsNickPrefix(c: char) {
    c in "~&@%+" || IsSpace(c)
  }

  /** The sender with its leading run of status sigils and whitespace removed. */
  function DropNickPrefix(s: string): (r: string)
    ensures |r| <= |s| && r == s[|s| - |r|..]
    ensures forall i :: 0 <= i < |s| - |r| ==> IsNickPrefix(s[i])
    ensures r == [] || !IsNickPrefix(r[0])
  {
    if s != [] && IsNickPrefix(s[0]) then
      var r := DropNickPrefix(s[1..]);
      assert s[1..][|s| - 1 - |r|..] == s[|s| - |r|..];
      assert forall i :: 1 <= i < |s| - |r| ==> s[i] == s[1..][i - 1];
      r
    else s
  }

  /** What the scan does with one line. */
  datatype Verdict = Unmatched | BeforeCutoff | Filtered | Kept(entry: string)

  /**
   * The filters applied to a parsed line that is recent enough: network
   * notices and system messages are dropped, and the rest becomes
   * `nick: message` unless the nick or the message is empty.
   */
  function Filter(l: LogLine): Verdict {
    var sender := Strip(l.sender);
    var message := Strip(l.message);
    if IsServerSender(sender) || IsSystemMessage(message) then Filtered
    else
      var nick := DropNickPrefix(sender);
      if nick == [] || message == [] || Lower(nick) == BotFilterNick then Filtered
      else Kept(nick + ": " + message)
  }

  /** One line of the scan: unparsed lines are skipped, and a line older than the cutoff ends the scan. */
  function Classify(raw: string, cutoff: Stamp): Verdict {
    match ParseLine(raw)
    case None => Unmatched
    case Some(l) => if Earlier(l.stamp, cutoff) then BeforeCutoff else Filter(l)
  }

  /** The bot filter never fires: no lower-cased nick holds the capital `B` of `cloudBot`. */
  lemma BotFilterUnreachable(nick: string)
    ensures Lower(nick) != BotFilterNick
  {
    LowerNeverEquals(nick, BotFilterNick, 5);
  }

  /** The verdict on every line of the file, in file order. */
  function Verdicts(lines: seq<string>, cutoff: Stamp): (vs: seq<Verdict>)
    ensures |vs| == |lines|
  {
    seq(|lines|, k requires 0 <= k < |lines| => Classify(lines[k], cutoff))
  }

  /**
   * The entries kept from a run of verdicts, oldest first: the scan walks back
   * from the last line and stops at the first parsed line older than the cutoff.
   */
  function Scan(vs: seq<Verdict>): seq<string> {
    if vs == [] then []
    else
      match vs[|vs| - 1]
      case BeforeCutoff => []
      case Kept(e) => Scan(vs[..|vs| - 1]) + [e]
      case _ => Scan(vs[..|vs| - 1])
  }

  function Recent(lines: seq<string>, cutoff: Stamp): seq<string> {
    Scan(Verdicts(lines, cutoff))
  }

  /** The text handed to the analysis: the entries joined by newlines, or `None` when the file is unreadable or nothing is kept. */
  function PreparedLog(file: Option<seq<string>>, cutoff: Stamp): Option<string> {
    match file
    case None => None
    case Some(lines) =>
      var entries := Recent(lines, cutoff);
      if entries == [] then None else Some(Join("\n", entries))
  }

  lemma {:induction false} ScanStopsAt(vs: seq<Verdict>, i: nat)
    requires i < |vs| && vs[i].BeforeCutoff?
    ensures Scan(vs) == Scan(vs[i + 1..])
    decreases |vs|
  {
    var j := |vs| - 1;
    if i < j {
      ScanStopsAt(vs[..j], i);
      assert vs[..j][i + 1..] == vs[i + 1..][..j - i - 1];
      assert vs[i + 1..][j - i - 1] == vs[j];
    }
  }

  /** Nothing at or before a line older than the cutoff is included. */
  lemma CutoffStopsScan(lines: seq<string>, i: nat, cutoff: Stamp)
    requires i < |lines| && Classify(lines[i], cutoff).BeforeCutoff?
    ensures Recent(lines, cutoff) == Recent(lines[i + 1..], cutoff)
  {
    var vs := Verdicts(lines, cutoff);
    ScanStopsAt(vs, i);
    assert vs[i + 1..] == Verdicts(lines[i + 1..], cutoff);
  }

  lemma {:induction false} ScanConcat(a: seq<Verdict>, b: seq<Verdict>)
    requires forall k :: 0 <= k < |b| ==> !b[k].BeforeCutoff?
    ensures Scan(a + b) == Scan(a) + Scan(b)
    decreases |b|
  {
    if b == [] {
      assert a + b == a;
    } else {
      var b' := b[..|b| - 1];
      ScanConcat(a, b');
      assert (a + b)[..|a + b| - 1] == a + b';
      assert (a + b)[|a + b| - 1] == b[|b| - 1];
    }
  }

  lemma VerdictsConcat(a: seq<string>, b: seq<string>, cutoff: Stamp)
    ensures Verdicts(a + b, cutoff) == Verdicts(a, cutoff) + Verdicts(b, cutoff)
  {
    var v, va, vb := Verdicts(a + b, cutoff), Verdicts(a, cutoff), Verdicts(b, cutoff);
    forall k | 0 <= k < |v|
      ensures v[k] == (va + vb)[k]
    {
      if k < |a| {
        assert (a + b)[k] == a[k];
      } else {
        assert (a + b)[k] == b[k - |a|];
      }
    }
  }

  /** Without a line older than the cutoff in `b`, the entries of `a` come before those of `b`: file order is kept. */
  lemma RecentConcat(a: seq<string>, b: seq<string>, cutoff: Stamp)
    requires forall k :: 0 <= k < |b| ==> !Classify(b[k], cutoff).BeforeCutoff?
    ensures Recent(a + b, cutoff) == Recent(a, cutoff) + Recent(b, cutoff)
  {
    var vb := Verdicts(b, cutoff);
    assert forall k :: 0 <= k < |vb| ==> !vb[k].BeforeCutoff?;
    ScanConcat(Verdicts(a, cutoff), vb);
    VerdictsConcat(a, b, cutoff);
  }

  /** A line as `readlines` gives it holds a newline only as its last character. */
  predicate IsFileLine(line: string) {
    forall i :: 0 <= i < |line| - 1 ==> line[i] != '\n'
  }

  lemma StripNoNewline(s: string)
    requires IsFileLine(s)
    ensures '\n' !in Strip(s)
  {
    var r := Strip(s);
    var lo := StripSlice(s, Whitespace);
    forall i | 0 <= i < |r|
      ensures r[i] != '\n'
    {
      assert r[i] == s[lo + i];
      if lo + i == |s| - 1 {
        assert !IsSpace(r[|r| - 1]);
      }
    }
  }

  lemma ParsedSenderNoNewline(raw: string)
    requires IsFileLine(raw) && ParseLine(raw).Some?
    ensures '\n' !in ParseLine(raw).value.sender
  {
    var s := Strip(raw);
    StripNoNewline(raw);
    var sender := ParseLine(raw).value.sender;
    assert forall i :: 0 <= i < |sender| ==> sender[i] == s[20 + i];
  }

  lemma FilterNoNewline(l: LogLine)
    requires Filter(l).Kept? && '\n' !in l.sender && '\n' !in l.message
    ensures '\n' !in Filter(l).entry
  {
    StripNoNewline(l.sender);
    StripNoNewline(l.message);
    var sender := Strip(l.sender);
    var nick := DropNickPrefix(sender);
    assert '\n' !in nick by {
      forall i | 0 <= i < |nick| ensures nick[i] != '\n' {
        assert nick[i] == sender[|sender| - |nick| + i];
      }
    }
    EntryNoNewline(nick, Strip(l.message));
  }

  lemma EntryNoNewline(nick: string, message: string)
    requires '\n' !in nick && '\n' !in message
    ensures '\n' !in nick + ": " + message
  {
    CountAppend(nick, ": ", '\n');
    CountAppend(nick + ": ", message, '\n');
  }

  /** A kept entry is one line of text. */
  lemma KeptHasNoNewline(raw: string, cutoff: Stamp)
    requires IsFileLine(raw) && Classify(raw, cutoff).Kept?
    ensures '\n' !in Classify(raw, cutoff).entry
  {
    var l := ParseLine(raw).value;
    ParsedSenderNoNewline(raw);
    FilterNoNewline(l);
  }

  lemma {:induction false} ScanHasNoNewline(vs: seq<Verdict>)
    requires forall k :: 0 <= k < |vs| && vs[k].Kept? ==> '\n' !in vs[k].entry
    ensures forall k :: 0 <= k < |Scan(vs)| ==> '\n' !in Scan(vs)[k]
    decreases |vs|
  {
    if vs != [] {
      ScanHasNoNewline(vs[..|vs| - 1]);
    }
  }

  /** The prepared text has one line per kept entry, in order. */
  lemma PreparedLogLines(lines: seq<string>, cutoff: Stamp)
    requires forall k :: 0 <= k < |lines| ==> IsFileLine(lines[k])
    requires PreparedLog(Some(lines), cutoff).Some?
    ensures Split(PreparedLog(Some(lines), cutoff).value, '\n') == Recent(lines, cutoff)
  {
    var vs := Verdicts(lines, cutoff);
    forall k | 0 <= k < |vs| && vs[k].Kept?
      ensures '\n' !in vs[k].entry
    {
      KeptHasNoNewline(lines[k], cutoff);
    }
    ScanHasNoNewline(vs);
    SplitJoin(Recent(lines, cutoff), '\n');
  }

  function Reversed<T>(s: seq<T>): (r: seq<T>)
    ensures |r| == |s|
  {
    if s == [] then [] else [s[|s| - 1]] + Reversed(s[..|s| - 1])
  }

  lemma ReversedSnoc<T>(s: seq<T>, x: T)
    ensures Reversed(s + [x]) == [x] + Reversed(s)
  {
    assert (s + [x])[..|s|] == s;
  }

  lemma AppendAssoc<T>(a: seq<T>, b: seq<T>, c: seq<T>)
    ensures (a + b) + c == a + (b + c)
  {
  }

  lemma ScanStep(vs: seq<Verdict>, i: nat)
    requires i < |vs|
    ensures vs[i].BeforeCutoff? ==> Scan(vs[..i + 1]) == []
    ensures vs[i].Kept? ==> Scan(vs[..i + 1]) == Scan(vs[..i]) + [vs[i].entry]
    ensures vs[i].Unmatched? || vs[i].Filtered? ==> Scan(vs[..i + 1]) == Scan(vs[..i])
  {
    assert vs[..i + 1][..i] == vs[..i];
  }

  /**
   * `fetch_and_prepare_weechat_logs`: the file's lines (or `None` when it
   * cannot be read) scanned from the last one back, collecting entries newest
   * first and reversing them at the end.
   */
  method FetchAndPrepareLogs(file: Option<seq<string>>, cutoff: Stamp) returns (r: Option<string>)
    ensures r == PreparedLog(file, cutoff)
  {
    if file.None? {
      return None;
    }
    var lines := file.value;
    ghost var vs := Verdicts(lines, cutoff);
    var relevant: seq<string> := [];
    var i := |lines|;
    assert vs[..i] == vs;
    while i > 0
      invariant 0 <= i <= |lines|
      invariant Scan(vs) == Scan(vs[..i]) + Reversed(relevant)
    {
      i := i - 1;
      ScanStep(vs, i);
      var parsed := ParseLine(lines[i]);
      if parsed.None? {
        assert vs[i] == Unmatched;
        assert Scan(vs) == Scan(vs[..i]) + Reversed(relevant);
        continue;
      }
      var l := parsed.value;
      if Earlier(l.stamp, cutoff) {
        assert vs[i] == BeforeCutoff;
        assert Scan(vs) == Reversed(relevant);
        break;
      }
      assert vs[i] == Filter(l);
      var sender := Strip(l.sender);
      var message := Strip(l.message);
      if IsServerSender(sender) || IsSystemMessage(message) {
        assert vs[i] == Filtered;
        assert Scan(vs) == Scan(vs[..i]) + Reversed(relevant);
        continue;
      }
      var nick := DropNickPrefix(sender);
      if nick == [] || message == [] {
        assert vs[i] == Filtered;
        assert Scan(vs) == Scan(vs[..i]) + Reversed(relevant);
        continue;
      }
      if Lower(nick) == BotFilterNick {
        assert vs[i] == Filtered;
        assert Scan(vs) == Scan(vs[..i]) + Reversed(relevant);
        continue;
      }
      var entry := nick + ": " + message;
      assert vs[i] == Kept(entry);
      ReversedSnoc(relevant, entry);
      AppendAssoc(Scan(vs[..i]), [entry], Reversed(relevant));
      assert Scan(vs) == Scan(vs[..i]) + Reversed(relevant + [entry]);
      relevant := relevant + [entry];
    }
    assert Scan(vs) == Reversed(relevant) by {
      if i == 0 {
        assert vs[..0] == [];
      }
    }
    assert Recent(lines, cutoff) == Reversed(relevant);
    if relevant == [] {
      return None;
    }
    return Some(Join("\n", Reversed(relevant)));
  }

  // ---------------------------------------------------------------------------
  // Analysis model choice
  // ---------------------------------------------------------------------------

  const TokenThreshold: nat := 120000
  const PreferredAnalysisModel: string := "gpt-4.1-mini"
  const SmallerAnalysisModel: string := "gpt-4.1-nano"

  /**
   * `select_analysis_model`: about four characters per token, and the smaller
   * model once the estimate passes the threshold. Returns the model and the
   * estimate.
   */
  function SelectAnalysisModel(chars: nat): (r: (string, real))
    ensures r.1 * 4.0 == chars as real
    ensures r.0 == SmallerAnalysisModel <==> chars > 4 * TokenThreshold
    ensures r.0 == PreferredAnalysisModel <==> chars <= 4 * TokenThreshold
  {
    var approx := chars as real / 4.0;
    if approx > TokenThreshold as real then (SmallerAnalysisModel, approx) else (PreferredAnalysisModel, approx)
  }

  // ---------------------------------------------------------------------------
  // Directive repair
  // ---------------------------------------------------------------------------

  /** The opening every directive must have (the literal is written in two pieces). */
  const RequiredPhrase: string := "You are Wintermute, " + "an advanced AI in this IRC channel."
  /** The length a non-conforming directive must exceed to be repaired rather than discarded. */
  const RepairMinLength: nat := 30

  predicate EndsWith(s: string, suffix: string) {
    |suffix| <= |s| && s[|s| - |suffix|..] == suffix
  }

  /**
   * The end of `generate_personality_directive`, given the model's reply
   * (`None` when the call raised): the stripped directive when it opens with
   * the required phrase, the phrase and a space prepended when it is merely
   * long enough, and `None` otherwise.
   */
  function RepairDirective(reply: Option<string>): (r: Option<string>)
    ensures r.Some? ==> StartsWith(r.value, RequiredPhrase)
    ensures r.Some? ==> reply.Some? && EndsWith(r.value, Strip(reply.value))
    ensures r.None? <==> (reply.None? ||
      (!StartsWith(Strip(reply.value), RequiredPhrase) && |Strip(reply.value)| <= RepairMinLength))
    ensures reply.Some? && StartsWith(Strip(reply.value), RequiredPhrase) ==> r == Some(Strip(reply.value))
    ensures r.Some? && !StartsWith(Strip(reply.value), RequiredPhrase) ==> r.value == RequiredPhrase + " " + Strip(reply.value)
  {
    match reply
    case None => None
    case Some(text) =>
      var directive := Strip(text);
      if StartsWith(directive, RequiredPhrase) then Some(directive)
      else if |directive| > RepairMinLength then Some(RequiredPhrase + " " + directive)
      else None
  }

  /** A repaired directive passes the check unchanged: repairing is idempotent. */
  lemma RepairIdempotent(reply: Option<string>)
    requires RepairDirective(reply).Some?
    ensures RepairDirective(Some(RepairDirective(reply).value)) == RepairDirective(reply)
  {
    var d := RepairDirective(reply).value;
    var directive := Strip(reply.value);
    if !StartsWith(directive, RequiredPhrase) {
      assert d == RequiredPhrase + " " + directive;
      assert RequiredPhrase[0] == 'Y';
      assert d[0] == 'Y' && d[|d| - 1] == directive[|directive| - 1];
    }
    StripUnchanged(d);
  }
}
