/** Containers that keep only their newest elements, as `deque(maxlen=cap)` and `lst[-cap:]` do. */
module Fifo {

  /**
   * Appends `x` and keeps the newest `cap` elements: the oldest element is
   * dropped exactly when the container was already full, and the relative
   * order of everything kept is unchanged.
   */
  function Append<T>(s: seq<T>, x: T, cap: nat): (r: seq<T>)
    requires cap > 0
    ensures |r| == if |s| < cap then |s| + 1 else cap
    ensures r[|r| - 1] == x
    ensures forall i :: 0 <= i < |r| - 1 ==> r[i] == s[|s| - (|r| - 1) + i]
    ensures |s| < cap ==> r == s + [x]
    ensures |s| == cap ==> r == s[1..] + [x]
  {
    var full := s + [x];
    if |full| <= cap then full else full[|full| - cap..]
  }
}

/**
 * Topic labels: `normalize_topic_label` and the post-processing that
 * `openai_api_request_topic` applies to the classifier's reply.
 */
module Labels {
  import opened Text
  import opened Wrappers

  /** The label used when the classifier fails or answers with nothing usable. */
  const FallbackLabel: string := "general"

  /** The characters of the class `[\s_\-]`. */
  predicate IsSeparator(c: char) { IsSpace(c) || c == '_' || c == '-' }

  predicate IsAlnum(c: char) { ('a' <= c <= 'z') || ('0' <= c <= '9') }

  /** The characters of the class `[a-z0-9\-]`. */
  predicate IsLabelChar(c: char) { IsAlnum(c) || c == '-' }

  predicate HasAlnum(s: string) { exists i :: 0 <= i < |s| && IsAlnum(s[i]) }

  predicate AllLabelChars(s: string) { forall i :: 0 <= i < |s| ==> IsLabelChar(s[i]) }

  /** Positions `i` and `i + 1` both hold a hyphen. */
  predicate DoubleHyphenAt(s: string, i: int)
    requires 0 <= i < |s| - 1
  {
    s[i] == '-' && s[i + 1] == '-'
  }

  predicate NoDoubleHyphen(s: string) {
    forall i :: 0 <= i < |s| - 1 ==> !DoubleHyphenAt(s, i)
  }

  /** A label of the form `[a-z0-9]+(-[a-z0-9]+)*`. */
  predicate IsCanonical(s: string) {
    && |s| > 0
    && AllLabelChars(s)
    && s[0] != '-' && s[|s| - 1] != '-'
    && NoDoubleHyphen(s)
  }

  /**
   * `re.sub(r'[\s_\-]+', '-', s)`: every maximal run of separators becomes one
   * hyphen. `inRun` says that the character before `s` was a separator.
   */
  function CollapseSeparators(s: string, inRun: bool): string {
    if s == [] then []
    else if IsSeparator(s[0]) then
      if inRun then CollapseSeparators(s[1..], true) else "-" + CollapseSeparators(s[1..], true)
    else [s[0]] + CollapseSeparators(s[1..], false)
  }

  /** `re.sub(r'[^a-z0-9\-]', '', s)`. */
  function KeepLabelChars(s: string): string {
    if s == [] then []
    else if IsLabelChar(s[0]) then [s[0]] + KeepLabelChars(s[1..])
    else KeepLabelChars(s[1..])
  }

  /** No separator other than the hyphen occurs in `s`. */
  predicate OnlyHyphenSeparators(s: string) {
    forall i :: 0 <= i < |s| ==> s[i] == '-' || !IsSeparator(s[i])
  }

  /** The only separator left by collapsing is the hyphen. */
  lemma {:induction false} CollapseLeavesHyphens(s: string, inRun: bool)
    ensures OnlyHyphenSeparators(CollapseSeparators(s, inRun))
  {
    if s != [] {
      var inRun' := IsSeparator(s[0]);
      CollapseLeavesHyphens(s[1..], inRun');
      var r, rest := CollapseSeparators(s, inRun), CollapseSeparators(s[1..], inRun');
      if !(inRun && inRun') {
        var c := if inRun' then '-' else s[0];
        assert r == [c] + rest;
        assert forall i :: 1 <= i < |r| ==> r[i] == rest[i - 1];
      }
    }
  }

  /** Only label characters survive the filter. */
  lemma {:induction false} KeepShape(s: string)
    ensures AllLabelChars(KeepLabelChars(s))
  {
    if s != [] {
      KeepShape(s[1..]);
    }
  }

  /** `s.strip('-')`. */
  function TrimHyphens(s: string): (r: string)
    ensures r == [] || (r[0] != '-' && r[|r| - 1] != '-')
  {
    StripBy(s, Hyphens)
  }

  /** Trimming keeps only characters of its input. */
  lemma TrimKeepsLabelChars(s: string)
    ensures AllLabelChars(s) ==> AllLabelChars(TrimHyphens(s))
  {
    var lo := StripSlice(s, Hyphens);
    var r := TrimHyphens(s);
    assert forall i :: 0 <= i < |r| ==> r[i] == s[lo + i];
  }

  /** Trimming cannot create two adjacent hyphens. */
  lemma TrimKeepsNoDoubleHyphen(s: string)
    ensures NoDoubleHyphen(s) ==> NoDoubleHyphen(TrimHyphens(s))
  {
    var lo := StripSlice(s, Hyphens);
    NoDoubleHyphenSlice(s, lo, lo + |TrimHyphens(s)|);
  }

  /** A slice of a string without two adjacent hyphens has none either. */
  lemma NoDoubleHyphenSlice(s: string, lo: nat, hi: nat)
    requires lo <= hi <= |s|
    ensures NoDoubleHyphen(s) ==> NoDoubleHyphen(s[lo..hi])
  {
    if NoDoubleHyphen(s) {
      forall i | 0 <= i < hi - lo - 1
        ensures !DoubleHyphenAt(s[lo..hi], i)
      {
        assert !DoubleHyphenAt(s, lo + i);
      }
    }
  }

  /** A string with no hyphen at either end is its own `strip('-')`. */
  lemma TrimUnchanged(s: string)
    requires s == [] || (s[0] != '-' && s[|s| - 1] != '-')
    ensures TrimHyphens(s) == s
  {
    StripByUnchanged(s, Hyphens);
  }

  /**
   * `normalize_topic_label`: lower-case, strip, collapse separator runs into a
   * hyphen, drop everything outside `[a-z0-9-]`, trim hyphens.
   */
  function Normalize(raw: string): string {
    TrimHyphens(KeepLabelChars(CollapseSeparators(Strip(Lower(raw)), false)))
  }

  /** A normalised label uses only label characters and neither starts nor ends with a hyphen. */
  lemma NormalizeShape(raw: string)
    ensures AllLabelChars(Normalize(raw))
    ensures Normalize(raw) == [] || (Normalize(raw)[0] != '-' && Normalize(raw)[|Normalize(raw)| - 1] != '-')
  {
    var collapsed := CollapseSeparators(Strip(Lower(raw)), false);
    KeepShape(collapsed);
    TrimKeepsLabelChars(KeepLabelChars(collapsed));
  }

  // ---------------------------------------------------------------------------
  // Canonical labels are fixed points

  lemma {:induction false} CollapseUnchanged(s: string, inRun: bool)
    requires AllLabelChars(s) && NoDoubleHyphen(s)
    requires inRun ==> s == [] || s[0] != '-'
    ensures CollapseSeparators(s, inRun) == s
  {
    if s != [] {
      assert AllLabelChars(s[1..]);
      NoDoubleHyphenSlice(s, 1, |s|);
      assert s[1..|s|] == s[1..];
      assert |s| > 1 ==> !DoubleHyphenAt(s, 0);
      CollapseUnchanged(s[1..], s[0] == '-');
      assert [s[0]] + s[1..] == s;
    }
  }

  lemma {:induction false} KeepUnchanged(s: string)
    requires AllLabelChars(s)
    ensures KeepLabelChars(s) == s
  {
    if s != [] {
      KeepUnchanged(s[1..]);
      assert [s[0]] + s[1..] == s;
    }
  }

  /** A label already of the form `[a-z0-9]+(-[a-z0-9]+)*` is returned unchanged. */
  lemma NormalizeCanonical(s: string)
    requires IsCanonical(s)
    ensures Normalize(s) == s
  {
    LabelCharsLowerStrip(s);
    CollapseUnchanged(s, false);
    KeepUnchanged(s);
    TrimUnchanged(s);
    NormalizeStages(s, s, s, s, s);
  }

  // ---------------------------------------------------------------------------
  // Normalisation is not idempotent, but a second application reaches a fixed point

  /** `"a-!-b"` normalises to `"a--b"`, which normalises to `"a-b"`. */
  lemma NormalizeNotIdempotent()
    ensures Normalize("a-!-b") == "a--b"
    ensures Normalize("a--b") == "a-b"
    ensures Normalize(Normalize("a-!-b")) != Normalize("a-!-b")
  {
    NormalizeExample("a-!-b", "a--b", "a-b");
  }

  lemma NormalizeExample(s: string, t: string, u: string)
    requires s == "a-!-b" && t == "a--b" && u == "a-b"
    ensures Normalize(s) == t && Normalize(t) == u
  {
    NormalizeFirstStep(s, t, u);
    NormalizeSecondStep(s, t, u);
  }

  lemma NormalizeFirstStep(s: string, t: string, u: string)
    requires s == "a-!-b" && t == "a--b" && u == "a-b"
    ensures Normalize(s) == t
  {
    LowerStripExample(s);
    CollapseExample(s);
    KeepExample(s, t);
    TrimUnchanged(t);
    NormalizeStages(s, s, s, t, t);
  }

  lemma NormalizeSecondStep(s: string, t: string, u: string)
    requires s == "a-!-b" && t == "a--b" && u == "a-b"
    ensures Normalize(t) == u
  {
    LabelCharsLowerStrip(t);
    CollapseRunExample(t, u);
    KeepTrimExample(u);
    NormalizeStages(t, t, u, u, u);
  }

  /** Neither filtering nor trimming changes `"a-b"`. */
  lemma KeepTrimExample(u: string)
    requires u == "a-b"
    ensures KeepLabelChars(u) == u && TrimHyphens(u) == u
  {
    KeepUnchanged(u);
    TrimUnchanged(u);
  }

  /** Lower-casing and stripping leave `"a-!-b"` as it is. */
  lemma LowerStripExample(s: string)
    requires s == "a-!-b"
    ensures Strip(Lower(s)) == s
  {
    LowerUnchanged(s);
    StripUnchanged(s);
  }

  /** Lower-casing and stripping leave a string of label characters as it is. */
  lemma LabelCharsLowerStrip(s: string)
    requires AllLabelChars(s)
    ensures Strip(Lower(s)) == s
  {
    LowerUnchanged(s);
    StripUnchanged(s);
  }

  /** The five stages of the normaliser, one after another. */
  lemma NormalizeStages(raw: string, stripped: string, collapsed: string, kept: string, r: string)
    requires Strip(Lower(raw)) == stripped
    requires CollapseSeparators(stripped, false) == collapsed && KeepLabelChars(collapsed) == kept
    requires TrimHyphens(kept) == r
    ensures Normalize(raw) == r
  {
  }

  /** Collapsing: `"a-!-b"` has no run longer than one character. */
  lemma CollapseExample(s: string)
    requires s == "a-!-b"
    ensures CollapseSeparators(s, false) == s
  {
    assert s[1..][1..] == s[2..] && s[2..][1..] == s[3..] && s[3..][1..] == s[4..] && s[4..][1..] == [];
    assert CollapseSeparators(s[4..], true) == s[4..];
    assert CollapseSeparators(s[3..], false) == s[3..];
    assert CollapseSeparators(s[2..], true) == s[2..];
    assert CollapseSeparators(s[1..], false) == s[1..];
  }

  /** Collapsing: `"a--b"` has a run of two hyphens, which becomes one. */
  lemma CollapseRunExample(t: string, u: string)
    requires t == "a--b" && u == "a-b"
    ensures CollapseSeparators(t, false) == u
  {
    assert t[1..][1..] == t[2..] && t[2..][1..] == t[3..] && t[3..][1..] == [];
    assert CollapseSeparators(t[3..], true) == t[3..];
    assert CollapseSeparators(t[2..], true) == t[3..];
    assert CollapseSeparators(t[1..], false) == "-" + t[3..];
  }

  /** Filtering drops the `!` and brings two hyphens together. */
  lemma KeepExample(s: string, t: string)
    requires s == "a-!-b" && t == "a--b"
    ensures KeepLabelChars(s) == t
  {
    assert s[1..][1..] == s[2..] && s[2..][1..] == s[3..];
    KeepUnchanged(s[3..]);
    assert KeepLabelChars(s[2..]) == s[3..];
    assert KeepLabelChars(s[1..]) == "-" + s[3..];
  }

  /** Collapsing never emits two hyphens in a row, and after a separator never emits a hyphen first. */
  lemma {:induction false} CollapseNoDoubleHyphen(s: string, inRun: bool)
    ensures NoDoubleHyphen(CollapseSeparators(s, inRun))
    ensures inRun ==> CollapseSeparators(s, inRun) == [] || CollapseSeparators(s, inRun)[0] != '-'
  {
    if s != [] {
      CollapseNoDoubleHyphen(s[1..], true);
      CollapseNoDoubleHyphen(s[1..], false);
      if IsSeparator(s[0]) {
        if !inRun {
          NoDoubleHyphenCons('-', CollapseSeparators(s[1..], true));
        }
      } else {
        NoDoubleHyphenCons(s[0], CollapseSeparators(s[1..], false));
      }
    }
  }

  lemma NoDoubleHyphenCons(c: char, r: string)
    requires NoDoubleHyphen(r) && (r == [] || c != '-' || r[0] != '-')
    ensures NoDoubleHyphen([c] + r)
  {
    var s := [c] + r;
    forall i | 0 <= i < |s| - 1
      ensures !DoubleHyphenAt(s, i)
    {
      if i > 0 {
        assert !DoubleHyphenAt(r, i - 1);
      }
    }
  }

  lemma {:induction false} CollapseKeepsLabelChars(s: string, inRun: bool)
    requires AllLabelChars(s)
    ensures AllLabelChars(CollapseSeparators(s, inRun))
  {
    if s != [] {
      assert AllLabelChars(s[1..]);
      CollapseKeepsLabelChars(s[1..], true);
      CollapseKeepsLabelChars(s[1..], false);
    }
  }

  /** Normalising a string made of label characters yields a canonical label, or nothing. */
  lemma NormalizeLabelChars(s: string)
    requires AllLabelChars(s)
    ensures Normalize(s) == [] || IsCanonical(Normalize(s))
  {
    LowerUnchanged(s);
    StripUnchanged(s);
    CollapseNoDoubleHyphen(s, false);
    CollapseKeepsLabelChars(s, false);
    KeepUnchanged(CollapseSeparators(s, false));
    TrimKeepsNoDoubleHyphen(CollapseSeparators(s, false));
    NormalizeShape(s);
  }

  /** Normalising twice reaches a fixed point: a third application changes nothing. */
  lemma NormalizeTwiceIsFixed(s: string)
    ensures Normalize(Normalize(s)) == [] || IsCanonical(Normalize(Normalize(s)))
    ensures Normalize(Normalize(Normalize(s))) == Normalize(Normalize(s))
  {
    var n := Normalize(s);
    NormalizeShape(s);
    NormalizeLabelChars(n);
    NormalizeFixed(Normalize(n));
  }

  /** A canonical label, and the empty label, are fixed points of the normaliser. */
  lemma NormalizeFixed(t: string)
    requires t == [] || IsCanonical(t)
    ensures Normalize(t) == t
  {
    if t != [] {
      NormalizeCanonical(t);
    } else {
      LowerUnchanged(t);
      assert Normalize(t) == [];
    }
  }

  // ---------------------------------------------------------------------------
  // When the result is empty

  lemma StripKeepsAlnum(s: string)
    ensures HasAlnum(Strip(s)) <==> HasAlnum(s)
  {
    var r := Strip(s);
    var k := StripSlice(s, Whitespace);
    if HasAlnum(s) {
      var i :| 0 <= i < |s| && IsAlnum(s[i]);
      assert !IsSpace(s[i]);
      assert k <= i < k + |r|;
      assert r[i - k] == s[i];
    }
    if HasAlnum(r) {
      var j :| 0 <= j < |r| && IsAlnum(r[j]);
      assert r[j] == s[k + j];
    }
  }

  lemma {:induction false} CollapseKeepsAlnum(s: string, inRun: bool)
    ensures HasAlnum(CollapseSeparators(s, inRun)) <==> HasAlnum(s)
  {
    if s != [] {
      var r := CollapseSeparators(s, inRun);
      CollapseKeepsAlnum(s[1..], IsSeparator(s[0]));
      HasAlnumCons(s);
      if IsSeparator(s[0]) {
        if !inRun {
          HasAlnumCons(r);
          assert r[1..] == CollapseSeparators(s[1..], true);
        }
      } else {
        HasAlnumCons(r);
        assert r[1..] == CollapseSeparators(s[1..], false);
      }
    }
  }

  lemma {:induction false} KeepKeepsAlnum(s: string)
    ensures HasAlnum(KeepLabelChars(s)) <==> HasAlnum(s)
  {
    if s != [] {
      KeepKeepsAlnum(s[1..]);
      HasAlnumCons(s);
      var r := KeepLabelChars(s);
      if IsLabelChar(s[0]) {
        HasAlnumCons(r);
        assert r[1..] == KeepLabelChars(s[1..]);
      }
    }
  }

  lemma HasAlnumCons(s: string)
    requires s != []
    ensures HasAlnum(s) <==> IsAlnum(s[0]) || HasAlnum(s[1..])
  {
    if HasAlnum(s) && !IsAlnum(s[0]) {
      var i :| 0 <= i < |s| && IsAlnum(s[i]);
      assert s[1..][i - 1] == s[i];
    }
    if HasAlnum(s[1..]) {
      var i :| 0 <= i < |s[1..]| && IsAlnum(s[1..][i]);
      assert s[i + 1] == s[1..][i];
    }
  }

  lemma TrimEmptyIff(s: string)
    requires AllLabelChars(s)
    ensures TrimHyphens(s) == [] <==> !HasAlnum(s)
  {
    var lo := StripSlice(s, Hyphens);
    var r := TrimHyphens(s);
    if r == [] {
      assert forall i :: 0 <= i < |s| ==> s[i] == '-';
    } else {
      assert r[0] == s[lo];
    }
  }

  /** The normaliser yields the empty label exactly when the lower-cased input has no letter or digit. */
  lemma NormalizeEmptyIff(raw: string)
    ensures Normalize(raw) == [] <==> !HasAlnum(Lower(raw))
  {
    var l := Lower(raw);
    StripKeepsAlnum(l);
    CollapseKeepsAlnum(Strip(l), false);
    KeepKeepsAlnum(CollapseSeparators(Strip(l), false));
    KeepShape(CollapseSeparators(Strip(l), false));
    TrimEmptyIff(KeepLabelChars(CollapseSeparators(Strip(l), false)));
  }

  // ---------------------------------------------------------------------------
  // The classifier adapter

  /**
   * What `openai_api_request_topic` returns once the external call is over:
   * `reply` is the model's text, or None when the call raised. The label is
   * never empty and never starts or ends with a hyphen; it is the fallback
   * label exactly when the call raised, or when the normalised reply is empty
   * or is itself the fallback label.
   */
  function ClassifiedTopic(reply: Option<string>): (topic: string)
    ensures topic != []
    ensures topic == FallbackLabel <==> reply.None? || Normalize(Strip(reply.value)) in {[], FallbackLabel}
    ensures reply.Some? && Normalize(Strip(reply.value)) != [] ==> topic == Normalize(Strip(reply.value))
  {
    match reply
    case None => FallbackLabel
    case Some(text) =>
      var topic := Normalize(Strip(text));
      if topic != [] then topic else FallbackLabel
  }

  /** The adapter's label uses only label characters and neither starts nor ends with a hyphen. */
  lemma ClassifiedTopicShape(reply: Option<string>)
    ensures var topic := ClassifiedTopic(reply);
      AllLabelChars(topic) && topic[0] != '-' && topic[|topic| - 1] != '-'
  {
    if reply.Some? {
      NormalizeShape(Strip(reply.value));
    }
  }

  /** The adapter falls back to `"general"` exactly when the reply holds no letter or digit (or the call raised). */
  lemma ClassifierFallback(reply: Option<string>)
    ensures ClassifiedTopic(reply) == Normalize(Strip(reply.value)) <== reply.Some? && HasAlnum(Lower(Strip(reply.value)))
    ensures ClassifiedTopic(reply) == FallbackLabel <== reply.None? || !HasAlnum(Lower(Strip(reply.value)))
  {
    if reply.Some? {
      NormalizeEmptyIff(Strip(reply.value));
    }
  }
}
