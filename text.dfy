/** Small stock Option type used for values an external call may fail to produce. */
module Wrappers {
  datatype Option<T> = None | Some(value: T)
}

/**
 * The handful of Python `str` operations the router relies on, written out on
 * `seq<char>`: whitespace per `str.isspace`, `strip`, `lower`, `startswith`,
 * `in`, `count`, `split` and `join`.
 */
module Text {

  /** `str.isspace()` for one character (the Unicode whitespace Python recognises). */
  predicate IsSpace(c: char) {
    || ('\t' <= c <= '\r')
    || ('\U{1C}' <= c <= ' ')
    || c == '\U{85}' || c == '\U{A0}' || c == '\U{1680}'
    || ('\U{2000}' <= c <= '\U{200A}')
    || c == '\U{2028}' || c == '\U{2029}' || c == '\U{202F}' || c == '\U{205F}' || c == '\U{3000}'
  }

  predicate IsUpperAscii(c: char) { 'A' <= c <= 'Z' }

  /** The characters a `strip` call removes: `strip()` removes whitespace, `strip('-')` hyphens. */
  datatype Strippable = Whitespace | Hyphens

  predicate Removes(k: Strippable, c: char) {
    match k
    case Whitespace => IsSpace(c)
    case Hyphens => c == '-'
  }

  /** `lstrip`: removes the longest prefix of removable characters. */
  function LStrip(s: string, k: Strippable): (r: string)
    ensures |r| <= |s|
    ensures r == [] || !Removes(k, r[0])
  {
    if s != [] && Removes(k, s[0]) then LStrip(s[1..], k) else s
  }

  /** `rstrip`: removes the longest suffix of removable characters. */
  function RStrip(s: string, k: Strippable): (r: string)
    ensures |r| <= |s|
    ensures r == [] || (!Removes(k, r[|r| - 1]) && r[0] == s[0])
  {
    if s != [] && Removes(k, s[|s| - 1]) then RStrip(s[..|s| - 1], k) else s
  }

  /** `strip`: both ends. */
  function StripBy(s: string, k: Strippable): (r: string)
    ensures |r| <= |s|
    ensures r == [] || (!Removes(k, r[0]) && !Removes(k, r[|r| - 1]))
  {
    RStrip(LStrip(s, k), k)
  }

  /** `s.strip()`: no whitespace at either end. */
  function Strip(s: string): (r: string)
    ensures |r| <= |s|
    ensures r == [] || (!IsSpace(r[0]) && !IsSpace(r[|r| - 1]))
  {
    StripBy(s, Whitespace)
  }

  /** What `lstrip` removes is removable, and what it keeps is the rest of the string. */
  lemma {:induction false} LStripSuffix(s: string, k: Strippable)
    ensures LStrip(s, k) == s[|s| - |LStrip(s, k)|..]
    ensures forall i :: 0 <= i < |s| - |LStrip(s, k)| ==> Removes(k, s[i])
  {
    if s != [] && Removes(k, s[0]) {
      LStripSuffix(s[1..], k);
    }
  }

  /** What `rstrip` removes is removable, and what it keeps is the start of the string. */
  lemma {:induction false} RStripPrefix(s: string, k: Strippable)
    ensures RStrip(s, k) == s[..|RStrip(s, k)|]
    ensures forall i :: |RStrip(s, k)| <= i < |s| ==> Removes(k, s[i])
  {
    if s != [] && Removes(k, s[|s| - 1]) {
      RStripPrefix(s[..|s| - 1], k);
    }
  }

  /**
   * `strip` keeps the slice `s[lo..lo + |r|]` of its input and removes only
   * removable characters before and after it.
   */
  lemma StripSlice(s: string, k: Strippable) returns (lo: nat)
    ensures lo + |StripBy(s, k)| <= |s|
    ensures StripBy(s, k) == s[lo..lo + |StripBy(s, k)|]
    ensures forall i :: 0 <= i < lo ==> Removes(k, s[i])
    ensures forall i :: lo + |StripBy(s, k)| <= i < |s| ==> Removes(k, s[i])
  {
    var a := LStrip(s, k);
    LStripSuffix(s, k);
    RStripPrefix(a, k);
    lo := |s| - |a|;
    assert forall i :: lo + |StripBy(s, k)| <= i < |s| ==> s[i] == a[i - lo];
  }

  /** A string with no removable character at either end is its own `strip`. */
  lemma StripByUnchanged(s: string, k: Strippable)
    requires s == [] || (!Removes(k, s[0]) && !Removes(k, s[|s| - 1]))
    ensures StripBy(s, k) == s
  {
  }

  /** A string with no whitespace at either end is its own `strip()`. */
  lemma StripUnchanged(s: string)
    requires s == [] || (!IsSpace(s[0]) && !IsSpace(s[|s| - 1]))
    ensures Strip(s) == s
  {
    StripByUnchanged(s, Whitespace);
  }

  /**
   * `str.lower()` on one character. ASCII letters, KELVIN SIGN (which lower-cases
   * to `k`) and U+0130 (which lower-cases to `i` + U+0307) are mapped; these are
   * the only characters whose lower case contains an ASCII letter.
   */
  function LowerChar(c: char): (r: string)
    ensures forall i :: 0 <= i < |r| ==> !IsUpperAscii(r[i])
    ensures 1 <= |r| <= 2
  {
    if IsUpperAscii(c) then [(c as int + 32) as char]
    else if c == '\U{212A}' then "k"
    else if c == '\U{130}' then "i\U{307}"
    else [c]
  }

  /** `s.lower()`, character by character. */
  function Lower(s: string): string {
    if s == [] then [] else LowerChar(s[0]) + Lower(s[1..])
  }

  /** The lower case of a string never contains an upper-case ASCII letter. */
  lemma {:induction false} LowerNoUpper(s: string)
    ensures forall i :: 0 <= i < |Lower(s)| ==> !IsUpperAscii(Lower(s)[i])
  {
    if s != [] {
      LowerNoUpper(s[1..]);
      var head, rest := LowerChar(s[0]), Lower(s[1..]);
      assert Lower(s) == head + rest;
      assert forall i :: |head| <= i < |head| + |rest| ==> (head + rest)[i] == rest[i - |head|];
    }
  }

  /** A string without upper-case ASCII letters, KELVIN SIGN and U+0130 is its own lower case. */
  lemma {:induction false} LowerUnchanged(s: string)
    requires forall i :: 0 <= i < |s| ==> !IsUpperAscii(s[i]) && s[i] != '\U{212A}' && s[i] != '\U{130}'
    ensures Lower(s) == s
  {
    if s != [] {
      LowerUnchanged(s[1..]);
    }
  }

  /** No string lower-cases to a string that holds an upper-case ASCII letter. */
  lemma LowerNeverEquals(s: string, t: string, k: nat)
    requires k < |t| && IsUpperAscii(t[k])
    ensures Lower(s) != t
  {
    LowerNoUpper(s);
  }

  predicate StartsWith(s: string, prefix: string) {
    |prefix| <= |s| && s[..|prefix|] == prefix
  }

  /** `sub in s` for strings. */
  predicate Contains(s: string, sub: string)
    decreases |s|
  {
    StartsWith(s, sub) || (s != [] && Contains(s[1..], sub))
  }

  /** `Contains` holds exactly when `sub` occurs at some offset of `s`. */
  lemma {:induction false} ContainsAt(s: string, sub: string)
    ensures Contains(s, sub) <==> exists i :: 0 <= i <= |s| - |sub| && StartsWith(s[i..], sub)
    decreases |s|
  {
    if s == [] {
      if sub == [] {
        assert StartsWith(s[0..], sub);
      }
    } else {
      if StartsWith(s, sub) {
        assert StartsWith(s[0..], sub);
      }
      ContainsAt(s[1..], sub);
      if Contains(s[1..], sub) {
        var i :| 0 <= i <= |s[1..]| - |sub| && StartsWith(s[1..][i..], sub);
        assert s[i + 1..] == s[1..][i..];
      }
      if exists i :: 0 <= i <= |s| - |sub| && StartsWith(s[i..], sub) {
        var i :| 0 <= i <= |s| - |sub| && StartsWith(s[i..], sub);
        if i > 0 {
          assert s[1..][i - 1..] == s[i..];
        }
      }
    }
  }

  /** `s.count(c)` for a single character. */
  function Count(s: string, c: char): (n: nat)
    ensures n <= |s|
    ensures n == 0 <==> c !in s
  {
    if s == [] then 0 else (if s[0] == c then 1 else 0) + Count(s[1..], c)
  }

  /** `sep.join(parts)`. */
  function Join(sep: string, parts: seq<string>): string {
    if |parts| == 0 then ""
    else if |parts| == 1 then parts[0]
    else parts[0] + sep + Join(sep, parts[1..])
  }

  /** `s.split(c)`: at least one piece, one more than the separators in `s`. */
  function Split(s: string, c: char): (parts: seq<string>)
    ensures |parts| == Count(s, c) + 1
    ensures forall i :: 0 <= i < |parts| ==> c !in parts[i]
  {
    if s == [] then [""]
    else if s[0] == c then [""] + Split(s[1..], c)
    else
      var rest := Split(s[1..], c);
      [[s[0]] + rest[0]] + rest[1..]
  }

  /** Joining the pieces of a split gives back the string. */
  lemma {:induction false} JoinSplit(s: string, c: char)
    ensures Join([c], Split(s, c)) == s
  {
    if s != [] {
      JoinSplit(s[1..], c);
      var rest := Split(s[1..], c);
      assert [s[0]] + s[1..] == s;
      if s[0] == c {
        assert Split(s, c) == [""] + rest;
        assert Join([c], [""] + rest) == "" + [c] + Join([c], rest);
      } else if |rest| == 1 {
        assert Split(s, c) == [[s[0]] + rest[0]];
      } else {
        var parts := [[s[0]] + rest[0]] + rest[1..];
        assert Split(s, c) == parts;
        assert parts[1..] == rest[1..];
        assert Join([c], rest) == rest[0] + [c] + Join([c], rest[1..]);
        assert Join([c], parts) == [s[0]] + rest[0] + [c] + Join([c], rest[1..]);
      }
    }
  }

  /** Splitting a join of separator-free pieces gives back the pieces. */
  lemma {:induction false} SplitJoin(parts: seq<string>, c: char)
    requires |parts| >= 1
    requires forall i :: 0 <= i < |parts| ==> c !in parts[i]
    ensures Split(Join([c], parts), c) == parts
    ensures Count(Join([c], parts), c) == |parts| - 1
  {
    if |parts| == 1 {
      SplitNoSeparator(parts[0], c);
    } else {
      SplitJoin(parts[1..], c);
      SplitAfterPiece(parts[0], Join([c], parts[1..]), c);
    }
  }

  lemma {:induction false} SplitNoSeparator(s: string, c: char)
    requires c !in s
    ensures Split(s, c) == [s]
  {
    if s != [] {
      SplitNoSeparator(s[1..], c);
      assert [s[0]] + s[1..] == s;
    }
  }

  lemma {:induction false} SplitAfterPiece(p: string, t: string, c: char)
    requires c !in p
    ensures Split(p + [c] + t, c) == [p] + Split(t, c)
    ensures Count(p + [c] + t, c) == Count(t, c) + 1
  {
    if p == [] {
      assert p + [c] + t == [c] + t;
      SplitCons(c, t, c);
    } else {
      var t' := p[1..] + [c] + t;
      assert p + [c] + t == [p[0]] + t';
      SplitAfterPiece(p[1..], t, c);
      SplitCons(p[0], t', c);
      assert [p[0]] + p[1..] == p;
    }
  }

  /** One step of `split` and `count`, on a string with a known first character. */
  lemma SplitCons(x: char, r: string, c: char)
    ensures x == c ==> Split([x] + r, c) == [""] + Split(r, c) && Count([x] + r, c) == Count(r, c) + 1
    ensures x != c ==>
      Split([x] + r, c) == [[x] + Split(r, c)[0]] + Split(r, c)[1..] && Count([x] + r, c) == Count(r, c)
  {
    assert ([x] + r)[0] == x && ([x] + r)[1..] == r;
  }

  /** The separator occurs in a join only where the join put it. */
  lemma {:induction false} JoinCount(parts: seq<string>, c: char)
    requires forall i :: 0 <= i < |parts| ==> c !in parts[i]
    ensures Count(Join([c], parts), c) == if parts == [] then 0 else |parts| - 1
  {
    if parts != [] {
      SplitJoin(parts, c);
    }
  }

  lemma {:induction false} CountAppend(a: string, b: string, c: char)
    ensures Count(a + b, c) == Count(a, c) + Count(b, c)
  {
    if a != [] {
      CountAppend(a[1..], b, c);
      assert (a + b)[1..] == a[1..] + b;
    } else {
      assert a + b == b;
    }
  }

  predicate IsDigits(s: string) {
    forall i :: 0 <= i < |s| ==> '0' <= s[i] <= '9'
  }

  /** The number a run of decimal digits denotes, most significant digit first. */
  function DecimalValue(s: string): nat
    requires IsDigits(s)
  {
    if s == [] then 0 else 10 * DecimalValue(s[..|s| - 1]) + (s[|s| - 1] as int - '0' as int)
  }

  /**
   * Decimal text of a natural number, as `str(n)`: digits that denote `n`,
   * with a leading zero only for zero itself.
   */
  function NatToString(n: nat): (r: string)
    ensures |r| >= 1 && IsDigits(r)
    ensures DecimalValue(r) == n
    ensures r[0] == '0' <==> n == 0
    ensures n == 0 ==> r == "0"
    decreases n
  {
    if n < 10 then [('0' as int + n) as char]
    else
      var front := NatToString(n / 10);
      var r := front + [('0' as int + n % 10) as char];
      assert r[..|r| - 1] == front;
      r
  }
}
