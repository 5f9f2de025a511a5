/** String primitives of Python's `str` type, restricted to ASCII: character
    classes, `strip()`, `in`, `split(sep)`, `lower()` and `replace`. */
module Text {
  import opened Wrappers

  /** An ASCII decimal digit: what `\d` and `float()` accept on ASCII input. */
  predicate IsDigit(c: char) {
    '0' <= c <= '9'
  }

  /** ASCII whitespace in Python's sense (`str.isspace`, regex `\s`): tab
      through carriage return, the separators 0x1C-0x1F, and space. */
  predicate IsSpace(c: char) {
    9 <= c as int <= 13 || 28 <= c as int <= 32
  }

  predicate AllSpace(s: string) {
    forall k :: 0 <= k < |s| ==> IsSpace(s[k])
  }

  predicate AllDigits(s: string) {
    forall k :: 0 <= k < |s| ==> IsDigit(s[k])
  }

  predicate NoDigit(s: string) {
    forall k :: 0 <= k < |s| ==> !IsDigit(s[k])
  }

  /** No whitespace at either end: the shape of every `strip()` result. */
  predicate Trimmed(s: string) {
    |s| == 0 || (!IsSpace(s[0]) && !IsSpace(s[|s| - 1]))
  }

  /** Length of the whitespace run that starts `s`. */
  function LeadingSpace(s: string): (n: nat)
    ensures n <= |s|
    ensures forall k :: 0 <= k < n ==> IsSpace(s[k])
    ensures n < |s| ==> !IsSpace(s[n])
  {
    if |s| == 0 || !IsSpace(s[0]) then 0 else 1 + LeadingSpace(s[1..])
  }

  /** Length of the whitespace run that ends `s`. */
  function TrailingSpace(s: string): (n: nat)
    ensures n <= |s|
    ensures forall k :: |s| - n <= k < |s| ==> IsSpace(s[k])
    ensures n < |s| ==> !IsSpace(s[|s| - 1 - n])
  {
    if |s| == 0 || !IsSpace(s[|s| - 1]) then 0 else 1 + TrailingSpace(s[..|s| - 1])
  }

  /** Python's `str.strip()`: drop the leading and the trailing whitespace. */
  function Strip(s: string): (t: string)
    ensures Trimmed(t)
    ensures |s| > 0 && !IsSpace(s[0]) ==> |t| > 0 && t[0] == s[0]
  {
    var a := LeadingSpace(s);
    var rest := s[a..];
    var t := rest[..|rest| - TrailingSpace(rest)];
    assert |t| > 0 ==> t[0] == s[a];
    assert |s| > 0 && !IsSpace(s[0]) ==> a == 0 && TrailingSpace(rest) < |rest|;
    t
  }

  /** `strip()` only removes characters, so any property every character of
      `s` has, every character of the result has too. */
  lemma StripKeeps(s: string, P: char -> bool)
    requires forall k :: 0 <= k < |s| ==> P(s[k])
    ensures forall k :: 0 <= k < |Strip(s)| ==> P(Strip(s)[k])
  {
    var a := LeadingSpace(s);
    var rest := s[a..];
    assert Strip(s) == rest[..|rest| - TrailingSpace(rest)];
    forall k | 0 <= k < |Strip(s)| ensures P(Strip(s)[k]) {
      assert Strip(s)[k] == s[a + k];
    }
  }

  /** `strip()` is characterised by its cut points: whatever is left after
      removing an all-whitespace prefix and suffix, when it is trimmed, is the
      result. */
  lemma StripUnique(s: string, a: nat, b: nat)
    requires a <= b <= |s|
    requires AllSpace(s[..a]) && AllSpace(s[b..])
    requires Trimmed(s[a..b])
    ensures Strip(s) == s[a..b]
  {
    assert forall k :: 0 <= k < a ==> IsSpace(s[k]) by {
      forall k | 0 <= k < a ensures IsSpace(s[k]) { assert s[..a][k] == s[k]; }
    }
    assert forall k :: b <= k < |s| ==> IsSpace(s[k]) by {
      forall k | b <= k < |s| ensures IsSpace(s[k]) { assert s[b..][k - b] == s[k]; }
    }
    if a == b {
      assert LeadingSpace(s) == |s|;
    } else {
      assert !IsSpace(s[a]) && !IsSpace(s[b - 1]) by {
        assert s[a..b][0] == s[a] && s[a..b][b - a - 1] == s[b - 1];
      }
      StripAt(s, a, b);
    }
  }

  lemma StripAt(s: string, a: nat, b: nat)
    requires a < b <= |s|
    requires forall k :: 0 <= k < a ==> IsSpace(s[k])
    requires forall k :: b <= k < |s| ==> IsSpace(s[k])
    requires !IsSpace(s[a]) && !IsSpace(s[b - 1])
    ensures Strip(s) == s[a..b]
  {
    assert LeadingSpace(s) == a;
    var rest := s[a..];
    assert forall k :: b - a <= k < |rest| ==> IsSpace(rest[k]) by {
      forall k | b - a <= k < |rest| ensures IsSpace(rest[k]) { assert rest[k] == s[a + k]; }
    }
    TrailingSpaceAt(rest, b - a);
    StripDef(s);
    SliceOfSlice(s, a, b - a);
  }

  /** `strip()` keeps what lies between its two whitespace runs. */
  lemma StripDef(s: string)
    ensures var rest := s[LeadingSpace(s)..];
            Strip(s) == rest[..|rest| - TrailingSpace(rest)]
  {
  }

  lemma SliceOfSlice(s: string, a: nat, m: nat)
    requires a + m <= |s|
    ensures s[a..][..m] == s[a..a + m]
  {
  }

  lemma TrailingSpaceAt(rest: string, m: nat)
    requires 0 < m <= |rest|
    requires !IsSpace(rest[m - 1])
    requires forall k :: m <= k < |rest| ==> IsSpace(rest[k])
    ensures TrailingSpace(rest) == |rest| - m
  {
  }

  lemma StripTrimmed(s: string)
    requires Trimmed(s)
    ensures Strip(s) == s
  {
    assert s[..0] == [] && s[|s|..] == [] && s[0..|s|] == s;
    StripUnique(s, 0, |s|);
  }

  /** Python's `strip()` is idempotent. */
  lemma StripIdempotent(s: string)
    ensures Strip(Strip(s)) == Strip(s)
  {
    StripTrimmed(Strip(s));
  }

  /** Whitespace added around a trimmed text is removed again by `strip()`. */
  lemma StripPadded(pre: string, t: string, post: string)
    requires AllSpace(pre) && AllSpace(post) && Trimmed(t)
    ensures Strip(pre + t + post) == t
  {
    var s := pre + t + post;
    assert s[..|pre|] == pre && s[|pre| + |t|..] == post && s[|pre|..|pre| + |t|] == t;
    StripUnique(s, |pre|, |pre| + |t|);
  }

  /** Leading whitespace makes no difference to `strip()`. */
  lemma {:induction false} StripLeading(w: string, t: string)
    requires AllSpace(w)
    ensures Strip(w + t) == Strip(t)
    decreases |w|
  {
    if |w| > 0 {
      var s := w + t;
      assert s[0] == w[0];
      assert s[1..] == w[1..] + t;
      StripDropSpace(s);
      assert AllSpace(w[1..]) by {
        forall k | 0 <= k < |w| - 1 ensures IsSpace(w[1..][k]) { assert w[1..][k] == w[k + 1]; }
      }
      StripLeading(w[1..], t);
    } else {
      assert w + t == t;
    }
  }

  lemma StripDropSpace(s: string)
    requires |s| > 0 && IsSpace(s[0])
    ensures Strip(s) == Strip(s[1..])
  {
    var a, b := StripCuts(s[1..]);
    ShiftCuts(s, a, b);
    StripUnique(s, a + 1, b + 1);
  }

  /** Cut points of `s[1..]`, moved one place right, are cut points of `s`
      when `s` starts with whitespace. */
  lemma ShiftCuts(s: string, a: nat, b: nat)
    requires |s| > 0 && IsSpace(s[0])
    requires a <= b <= |s| - 1
    requires AllSpace(s[1..][..a]) && AllSpace(s[1..][b..]) && Trimmed(s[1..][a..b])
    ensures AllSpace(s[..a + 1]) && AllSpace(s[b + 1..]) && Trimmed(s[a + 1..b + 1])
    ensures s[a + 1..b + 1] == s[1..][a..b]
  {
    var u := s[1..];
    assert s[a + 1..b + 1] == u[a..b];
    assert s[b + 1..] == u[b..];
    var pre := s[..a + 1];
    assert AllSpace(pre) by {
      forall k | 0 <= k < |pre| ensures IsSpace(pre[k]) {
        if k > 0 { assert pre[k] == u[..a][k - 1]; }
      }
    }
  }

  /** The cut points `strip()` chooses: an all-whitespace prefix and suffix. */
  lemma StripCuts(s: string) returns (a: nat, b: nat)
    ensures a <= b <= |s|
    ensures AllSpace(s[..a]) && AllSpace(s[b..]) && Trimmed(s[a..b])
    ensures Strip(s) == s[a..b]
  {
    a := LeadingSpace(s);
    var rest := s[a..];
    b := a + |rest| - TrailingSpace(rest);
    assert AllSpace(s[..a]) by {
      forall k | 0 <= k < a ensures IsSpace(s[..a][k]) { assert s[..a][k] == s[k]; }
    }
    assert AllSpace(s[b..]) by {
      forall k | 0 <= k < |s| - b ensures IsSpace(s[b..][k]) { assert s[b..][k] == rest[b - a + k]; }
    }
    StripDef(s);
    SliceOfSlice(s, a, b - a);
  }

  /** Two trimmed pieces joined by one space: `strip()` keeps the join when the
      second piece is non-empty, and drops the space otherwise. */
  lemma StripJoined(q: string, t: string)
    requires Trimmed(q) && Trimmed(t)
    ensures |q| > 0 && |t| > 0 ==> Strip(q + " " + t) == q + " " + t
    ensures |t| == 0 ==> Strip(q + " " + t) == q
    ensures |q| == 0 ==> Strip(q + " " + t) == t
  {
    if |q| > 0 && |t| > 0 {
      StripTrimmed(q + " " + t);
    } else if |t| == 0 {
      assert q + " " + t == [] + q + " ";
      StripPadded([], q, " ");
    } else {
      assert q + " " + t == " " + t + [];
      StripPadded(" ", t, []);
    }
  }

  /** `sep` occurs in `s` starting at index `j`. */
  predicate OccursAt(s: string, sep: string, j: nat) {
    j + |sep| <= |s| && s[j..j + |sep|] == sep
  }

  /** Leftmost occurrence of `sep` in `s`, as `str.find` reports it. */
  function IndexOf(s: string, sep: string): (r: Option<nat>)
    requires |sep| > 0
    ensures r.Some? ==> OccursAt(s, sep, r.value)
    ensures r.Some? ==> forall j: nat :: j < r.value ==> !OccursAt(s, sep, j)
    ensures r.None? ==> forall j: nat :: !OccursAt(s, sep, j)
    decreases |s|
  {
    if |s| < |sep| then None
    else if s[..|sep|] == sep then Some(0)
    else
      var r := IndexOf(s[1..], sep);
      assert forall j: nat :: OccursAt(s, sep, j + 1) <==> OccursAt(s[1..], sep, j) by {
        forall j: nat ensures OccursAt(s, sep, j + 1) <==> OccursAt(s[1..], sep, j) {
          if j + 1 + |sep| <= |s| { SliceOfTail(s, j, |sep|); }
        }
      }
      assert !OccursAt(s, sep, 0);
      match r
      case None =>
        assert forall j: nat :: !OccursAt(s, sep, j) by {
          forall j: nat ensures !OccursAt(s, sep, j) {
            if j > 0 { assert !OccursAt(s[1..], sep, j - 1); }
          }
        }
        None
      case Some(i) =>
        assert forall j: nat :: j < i + 1 ==> !OccursAt(s, sep, j) by {
          forall j: nat | j < i + 1 ensures !OccursAt(s, sep, j) {
            if j > 0 { assert !OccursAt(s[1..], sep, j - 1); }
          }
        }
        Some(i + 1)
  }

  lemma SliceOfTail(s: string, j: nat, n: nat)
    requires 0 < |s| && j + 1 + n <= |s|
    ensures s[1..][j..j + n] == s[j + 1..j + 1 + n]
  {
    var t := s[1..][j..j + n];
    assert forall k :: 0 <= k < n ==> t[k] == s[j + 1 + k];
  }

  /** Python's substring test `sep in s`. */
  predicate Contains(s: string, sep: string)
    requires |sep| > 0
  {
    IndexOf(s, sep).Some?
  }

  /** Python's `str.split(sep)`: cut at every non-overlapping occurrence,
      scanning left to right. */
  function SplitOn(s: string, sep: string): (parts: seq<string>)
    requires |sep| > 0
    ensures |parts| >= 1
    ensures |parts| == 1 <==> !Contains(s, sep)
    ensures forall k :: 0 <= k < |parts| ==> !Contains(parts[k], sep)
    ensures JoinWith(parts, sep) == s
    ensures |parts| > 1 ==> IndexOf(s, sep) == Some(|parts[0]|)
    decreases |s|
  {
    match IndexOf(s, sep)
    case None => [s]
    case Some(i) =>
      assert Contains(s, sep);
      var head := s[..i];
      var rest := SplitOn(s[i + |sep|..], sep);
      NoOccurrenceBefore(s, sep, i);
      ThreeSlices(s, i, i + |sep|);
      ConsParts(head, rest, sep);
      [head] + rest
  }

  /** After the first cut, `split` goes on with the rest of the text in the
      same way, so every later cut is the leftmost one in what remains. */
  lemma SplitOnRest(s: string, sep: string)
    requires |sep| > 0
    ensures var parts := SplitOn(s, sep);
            |parts| > 1 ==> parts[1..] == SplitOn(s[|parts[0]| + |sep|..], sep)
  {
    var parts := SplitOn(s, sep);
    if |parts| > 1 {
      var i := IndexOf(s, sep).value;
      assert parts == [s[..i]] + SplitOn(s[i + |sep|..], sep);
    }
  }

  /** A first part without `sep` in front of parts without `sep`. */
  lemma ConsParts(head: string, rest: seq<string>, sep: string)
    requires |sep| > 0 && |rest| >= 1 && !Contains(head, sep)
    requires forall k :: 0 <= k < |rest| ==> !Contains(rest[k], sep)
    ensures ([head] + rest)[1..] == rest
    ensures JoinWith([head] + rest, sep) == head + sep + JoinWith(rest, sep)
    ensures forall k :: 0 <= k < |rest| + 1 ==> !Contains(([head] + rest)[k], sep)
  {
    var parts := [head] + rest;
    assert parts[1..] == rest;
    forall k | 0 <= k < |parts| ensures !Contains(parts[k], sep) {
      if k > 0 { assert parts[k] == rest[k - 1]; }
    }
  }

  lemma ThreeSlices(s: string, i: nat, j: nat)
    requires i <= j <= |s|
    ensures s == s[..i] + s[i..j] + s[j..]
  {
  }

  /** The text before the leftmost occurrence of `sep` does not contain it. */
  lemma NoOccurrenceBefore(s: string, sep: string, i: nat)
    requires |sep| > 0 && i <= |s|
    requires forall j: nat :: j < i ==> !OccursAt(s, sep, j)
    ensures !Contains(s[..i], sep)
  {
    var h := IndexOf(s[..i], sep);
    if h.Some? {
      assert s[..i][h.value..h.value + |sep|] == s[h.value..h.value + |sep|];
      assert OccursAt(s, sep, h.value);
      assert false;
    }
  }

  /** Python's `sep.join(parts)`. */
  function JoinWith(parts: seq<string>, sep: string): string
    requires |parts| >= 1
  {
    if |parts| == 1 then parts[0] else parts[0] + sep + JoinWith(parts[1..], sep)
  }

  /** ASCII part of Python's `str.lower()` on one character. */
  function LowerChar(c: char): char {
    if 'A' <= c <= 'Z' then (c as int + 32) as char else c
  }

  /** Python's `str.lower()` on ASCII text. */
  function Lower(s: string): (t: string)
    ensures |t| == |s|
    ensures forall k :: 0 <= k < |s| ==> t[k] == LowerChar(s[k])
  {
    seq(|s|, k requires 0 <= k < |s| => LowerChar(s[k]))
  }

  /** Python's `s.replace(from, to)` for single characters. */
  function ReplaceChar(s: string, from: char, to: char): (t: string)
    ensures |t| == |s|
    ensures forall k :: 0 <= k < |s| ==> t[k] == (if s[k] == from then to else s[k])
  {
    seq(|s|, k requires 0 <= k < |s| => if s[k] == from then to else s[k])
  }
}
