/** The ingredient-line splitter: Python's
    `re.split(r"(\d+\.?\d*\s*\-?\s*\d*\/?\d*)\s+(?=[^\d]+$)", line)` followed
    by stripping, on ASCII text. The regular expression is a sequence of
    greedy single-class repetitions ending in a lookahead; it is modelled by
    a backtracking matcher that tries the counts of each repetition from the
    longest down, exactly the order in which Python's engine tries them. */
module Splitter {
  import opened Wrappers
  import opened Text

  /** The character classes the pattern uses: `\d`, `\s`, `\.`, `\-`, `\/`. */
  datatype CharClass = Digit | Space | Point | Hyphen | Slash

  predicate InClass(c: char, k: CharClass) {
    match k
    case Digit => IsDigit(c)
    case Space => IsSpace(c)
    case Point => c == '.'
    case Hyphen => c == '-'
    case Slash => c == '/'
  }

  /** The greedy repetition operators `?`, `*` and `+`. */
  datatype Repeat = Optional | Star | Plus

  /** One atom of the pattern with its repetition operator. */
  datatype Piece = Piece(cls: CharClass, rep: Repeat)

  function MinCount(p: Piece): nat {
    if p.rep == Plus then 1 else 0
  }

  /** `\d+ \.? \d* \s* \-? \s* \d* \/? \d*` (the captured quantity) and then
      `\s+`. The lookahead is `Lookahead` below. */
  const Pattern: seq<Piece> := [
    Piece(Digit, Plus), Piece(Point, Optional), Piece(Digit, Star),
    Piece(Space, Star), Piece(Hyphen, Optional), Piece(Space, Star),
    Piece(Digit, Star), Piece(Slash, Optional), Piece(Digit, Star),
    Piece(Space, Plus)]

  /** Index, in a list of piece ends, of the end of the captured group. */
  const GroupEnd := 8

  /** Index, in a list of piece ends, of the end of the whole match. */
  const MatchEnd := 9

  /** `(?=[^\d]+$)`: the rest of the line is non-empty and digit-free. */
  predicate Lookahead(s: string, pos: nat)
    requires pos <= |s|
  {
    pos < |s| && NoDigit(s[pos..])
  }

  /** `s[a..b]` is a stretch piece `p` may consume. */
  predicate Spans(s: string, p: Piece, a: nat, b: nat) {
    && a <= b <= |s|
    && MinCount(p) <= b - a
    && (p.rep == Optional ==> b - a <= 1)
    && forall j :: a <= j < b ==> InClass(s[j], p.cls)
  }

  /** `ends` is one way of matching `ps` from `pos`: `ends[k]` is where piece
      `k` stops, and the lookahead holds where the last piece stops. */
  predicate Path(s: string, ps: seq<Piece>, pos: nat, ends: seq<nat>)
    requires pos <= |s|
    decreases |ps|
  {
    && |ends| == |ps|
    && if |ps| == 0 then Lookahead(s, pos)
       else Spans(s, ps[0], pos, ends[0]) && Path(s, ps[1..], ends[0], ends[1..])
  }

  /** Lexicographic order on piece ends of the same length. Among the ways of
      matching from one position, Python's engine takes the greatest: every
      repetition is greedy, the earlier ones first. */
  predicate LexLeq(a: seq<nat>, b: seq<nat>)
    requires |a| == |b|
  {
    |a| == 0 || a[0] < b[0] || (a[0] == b[0] && LexLeq(a[1..], b[1..]))
  }

  /** Number of consecutive characters of class `k` from `pos` on. */
  function Run(s: string, pos: nat, k: CharClass): (n: nat)
    requires pos <= |s|
    ensures pos + n <= |s|
    ensures forall j :: pos <= j < pos + n ==> InClass(s[j], k)
    ensures pos + n < |s| ==> !InClass(s[pos + n], k)
    decreases |s| - pos
  {
    if pos < |s| && InClass(s[pos], k) then 1 + Run(s, pos + 1, k) else 0
  }

  /** The most characters piece `p` can take from `pos`. */
  function MaxCount(s: string, pos: nat, p: Piece): (n: nat)
    requires pos <= |s|
    ensures pos + n <= |s|
  {
    var r := Run(s, pos, p.cls);
    if p.rep == Optional && r > 1 then 1 else r
  }

  /** The backtracking matcher: the path Python's engine finds for `ps` from
      `pos`, or `None` when every attempt fails. */
  function Match(s: string, ps: seq<Piece>, pos: nat): (r: Option<seq<nat>>)
    requires pos <= |s|
    ensures r.Some? ==> Path(s, ps, pos, r.value)
    decreases |ps|, 1
  {
    if |ps| == 0 then (if Lookahead(s, pos) then Some([]) else None)
    else Try(s, ps, pos, MaxCount(s, pos, ps[0]))
  }

  /** Backtracking over the first piece: let it take `k` characters, then
      `k - 1`, and so on down to its minimum. */
  function Try(s: string, ps: seq<Piece>, pos: nat, k: nat): (r: Option<seq<nat>>)
    requires |ps| > 0 && pos <= |s|
    requires k <= MaxCount(s, pos, ps[0])
    ensures r.Some? ==> Path(s, ps, pos, r.value) && r.value[0] <= pos + k
    decreases |ps|, 0, k
  {
    if k < MinCount(ps[0]) then None
    else
      match Match(s, ps[1..], pos + k)
      case Some(rest) =>
        var ends := [pos + k] + rest;
        assert ends[1..] == rest;
        Some(ends)
      case None => if k == 0 then None else Try(s, ps, pos, k - 1)
  }

  /** No piece can take more than `MaxCount` characters. */
  lemma SpanWithinMax(s: string, p: Piece, a: nat, b: nat)
    requires a <= |s| && Spans(s, p, a, b)
    ensures b - a <= MaxCount(s, a, p)
  {
  }

  /** The matcher is complete and takes the highest-priority path: if any
      path exists it finds one, and every path is at most the one it finds. */
  lemma {:induction false} MatchBest(s: string, ps: seq<Piece>, pos: nat, other: seq<nat>)
    requires pos <= |s| && Path(s, ps, pos, other)
    ensures Match(s, ps, pos).Some?
    ensures LexLeq(other, Match(s, ps, pos).value)
    decreases |ps|, 1
  {
    if |ps| > 0 {
      SpanWithinMax(s, ps[0], pos, other[0]);
      TryBest(s, ps, pos, MaxCount(s, pos, ps[0]), other);
    }
  }

  lemma {:induction false} TryBest(s: string, ps: seq<Piece>, pos: nat, k: nat, other: seq<nat>)
    requires |ps| > 0 && pos <= |s| && k <= MaxCount(s, pos, ps[0])
    requires Path(s, ps, pos, other) && other[0] <= pos + k
    ensures Try(s, ps, pos, k).Some?
    ensures LexLeq(other, Try(s, ps, pos, k).value)
    decreases |ps|, 0, k
  {
    var sub := Match(s, ps[1..], pos + k);
    if other[0] == pos + k {
      MatchBest(s, ps[1..], pos + k, other[1..]);
      assert Try(s, ps, pos, k) == Some([pos + k] + sub.value);
      assert ([pos + k] + sub.value)[1..] == sub.value;
    } else if sub.None? {
      TryBest(s, ps, pos, k - 1, other);
    }
  }

  lemma MatchIsGreatest(s: string, ps: seq<Piece>, pos: nat)
    requires pos <= |s| && Match(s, ps, pos).Some?
    ensures forall e :: Path(s, ps, pos, e) ==> LexLeq(e, Match(s, ps, pos).value)
  {
    forall e | Path(s, ps, pos, e) ensures LexLeq(e, Match(s, ps, pos).value) {
      MatchBest(s, ps, pos, e);
    }
  }

  lemma NoMatchNoPath(s: string, ps: seq<Piece>, pos: nat)
    requires pos <= |s| && Match(s, ps, pos).None?
    ensures forall e :: !Path(s, ps, pos, e)
  {
    forall e ensures !Path(s, ps, pos, e) {
      if Path(s, ps, pos, e) {
        MatchBest(s, ps, pos, e);
        assert false;
      }
    }
  }

  /** Two paths that are each at most the other are the same path. */
  lemma LexAntisymmetric(a: seq<nat>, b: seq<nat>)
    requires |a| == |b| && LexLeq(a, b) && LexLeq(b, a)
    ensures a == b
  {
    if |a| > 0 {
      LexAntisymmetric(a[1..], b[1..]);
      assert a == [a[0]] + a[1..] && b == [b[0]] + b[1..];
    }
  }

  /** Where a piece starts: at `pos` for the first, at the previous piece's
      end for the others. */
  function StartOf(pos: nat, ends: seq<nat>, k: nat): nat
    requires k <= |ends|
  {
    if k == 0 then pos else ends[k - 1]
  }

  /** A path, read piece by piece. */
  lemma {:induction false} PathPieces(s: string, ps: seq<Piece>, pos: nat, ends: seq<nat>)
    requires pos <= |s| && Path(s, ps, pos, ends)
    ensures forall k :: 0 <= k < |ps| ==> Spans(s, ps[k], StartOf(pos, ends, k), ends[k])
    ensures |ps| > 0 ==> ends[|ps| - 1] <= |s| && Lookahead(s, ends[|ps| - 1])
    decreases |ps|
  {
    if |ps| > 0 {
      PathPieces(s, ps[1..], ends[0], ends[1..]);
      forall k | 1 <= k < |ps|
        ensures Spans(s, ps[k], StartOf(pos, ends, k), ends[k])
      {
        assert ps[1..][k - 1] == ps[k];
        assert StartOf(ends[0], ends[1..], k - 1) == StartOf(pos, ends, k);
      }
    }
  }

  /** The converse of `PathPieces`: spans for every piece and the
      lookahead at the end make a path. */
  lemma {:induction false} PathOfSpans(s: string, ps: seq<Piece>, pos: nat, ends: seq<nat>)
    requires pos <= |s| && |ends| == |ps| && |ps| > 0
    requires forall k :: 0 <= k < |ps| ==> Spans(s, ps[k], StartOf(pos, ends, k), ends[k])
    requires ends[|ps| - 1] <= |s| && Lookahead(s, ends[|ps| - 1])
    ensures Path(s, ps, pos, ends)
    decreases |ps|
  {
    assert Spans(s, ps[0], pos, ends[0]);
    if |ps| > 1 {
      forall k | 0 <= k < |ps| - 1
        ensures Spans(s, ps[1..][k], StartOf(ends[0], ends[1..], k), ends[1..][k])
      {
        assert Spans(s, ps[k + 1], StartOf(pos, ends, k + 1), ends[k + 1]);
      }
      PathOfSpans(s, ps[1..], ends[0], ends[1..]);
    }
  }

  /** A character the quantity pattern can consume. */
  predicate TokenChar(c: char) {
    IsDigit(c) || IsSpace(c) || c == '.' || c == '-' || c == '/'
  }

  predicate TokenText(t: string) {
    forall k :: 0 <= k < |t| ==> TokenChar(t[k])
  }

  /** Everything a path consumes up to the end of piece `n` is token text. */
  lemma {:induction false} PathConsumesTokenChars(s: string, ps: seq<Piece>, pos: nat, ends: seq<nat>, n: nat)
    requires pos <= |s| && Path(s, ps, pos, ends) && n < |ps|
    ensures pos <= ends[n] <= |s|
    ensures forall j :: pos <= j < ends[n] ==> TokenChar(s[j])
    decreases n
  {
    PathPieces(s, ps, pos, ends);
    assert Spans(s, ps[n], StartOf(pos, ends, n), ends[n]);
    if n > 0 {
      PathConsumesTokenChars(s, ps, pos, ends, n - 1);
    }
  }

  /** A successful search: where the match starts and where each piece ends. */
  datatype Found = Found(start: nat, ends: seq<nat>)

  /** The scan `re.split` performs: try each start from `i` on, leftmost
      first, and take the matcher's path at the first start that matches. */
  function SearchFrom(s: string, ps: seq<Piece>, i: nat): (r: Option<Found>)
    requires i <= |s|
    ensures r.Some? ==> i <= r.value.start <= |s| && Path(s, ps, r.value.start, r.value.ends)
    ensures r.Some? ==> forall e :: Path(s, ps, r.value.start, e) ==> LexLeq(e, r.value.ends)
    ensures r.Some? ==> forall j: nat, e :: i <= j < r.value.start ==> !Path(s, ps, j, e)
    ensures r.None? ==> forall j: nat, e :: i <= j <= |s| ==> !Path(s, ps, j, e)
    decreases |s| - i
  {
    match Match(s, ps, i)
    case Some(ends) =>
      MatchIsGreatest(s, ps, i);
      Some(Found(i, ends))
    case None =>
      NoMatchNoPath(s, ps, i);
      if i == |s| then None else SearchFrom(s, ps, i + 1)
  }

  /** `e` with every position moved `d` to the right. */
  function Shift(e: seq<nat>, d: nat): seq<nat> {
    seq(|e|, k requires 0 <= k < |e| => e[k] + d)
  }

  /** Every position in a path lies at or after where it starts. */
  lemma {:induction false} PathAfterStart(s: string, ps: seq<Piece>, pos: nat, e: seq<nat>)
    requires pos <= |s| && Path(s, ps, pos, e)
    ensures forall k :: 0 <= k < |e| ==> pos <= e[k]
    decreases |ps|
  {
    if |ps| > 0 {
      PathAfterStart(s, ps[1..], e[0], e[1..]);
      assert forall k :: 1 <= k < |e| ==> e[k] == e[1..][k - 1];
    }
  }

  /** The positions of a path never decrease and stay within the line. */
  lemma {:induction false} PathOrdered(s: string, ps: seq<Piece>, pos: nat, e: seq<nat>)
    requires pos <= |s| && Path(s, ps, pos, e)
    ensures forall k, k' :: 0 <= k <= k' < |e| ==> pos <= e[k] <= e[k'] <= |s|
    decreases |ps|
  {
    if |ps| > 0 {
      PathOrdered(s, ps[1..], e[0], e[1..]);
      assert forall k :: 1 <= k < |e| ==> e[k] == e[1..][k - 1];
    }
  }

  lemma SpansShift(p: string, s: string, pc: Piece, a: nat, b: nat)
    requires a <= |s|
    ensures Spans(s, pc, a, b) <==> Spans(p + s, pc, |p| + a, |p| + b)
  {
    if b <= |s| {
      assert forall j :: a <= j < b ==> (p + s)[|p| + j] == s[j];
      if Spans(p + s, pc, |p| + a, |p| + b) {
        forall j | a <= j < b ensures InClass(s[j], pc.cls) {
          assert (p + s)[|p| + j] == s[j];
        }
      }
    }
  }

  /** Text in front of a line moves every path by its length and changes
      nothing else. */
  lemma {:induction false} PathShift(p: string, s: string, ps: seq<Piece>, j: nat, e: seq<nat>)
    requires j <= |s|
    ensures Path(s, ps, j, e) <==> Path(p + s, ps, |p| + j, Shift(e, |p|))
    decreases |ps|
  {
    if |ps| == 0 {
      assert (p + s)[|p| + j..] == s[j..];
    } else if |e| == |ps| {
      SpansShift(p, s, ps[0], j, e[0]);
      if e[0] <= |s| {
        PathShift(p, s, ps[1..], e[0], e[1..]);
        assert Shift(e, |p|)[1..] == Shift(e[1..], |p|);
      }
    }
  }

  /** Lexicographic order does not change when both sides move alike. */
  lemma {:induction false} LexShift(a: seq<nat>, b: seq<nat>, d: nat)
    requires |a| == |b|
    ensures LexLeq(a, b) <==> LexLeq(Shift(a, d), Shift(b, d))
    decreases |a|
  {
    if |a| > 0 {
      LexShift(a[1..], b[1..], d);
      assert Shift(a, d)[1..] == Shift(a[1..], d);
      assert Shift(b, d)[1..] == Shift(b[1..], d);
    }
  }

  /** Every path of `p + s` that starts inside `s` is a shifted path of `s`. */
  lemma PathUnshift(p: string, s: string, ps: seq<Piece>, j: nat, e: seq<nat>) returns (u: seq<nat>)
    requires |p| <= j <= |p + s| && Path(p + s, ps, j, e)
    ensures e == Shift(u, |p|) && Path(s, ps, j - |p|, u)
  {
    PathAfterStart(p + s, ps, j, e);
    u := seq(|e|, k requires 0 <= k < |e| => e[k] - |p|);
    assert e == Shift(u, |p|);
    PathShift(p, s, ps, j - |p|, u);
  }

  /** When no match of `p + s` starts inside `p`, the search of `p + s`
      finds the search of `s`, shifted. */
  lemma SearchShift(p: string, s: string, ps: seq<Piece>, i: nat, ends: seq<nat>)
    requires SearchFrom(s, ps, 0) == Some(Found(i, ends))
    requires forall j: nat, e :: j < |p| ==> !Path(p + s, ps, j, e)
    ensures SearchFrom(p + s, ps, 0) == Some(Found(|p| + i, Shift(ends, |p|)))
  {
    PathShift(p, s, ps, i, ends);
    var r := SearchFrom(p + s, ps, 0);
    assert r.Some?;
    var i', ends' := r.value.start, r.value.ends;
    var u := PathUnshift(p, s, ps, i', ends');
    assert i' == |p| + i;
    LexShift(u, ends, |p|);
    LexAntisymmetric(ends', Shift(ends, |p|));
  }

  lemma SplitByPrefixAt(p: string, s: string, ps: seq<Piece>, i: nat, ends: seq<nat>)
    requires |ps| == |Pattern| && SearchFrom(s, ps, 0) == Some(Found(i, ends))
    requires forall j: nat, e :: j < |p| ==> !Path(p + s, ps, j, e)
    ensures SplitBy(p + s, ps) == SplitBy(s, ps)
  {
    SearchShift(p, s, ps, i, ends);
    SplitByShiftedFound(p, s, ps, i, ends);
  }

  lemma SplitByShiftedFound(p: string, s: string, ps: seq<Piece>, i: nat, ends: seq<nat>)
    requires |ps| == |Pattern| && SearchFrom(s, ps, 0) == Some(Found(i, ends))
    requires SearchFrom(p + s, ps, 0) == Some(Found(|p| + i, Shift(ends, |p|)))
    ensures SplitBy(p + s, ps) == SplitBy(s, ps)
  {
    var g, m := ends[GroupEnd], ends[MatchEnd];
    assert SplitBy(s, ps) == Ingredient(Strip(s[i..g]), Strip(s[m..])) && i <= g <= m <= |s| by {
      SplitByFound(s, ps, i, ends);
    }
    SplitByShiftedAt(p, s, ps, i, g, m, Shift(ends, |p|));
  }

  lemma SplitByShiftedAt(p: string, s: string, ps: seq<Piece>, i: nat, g: nat, m: nat, e: seq<nat>)
    requires |ps| == |Pattern| && SearchFrom(p + s, ps, 0) == Some(Found(|p| + i, e))
    requires i <= g <= m <= |s| && e[GroupEnd] == |p| + g && e[MatchEnd] == |p| + m
    ensures SplitBy(p + s, ps) == Ingredient(Strip(s[i..g]), Strip(s[m..]))
  {
    SplitByFound(p + s, ps, |p| + i, e);
    ShiftedPieces(p, s, i, g, m, e, SplitBy(p + s, ps));
  }

  /** The pieces a shifted cut takes from `p + s` are the pieces the
      unshifted cut takes from `s`. */
  lemma ShiftedPieces(p: string, s: string, i: nat, g: nat, m: nat, e: seq<nat>, r: Ingredient)
    requires i <= g <= m <= |s| && |e| == |Pattern|
    requires e[GroupEnd] == |p| + g && e[MatchEnd] == |p| + m
    requires r == Ingredient(Strip((p + s)[|p| + i..e[GroupEnd]]), Strip((p + s)[e[MatchEnd]..]))
    ensures r == Ingredient(Strip(s[i..g]), Strip(s[m..]))
  {
    SlicesShifted(p, s, i, g, m, e);
  }

  lemma SlicesShifted(p: string, s: string, i: nat, g: nat, m: nat, e: seq<nat>)
    requires i <= g <= m <= |s| && |e| == |Pattern|
    requires e[GroupEnd] == |p| + g && e[MatchEnd] == |p| + m
    ensures (p + s)[|p| + i..e[GroupEnd]] == s[i..g]
    ensures (p + s)[e[MatchEnd]..] == s[m..]
  {
    SliceAfter(p, s, i, g);
    SliceAfter(p, s, m, |s|);
  }

  /** The pattern matches somewhere in `line`. */
  ghost predicate HasMatch(line: string) {
    exists j: nat, e :: j <= |line| && Path(line, Pattern, j, e)
  }

  /** What a match of the pattern consumes: a group that starts with a
      digit and holds only token characters, then whitespace, then a
      non-empty digit-free tail. */
  lemma MatchedParts(line: string, i: nat, ends: seq<nat>)
    requires i <= |line| && Path(line, Pattern, i, ends)
    ensures i < ends[GroupEnd] < ends[MatchEnd] < |line|
    ensures IsDigit(line[i])
    ensures TokenText(line[i..ends[GroupEnd]])
    ensures AllSpace(line[ends[GroupEnd]..ends[MatchEnd]])
    ensures NoDigit(line[ends[MatchEnd]..])
    ensures HasMatch(line)
  {
    MatchedGroup(line, i, ends);
    MatchedTail(line, i, ends);
  }

  lemma MatchedGroup(line: string, i: nat, ends: seq<nat>)
    requires i <= |line| && Path(line, Pattern, i, ends)
    ensures i < ends[GroupEnd] <= |line| && IsDigit(line[i])
    ensures TokenText(line[i..ends[GroupEnd]])
  {
    PathPieces(line, Pattern, i, ends);
    assert Spans(line, Pattern[0], i, ends[0]);
    PathConsumesTokenChars(line, Pattern, i, ends, GroupEnd);
    TokenSlice(line, i, ends[GroupEnd]);
  }

  lemma TokenSlice(line: string, a: nat, b: nat)
    requires a <= b <= |line| && forall j :: a <= j < b ==> TokenChar(line[j])
    ensures TokenText(line[a..b])
  {
    assert forall k :: 0 <= k < b - a ==> line[a..b][k] == line[a + k];
  }

  lemma MatchedTail(line: string, i: nat, ends: seq<nat>)
    requires i <= |line| && Path(line, Pattern, i, ends)
    ensures ends[GroupEnd] < ends[MatchEnd] < |line|
    ensures AllSpace(line[ends[GroupEnd]..ends[MatchEnd]])
    ensures NoDigit(line[ends[MatchEnd]..])
  {
    PathPieces(line, Pattern, i, ends);
    assert Spans(line, Pattern[MatchEnd], ends[GroupEnd], ends[MatchEnd]);
  }

  /** One parsed ingredient line: the quantity token and the description. */
  datatype Ingredient = Ingredient(quantity: string, ingredient: string)

  /** Splitting with a pattern `ps`: on a match, the stripped captured group
      and the stripped text after the match (the text before it is dropped);
      otherwise an empty quantity and the whole line stripped. */
  function SplitBy(line: string, ps: seq<Piece>): Ingredient
    requires |ps| == |Pattern|
  {
    match SearchFrom(line, ps, 0)
    case None => Ingredient("", Strip(line))
    case Some(Found(i, ends)) =>
      GroupBounds(line, ps, i, ends);
      Ingredient(Strip(line[i..ends[GroupEnd]]), Strip(line[ends[MatchEnd]..]))
  }

  /** Where a path puts the group and the match end, in order. */
  lemma GroupBounds(line: string, ps: seq<Piece>, i: nat, ends: seq<nat>)
    requires |ps| == |Pattern| && i <= |line| && Path(line, ps, i, ends)
    ensures i <= ends[GroupEnd] <= ends[MatchEnd] <= |line|
  {
    PathOrdered(line, ps, i, ends);
  }

  /** `split_ingredient`: the line split by the quantity pattern. */
  function SplitIngredient(line: string): (r: Ingredient)
    ensures Trimmed(r.quantity) && Trimmed(r.ingredient)
    ensures r.quantity == "" <==> !HasMatch(line)
    ensures r.quantity == "" ==> r.ingredient == Strip(line)
    ensures r.quantity != "" ==> IsDigit(r.quantity[0]) && TokenText(r.quantity)
    ensures r.quantity != "" ==> NoDigit(r.ingredient)
  {
    SplitFacts(line);
    SplitBy(line, Pattern)
  }

  /** `separate_units`: one record per input line, in input order. */
  function SeparateUnits(lines: seq<string>): (r: seq<Ingredient>)
    ensures |r| == |lines|
    ensures forall k :: 0 <= k < |lines| ==> r[k] == SplitIngredient(lines[k])
  {
    if |lines| == 0 then []
    else
      var rest := SeparateUnits(lines[1..]);
      var r := [SplitIngredient(lines[0])] + rest;
      assert forall k :: 0 <= k < |lines| ==> r[k] == SplitIngredient(lines[k]) by {
        forall k | 0 <= k < |lines| ensures r[k] == SplitIngredient(lines[k]) {
          if k > 0 {
            assert r[k] == rest[k - 1];
            assert lines[1..][k - 1] == lines[k];
          }
        }
      }
      r
  }

  lemma SplitFacts(line: string)
    ensures var r := SplitBy(line, Pattern);
      && (r.quantity == "" <==> !HasMatch(line))
      && (r.quantity == "" ==> r.ingredient == Strip(line))
      && (r.quantity != "" ==> IsDigit(r.quantity[0]) && TokenText(r.quantity))
      && (r.quantity != "" ==> NoDigit(r.ingredient))
  {
    match SearchFrom(line, Pattern, 0)
    case None =>
      NoMatchAnywhere(line);
    case Some(Found(i, ends)) =>
      MatchedParts(line, i, ends);
      MatchedIngredient(line, i, ends[GroupEnd], ends[MatchEnd], SplitBy(line, Pattern));
  }

  lemma NoMatchAnywhere(line: string)
    requires SearchFrom(line, Pattern, 0).None?
    ensures !HasMatch(line)
  {
  }

  lemma MatchedIngredient(line: string, i: nat, g: nat, m: nat, r: Ingredient)
    requires i < g <= m < |line|
    requires IsDigit(line[i]) && TokenText(line[i..g]) && NoDigit(line[m..])
    requires r == Ingredient(Strip(line[i..g]), Strip(line[m..]))
    ensures r.quantity != "" && IsDigit(r.quantity[0]) && TokenText(r.quantity)
    ensures NoDigit(r.ingredient)
  {
    var group := line[i..g];
    assert group[0] == line[i];
    StripKeeps(group, TokenChar);
    StripKeeps(line[m..], c => !IsDigit(c));
  }

  /** A line without any digit is never split. */
  lemma NoDigitNoSplit(line: string)
    requires NoDigit(line)
    ensures SplitIngredient(line) == Ingredient("", Strip(line))
  {
    forall j: nat, e | j <= |line| ensures !Path(line, Pattern, j, e) {
      if Path(line, Pattern, j, e) {
        MatchedParts(line, j, e);
        assert false;
      }
    }
  }

  /** A line that ends in a digit is never split: the lookahead needs
      digit-free text up to the end of the line. */
  lemma TrailingDigitNoSplit(line: string)
    requires |line| > 0 && IsDigit(line[|line| - 1])
    ensures SplitIngredient(line) == Ingredient("", Strip(line))
  {
    forall j: nat, e | j <= |line| ensures !Path(line, Pattern, j, e) {
      if Path(line, Pattern, j, e) {
        MatchedParts(line, j, e);
        assert false;
      }
    }
  }

  /** The facts every match establishes about where it cuts the line: a
      group from `i` to `g` and a tail from `m` on. */
  predicate Cut(line: string, i: nat, g: nat, m: nat) {
    && i < g < m < |line|
    && IsDigit(line[i])
    && TokenText(line[i..g])
    && AllSpace(line[g..m])
    && NoDigit(line[m..])
  }

  /** Every cut a match could make from `i` yields the pieces `q` and `t`. */
  ghost predicate CutsAgree(line: string, i: nat, q: string, t: string) {
    forall g: nat, m: nat :: Cut(line, i, g, m) ==> Strip(line[i..g]) == q && Strip(line[m..]) == t
  }

  lemma NoDigitBefore(line: string, i: nat, j: nat)
    requires j < i <= |line| && NoDigit(line[..i])
    ensures !IsDigit(line[j])
  {
    assert line[..i][j] == line[j];
  }

  /** A match starting at `i`, with no digit before it, is the one the
      search finds. */
  lemma SearchStartsAt(line: string, i: nat, e: seq<nat>)
    requires i <= |line| && Path(line, Pattern, i, e)
    requires NoDigit(line[..i])
    ensures SearchFrom(line, Pattern, 0).Some? && SearchFrom(line, Pattern, 0).value.start == i
  {
    var r := SearchFrom(line, Pattern, 0);
    var i', ends := r.value.start, r.value.ends;
    if i' < i {
      NoDigitBefore(line, i, i');
      MatchedParts(line, i', ends);
      assert false;
    }
  }

  /** When a match starts at `i`, none can start earlier, and every cut a
      match could make from `i` yields the same stripped pieces, those pieces
      are the split. */
  lemma SplitWhenDetermined(line: string, i: nat, e: seq<nat>, q: string, t: string)
    requires i <= |line| && Path(line, Pattern, i, e)
    requires NoDigit(line[..i])
    requires CutsAgree(line, i, q, t)
    ensures SplitIngredient(line) == Ingredient(q, t)
  {
    SearchStartsAt(line, i, e);
    var ends := SearchFrom(line, Pattern, 0).value.ends;
    MatchedParts(line, i, ends);
    assert Cut(line, i, ends[GroupEnd], ends[MatchEnd]);
  }

  /** On a line `pre + q + w + t` where the quantity `q` ends in a digit,
      `w` is whitespace and `t` starts with a character the pattern cannot
      consume, every cut from the start of `q` yields `q` and the stripped
      `t`. */
  lemma CutDetermined(pre: string, q: string, w: string, t: string)
    requires |q| > 0 && Trimmed(q) && IsDigit(q[|q| - 1])
    requires AllSpace(w) && |t| > 0 && !TokenChar(t[0])
    ensures CutsAgree(pre + q + w + t, |pre|, q, Strip(t))
  {
    forall g: nat, m: nat | Cut(pre + q + w + t, |pre|, g, m)
      ensures Strip((pre + q + w + t)[|pre|..g]) == q && Strip((pre + q + w + t)[m..]) == Strip(t)
    {
      CutBounds(pre, q, w, t, g, m);
      CutPieces(pre, q, w, t, g, m);
    }
  }

  lemma CutBounds(pre: string, q: string, w: string, t: string, g: nat, m: nat)
    requires |q| > 0 && IsDigit(q[|q| - 1])
    requires |t| > 0 && !TokenChar(t[0])
    requires Cut(pre + q + w + t, |pre|, g, m)
    ensures |pre| + |q| <= g < m <= |pre| + |q| + |w|
  {
    var line := pre + q + w + t;
    var i, n, k := |pre|, |q|, |w|;
    assert line[i + n - 1] == q[n - 1];
    assert line[i + n + k] == t[0];
    CutChars(line, i, g, m);
  }

  /** A cut, character by character. */
  lemma CutChars(line: string, i: nat, g: nat, m: nat)
    requires Cut(line, i, g, m)
    ensures forall j :: i <= j < g ==> TokenChar(line[j])
    ensures forall j :: g <= j < m ==> IsSpace(line[j])
    ensures forall j :: m <= j < |line| ==> !IsDigit(line[j])
  {
    forall j | i <= j < g ensures TokenChar(line[j]) { assert line[i..g][j - i] == line[j]; }
    forall j | g <= j < m ensures IsSpace(line[j]) { assert line[g..m][j - g] == line[j]; }
    forall j | m <= j < |line| ensures !IsDigit(line[j]) { assert line[m..][j - m] == line[j]; }
  }

  lemma CutPieces(pre: string, q: string, w: string, t: string, g: nat, m: nat)
    requires Trimmed(q) && AllSpace(w)
    requires |pre| + |q| <= g <= m <= |pre| + |q| + |w|
    ensures Strip((pre + q + w + t)[|pre|..g]) == q && Strip((pre + q + w + t)[m..]) == Strip(t)
  {
    GroupPiece(pre, q, w, t, g);
    TailPiece(pre, q, w, t, m);
  }

  lemma GroupPiece(pre: string, q: string, w: string, t: string, g: nat)
    requires Trimmed(q) && AllSpace(w)
    requires |pre| + |q| <= g <= |pre| + |q| + |w|
    ensures Strip((pre + q + w + t)[|pre|..g]) == q
  {
    var line := pre + q + w + t;
    var i, n := |pre|, |q|;
    var w1 := w[..g - i - n];
    assert line[i..g] == "" + q + w1;
    assert AllSpace(w1) by {
      forall k | 0 <= k < |w1| ensures IsSpace(w1[k]) { assert w1[k] == w[k]; }
    }
    StripPadded("", q, w1);
  }

  lemma TailPiece(pre: string, q: string, w: string, t: string, m: nat)
    requires AllSpace(w)
    requires |pre| + |q| <= m <= |pre| + |q| + |w|
    ensures Strip((pre + q + w + t)[m..]) == Strip(t)
  {
    var line := pre + q + w + t;
    var i, n := |pre|, |q|;
    var w2 := w[m - i - n..];
    assert line[m..] == w2 + t;
    assert AllSpace(w2) by {
      forall k | 0 <= k < |w2| ensures IsSpace(w2[k]) { assert w2[k] == w[m - i - n + k]; }
    }
    StripLeading(w2, t);
  }

  /** A quantity `q` that the group can consume, whitespace, then a
      description that starts with a character the pattern cannot consume:
      `q` is the quantity and whatever came before it is dropped. */
  lemma SplitShape(pre: string, q: string, w: string, t: string, e: seq<nat>)
    requires NoDigit(pre) && |q| > 0 && Trimmed(q) && IsDigit(q[|q| - 1])
    requires AllSpace(w) && |t| > 0 && !TokenChar(t[0])
    requires Path(pre + q + w + t, Pattern, |pre|, e)
    ensures SplitIngredient(pre + q + w + t) == Ingredient(q, Strip(t))
  {
    NoDigitLead(pre, q, w, t);
    CutDetermined(pre, q, w, t);
    SplitWhenDetermined(pre + q + w + t, |pre|, e, q, Strip(t));
  }

  lemma NoDigitLead(pre: string, q: string, w: string, t: string)
    requires NoDigit(pre)
    ensures NoDigit((pre + q + w + t)[..|pre|])
  {
    assert (pre + q + w + t)[..|pre|] == pre;
  }

  /** A whole number, whitespace, then a description. */
  lemma SplitWhole(line: string, pre: string, d: string, w: string, t: string)
    requires line == pre + d + w + t
    requires NoDigit(pre) && |d| > 0 && AllDigits(d)
    requires |w| > 0 && AllSpace(w)
    requires |t| > 0 && !TokenChar(t[0]) && NoDigit(t)
    ensures SplitIngredient(line) == Ingredient(d, Strip(t))
  {
    var e := WholeShapePath(pre, d, w, t);
    SplitShape(pre, d, w, t, e);
  }

  lemma WholeShapePath(pre: string, d: string, w: string, t: string) returns (e: seq<nat>)
    requires |d| > 0 && AllDigits(d)
    requires |w| > 0 && AllSpace(w)
    requires |t| > 0 && NoDigit(t)
    ensures Path(pre + d + w + t, Pattern, |pre|, e)
  {
    var n := |pre| + |d|;
    ShapeChars(pre, d, w, t);
    e := WholePath(pre + d + w + t, |pre|, n, n + |w|);
  }

  /** The characters of `pre + q + w + t`, piece by piece. */
  lemma ShapeChars(pre: string, q: string, w: string, t: string)
    requires AllSpace(w) && NoDigit(t)
    ensures forall j :: |pre| <= j < |pre| + |q| ==> (pre + q + w + t)[j] == q[j - |pre|]
    ensures forall j :: |pre| + |q| <= j < |pre| + |q| + |w| ==> IsSpace((pre + q + w + t)[j])
    ensures NoDigit((pre + q + w + t)[|pre| + |q| + |w|..])
  {
    var line := pre + q + w + t;
    assert line[|pre| + |q| + |w|..] == t;
    forall j | |pre| + |q| <= j < |pre| + |q| + |w| ensures IsSpace(line[j]) {
      assert line[j] == w[j - |pre| - |q|];
    }
  }

  lemma WholePath(line: string, i: nat, n: nat, m: nat) returns (e: seq<nat>)
    requires i < n < m < |line|
    requires forall j :: i <= j < n ==> IsDigit(line[j])
    requires forall j :: n <= j < m ==> IsSpace(line[j])
    requires NoDigit(line[m..])
    ensures Path(line, Pattern, i, e)
  {
    e := [n, n, n, n, n, n, n, n, n, m];
  }

  /** `d1/d2`, whitespace, then a description. */
  lemma SplitFraction(line: string, pre: string, d1: string, d2: string, w: string, t: string)
    requires line == pre + (d1 + "/" + d2) + w + t
    requires NoDigit(pre) && |d1| > 0 && AllDigits(d1) && |d2| > 0 && AllDigits(d2)
    requires |w| > 0 && AllSpace(w)
    requires |t| > 0 && !TokenChar(t[0]) && NoDigit(t)
    ensures SplitIngredient(line) == Ingredient(d1 + "/" + d2, Strip(t))
  {
    var q := d1 + "/" + d2;
    var e := FractionShapePath(pre, d1, d2, w, t);
    assert Trimmed(q) && IsDigit(q[|q| - 1]) by {
      assert q[0] == d1[0] && q[|q| - 1] == d2[|d2| - 1];
    }
    SplitShape(pre, q, w, t, e);
  }

  lemma FractionShapePath(pre: string, d1: string, d2: string, w: string, t: string) returns (e: seq<nat>)
    requires |d1| > 0 && AllDigits(d1) && |d2| > 0 && AllDigits(d2)
    requires |w| > 0 && AllSpace(w)
    requires |t| > 0 && NoDigit(t)
    ensures Path(pre + (d1 + "/" + d2) + w + t, Pattern, |pre|, e)
  {
    var q := d1 + "/" + d2;
    var a := |pre|;
    var b := a + |d1|;
    var c := b + 1 + |d2|;
    ShapeChars(pre, q, w, t);
    assert forall k :: 0 <= k < |d1| ==> q[k] == d1[k];
    assert q[|d1|] == '/';
    assert forall k :: |d1| < k < |q| ==> q[k] == d2[k - |d1| - 1];
    e := FractionPath(pre + q + w + t, a, b, c, c + |w|);
  }

  lemma FractionPath(line: string, a: nat, b: nat, c: nat, m: nat) returns (e: seq<nat>)
    requires a < b && b + 1 < c < m < |line|
    requires forall j :: a <= j < b ==> IsDigit(line[j])
    requires line[b] == '/'
    requires forall j :: b < j < c ==> IsDigit(line[j])
    requires forall j :: c <= j < m ==> IsSpace(line[j])
    requires NoDigit(line[m..])
    ensures Path(line, Pattern, a, e)
  {
    e := [b, b, b, b, b, b, b, b + 1, c, m];
    PathOfSpans(line, Pattern, a, e);
  }

  /** `d1 - d2`, whitespace, then a description. */
  lemma SplitRange(line: string, pre: string, d1: string, d2: string, w: string, t: string)
    requires line == pre + (d1 + " - " + d2) + w + t
    requires NoDigit(pre) && |d1| > 0 && AllDigits(d1) && |d2| > 0 && AllDigits(d2)
    requires |w| > 0 && AllSpace(w)
    requires |t| > 0 && !TokenChar(t[0]) && NoDigit(t)
    ensures SplitIngredient(line) == Ingredient(d1 + " - " + d2, Strip(t))
  {
    var q := d1 + " - " + d2;
    var e := RangeShapePath(pre, d1, d2, w, t);
    assert Trimmed(q) && IsDigit(q[|q| - 1]) by {
      assert q[0] == d1[0] && q[|q| - 1] == d2[|d2| - 1];
    }
    SplitShape(pre, q, w, t, e);
  }

  lemma RangeShapePath(pre: string, d1: string, d2: string, w: string, t: string) returns (e: seq<nat>)
    requires |d1| > 0 && AllDigits(d1) && |d2| > 0 && AllDigits(d2)
    requires |w| > 0 && AllSpace(w)
    requires |t| > 0 && NoDigit(t)
    ensures Path(pre + (d1 + " - " + d2) + w + t, Pattern, |pre|, e)
  {
    var q := d1 + " - " + d2;
    var a := |pre|;
    var b := a + |d1|;
    var c := b + 3 + |d2|;
    ShapeChars(pre, q, w, t);
    assert forall k :: 0 <= k < |d1| ==> q[k] == d1[k];
    assert q[|d1|] == ' ' && q[|d1| + 1] == '-' && q[|d1| + 2] == ' ';
    assert forall k :: |d1| + 2 < k < |q| ==> q[k] == d2[k - |d1| - 3];
    e := RangePath(pre + q + w + t, a, b, c, c + |w|);
  }

  lemma RangePath(line: string, a: nat, b: nat, c: nat, m: nat) returns (e: seq<nat>)
    requires a < b && b + 3 < c < m < |line|
    requires forall j :: a <= j < b ==> IsDigit(line[j])
    requires line[b] == ' ' && line[b + 1] == '-' && line[b + 2] == ' '
    requires forall j :: b + 2 < j < c ==> IsDigit(line[j])
    requires forall j :: c <= j < m ==> IsSpace(line[j])
    requires NoDigit(line[m..])
    ensures Path(line, Pattern, a, e)
  {
    e := [b, b, b, b + 1, b + 2, b + 3, c, c, c, m];
    PathOfSpans(line, Pattern, a, e);
  }

  /** `d1-d2` with no spaces around the hyphen, whitespace, then a
      description: the pattern's optional hyphen takes the whole token. */
  lemma SplitHyphen(line: string, pre: string, d1: string, d2: string, w: string, t: string)
    requires line == pre + (d1 + "-" + d2) + w + t
    requires NoDigit(pre) && |d1| > 0 && AllDigits(d1) && |d2| > 0 && AllDigits(d2)
    requires |w| > 0 && AllSpace(w)
    requires |t| > 0 && !TokenChar(t[0]) && NoDigit(t)
    ensures SplitIngredient(line) == Ingredient(d1 + "-" + d2, Strip(t))
  {
    var q := d1 + "-" + d2;
    var e := HyphenShapePath(pre, d1, d2, w, t);
    assert Trimmed(q) && IsDigit(q[|q| - 1]) by {
      assert q[0] == d1[0] && q[|q| - 1] == d2[|d2| - 1];
    }
    SplitShape(pre, q, w, t, e);
  }

  lemma HyphenShapePath(pre: string, d1: string, d2: string, w: string, t: string) returns (e: seq<nat>)
    requires |d1| > 0 && AllDigits(d1) && |d2| > 0 && AllDigits(d2)
    requires |w| > 0 && AllSpace(w)
    requires |t| > 0 && NoDigit(t)
    ensures Path(pre + (d1 + "-" + d2) + w + t, Pattern, |pre|, e)
  {
    var q := d1 + "-" + d2;
    var a := |pre|;
    var b := a + |d1|;
    var c := b + 1 + |d2|;
    ShapeChars(pre, q, w, t);
    assert forall k :: 0 <= k < |d1| ==> q[k] == d1[k];
    assert q[|d1|] == '-';
    assert forall k :: |d1| < k < |q| ==> q[k] == d2[k - |d1| - 1];
    e := HyphenPath(pre + q + w + t, a, b, c, c + |w|);
  }

  lemma HyphenPath(line: string, a: nat, b: nat, c: nat, m: nat) returns (e: seq<nat>)
    requires a < b && b + 1 < c < m < |line|
    requires forall j :: a <= j < b ==> IsDigit(line[j])
    requires line[b] == '-'
    requires forall j :: b < j < c ==> IsDigit(line[j])
    requires forall j :: c <= j < m ==> IsSpace(line[j])
    requires NoDigit(line[m..])
    ensures Path(line, Pattern, a, e)
  {
    e := [b, b, b, b, b + 1, b + 1, c, c, c, m];
    PathOfSpans(line, Pattern, a, e);
  }

  /** Digit-free text in front of a line that splits changes nothing: the
      text before the match is dropped. */
  lemma PrefixDropped(p: string, s: string)
    requires NoDigit(p) && SplitIngredient(s).quantity != ""
    ensures SplitIngredient(p + s) == SplitIngredient(s)
  {
    NoMatchInPrefix(p, s);
    SplitByPrefix(p, s, Pattern);
  }

  lemma NoMatchInPrefix(p: string, s: string)
    requires NoDigit(p)
    ensures forall j: nat, e :: j < |p| ==> !Path(p + s, Pattern, j, e)
  {
    forall j: nat, e | j < |p| ensures !Path(p + s, Pattern, j, e) {
      if Path(p + s, Pattern, j, e) {
        assert (p + s)[j] == p[j];
        MatchedParts(p + s, j, e);
        assert false;
      }
    }
  }

  lemma SplitByPrefix(p: string, s: string, ps: seq<Piece>)
    requires |ps| == |Pattern| && SearchFrom(s, ps, 0).Some?
    requires forall j: nat, e :: j < |p| ==> !Path(p + s, ps, j, e)
    ensures SplitBy(p + s, ps) == SplitBy(s, ps)
  {
    var f := SearchFrom(s, ps, 0).value;
    SplitByPrefixAt(p, s, ps, f.start, f.ends);
  }

  lemma SplitByFound(line: string, ps: seq<Piece>, i: nat, ends: seq<nat>)
    requires |ps| == |Pattern| && SearchFrom(line, ps, 0) == Some(Found(i, ends))
    ensures i <= ends[GroupEnd] <= ends[MatchEnd] <= |line|
    ensures SplitBy(line, ps) == Ingredient(Strip(line[i..ends[GroupEnd]]), Strip(line[ends[MatchEnd]..]))
  {
    GroupBounds(line, ps, i, ends);
  }

  lemma SliceAfter(p: string, s: string, a: nat, b: nat)
    requires a <= b <= |s|
    ensures (p + s)[|p| + a..|p| + b] == s[a..b]
    ensures (p + s)[|p| + a..] == s[a..]
  {
  }
}
