/** `parse_progress` (app.py:221-245): what one diagnostic line of the
    downloader does to a task's record. The two regular expressions are
    hand-written scanners, each proved equal to a literal transcription of its
    pattern with `re.search`'s leftmost-match rule. */
module LineParser {
  import opened Text
  import opened Wrappers
  import opened Records

  predicate IsDigitOrDot(c: char) {
    IsDigit(c) || c == '.'
  }

  /** A character that `[\d.]` or `\w` accepts. */
  predicate IsTokenChar(c: char) {
    IsWord(c) || c == '.'
  }

  // ---------------------------------------------------------------------
  // r"(\d+\.?\d*)%"
  // ---------------------------------------------------------------------

  /** The pattern matches `s[i..e + 1]`: `\d+` covers `s[i..k]`, `\.?` covers
      `s[k..m]`, `\d*` covers `s[m..e]` and `s[e]` is the `%`. The group is
      `s[i..e]`. */
  ghost predicate PercentAt(s: string, i: int, e: int) {
    0 <= i < e < |s| && s[e] == '%' &&
    exists k, m :: i < k <= m <= e && AllIn(s, i, k, IsDigit)
                   && (m == k || (m == k + 1 && s[k] == '.')) && AllIn(s, m, e, IsDigit)
  }

  /** The end of the percent match starting at `i`, if there is one. */
  function PercentEndAt(s: string, i: nat): (r: Option<nat>)
    requires i <= |s|
    ensures r.Some? ==> i < r.value < |s|
  {
    var k := SkipWhile(s, i, IsDigit);
    if k == i || k == |s| then None
    else if s[k] == '%' then Some(k)
    else if s[k] == '.' then
      var e := SkipWhile(s, k + 1, IsDigit);
      if e < |s| && s[e] == '%' then Some(e) else None
    else None
  }

  /** The scanner finds exactly the matches of the pattern at `i`; in
      particular a match at `i` has only one possible end. */
  lemma PercentEndAtCorrect(s: string, i: nat, e: int)
    requires i <= |s|
    ensures PercentAt(s, i, e) <==> PercentEndAt(s, i) == Some(e)
  {
    var k := SkipWhile(s, i, IsDigit);
    if PercentAt(s, i, e) {
      var k', m' :| i < k' <= m' <= e && AllIn(s, i, k', IsDigit)
                    && (m' == k' || (m' == k' + 1 && s[k'] == '.')) && AllIn(s, m', e, IsDigit);
      if m' == k' {
        SkipWhileUnique(s, i, IsDigit, e);
      } else {
        SkipWhileUnique(s, i, IsDigit, k');
        SkipWhileUnique(s, k' + 1, IsDigit, e);
      }
    } else if PercentEndAt(s, i) == Some(e) {
      if s[k] == '%' {
        assert AllIn(s, k, k, IsDigit);
      } else {
        assert AllIn(s, i, k, IsDigit) && AllIn(s, k + 1, e, IsDigit);
      }
      assert PercentAt(s, i, e);
    }
  }

  /** `re.search` from index `i`: the start and end of the leftmost match. */
  function FindPercent(s: string, i: nat): (r: Option<(nat, nat)>)
    requires i <= |s|
    ensures r.Some? ==> i <= r.value.0 < r.value.1 < |s| && PercentAt(s, r.value.0, r.value.1)
    ensures r.Some? ==> forall a, e :: i <= a < r.value.0 ==> !PercentAt(s, a, e)
    ensures r.None? ==> forall a, e :: i <= a ==> !PercentAt(s, a, e)
    decreases |s| - i
  {
    if i == |s| then None
    else
      var here := PercentEndAt(s, i);
      assert forall e :: PercentAt(s, i, e) <==> here == Some(e) by {
        forall e ensures PercentAt(s, i, e) <==> here == Some(e) {
          PercentEndAtCorrect(s, i, e);
        }
      }
      match here
      case Some(e) => Some((i, e))
      case None => FindPercent(s, i + 1)
  }

  /** The value `int(float(group))` the line sets "progress" to: the integer
      part of the leftmost percent number, truncated and not clamped. */
  function PercentValue(line: string): Option<nat> {
    match FindPercent(line, 0)
    case Some((a, _)) => Some(DigitsValue(line[a..SkipWhile(line, a, IsDigit)]))
    case None => None
  }

  // ---------------------------------------------------------------------
  // r"of\s+([\d.]+\w+)\s+at\s+([\d.]+\w+/s)"
  // ---------------------------------------------------------------------

  /** `[\d.]+\w+` matches `s[i..j]`: some split point `k` leaves a non-empty
      run of digits and dots followed by a non-empty run of word characters.
      Every split point is tried, as a backtracking matcher does. */
  predicate NumberWithUnit(s: string, i: int, j: int) {
    0 <= i && j <= |s| &&
    exists k | i < k < j :: AllIn(s, i, k, IsDigitOrDot) && AllIn(s, k, j, IsWord)
  }

  /** The pattern matches from `i`: group 1 is `s[p1..e1]`, group 2 is
      `s[p2..e2 + 2]` (the `/s` included), the whitespace runs are non-empty and the literal parts
      are where they must be. */
  ghost predicate SpeedAt(s: string, i: int, p1: int, e1: int, p2: int, e2: int) {
    0 <= i && i + 2 <= |s| && s[i..i + 2] == "of"
    && i + 2 < p1 && AllIn(s, i + 2, p1, IsSpace) && NumberWithUnit(s, p1, e1)
    && exists q :: e1 < q && AllIn(s, e1, q, IsSpace) && q + 2 <= |s| && s[q..q + 2] == "at"
                   && q + 2 < p2 && AllIn(s, q + 2, p2, IsSpace) && NumberWithUnit(s, p2, e2)
                   && e2 + 2 <= |s| && s[e2..e2 + 2] == "/s"
  }

  /** The bounds of the rate group when `at\s+([\d.]+\w+/s)` matches from
      `q`. */
  function RateAt(s: string, q: nat): (r: Option<(nat, nat)>)
    requires q <= |s|
    ensures r.Some? ==> q + 2 < r.value.0 < r.value.1 && r.value.1 + 2 <= |s|
  {
    if q + 2 <= |s| && s[q..q + 2] == "at" then
      var p2 := SkipWhile(s, q + 2, IsSpace);
      var e2 := SkipWhile(s, p2, IsTokenChar);
      if p2 > q + 2 && NumberWithUnit(s, p2, e2) && e2 + 2 <= |s| && s[e2..e2 + 2] == "/s"
      then Some((p2, e2))
      else None
    else None
  }

  /** The group bounds of the match starting at `i`, if there is one. */
  function SpeedAtIndex(s: string, i: nat): (r: Option<(nat, nat, nat, nat)>)
    requires i <= |s|
    ensures r.Some? ==> i < r.value.0 < r.value.1 < r.value.2 < r.value.3 && r.value.3 + 2 <= |s|
  {
    if i + 2 <= |s| && s[i..i + 2] == "of" then
      var p1 := SkipWhile(s, i + 2, IsSpace);
      var e1 := SkipWhile(s, p1, IsTokenChar);
      var q := SkipWhile(s, e1, IsSpace);
      if p1 > i + 2 && NumberWithUnit(s, p1, e1) && q > e1 then
        match RateAt(s, q)
        case Some((p2, e2)) => Some((p1, e1, p2, e2))
        case None => None
      else None
    else None
  }

  lemma RateAtComplete(s: string, q: nat, p2: int, e2: int)
    requires q + 2 <= |s| && s[q..q + 2] == "at"
    requires q + 2 < p2 && AllIn(s, q + 2, p2, IsSpace) && NumberWithUnit(s, p2, e2)
    requires e2 + 2 <= |s| && s[e2..e2 + 2] == "/s"
    ensures RateAt(s, q) == Some((p2, e2))
  {
    assert s[e2] == s[e2..e2 + 2][0];
    GroupEnd(s, p2, e2);
    SkipWhileUnique(s, q + 2, IsSpace, p2);
  }

  /** Each whitespace run ends at a character that cannot be whitespace and
      each group ends at a character that cannot continue it, so a match at
      `i` has one set of group bounds, and the scanner finds it. */
  lemma SpeedAtIndexComplete(s: string, i: nat, p1: int, e1: int, p2: int, e2: int)
    requires i <= |s|
    requires SpeedAt(s, i, p1, e1, p2, e2)
    ensures SpeedAtIndex(s, i) == Some((p1, e1, p2, e2))
  {
    var q :| e1 < q && AllIn(s, e1, q, IsSpace) && q + 2 <= |s| && s[q..q + 2] == "at"
             && q + 2 < p2 && AllIn(s, q + 2, p2, IsSpace) && NumberWithUnit(s, p2, e2)
             && e2 + 2 <= |s| && s[e2..e2 + 2] == "/s";
    assert s[q] == s[q..q + 2][0];
    RateAtComplete(s, q, p2, e2);
    GroupEnd(s, p1, e1);
    SkipWhileUnique(s, i + 2, IsSpace, p1);
    SkipWhileUnique(s, e1, IsSpace, q);
  }

  /** A group of `[\d.]+\w+` starts with a digit or a dot and, when the next
      character cannot continue it, ends where the run of such characters ends. */
  lemma GroupEnd(s: string, p: int, e: int)
    requires NumberWithUnit(s, p, e) && e < |s| && !IsTokenChar(s[e])
    ensures !IsSpace(s[p]) && SkipWhile(s, p, IsTokenChar) == e
  {
    var k :| p < k < e && AllIn(s, p, k, IsDigitOrDot) && AllIn(s, k, e, IsWord);
    assert IsDigitOrDot(s[p]);
    assert forall j :: p <= j < e ==> IsTokenChar(s[j]) by {
      forall j | p <= j < e ensures IsTokenChar(s[j]) {
        if j < k { assert IsDigitOrDot(s[j]); } else { assert IsWord(s[j]); }
      }
    }
    SkipWhileUnique(s, p, IsTokenChar, e);
  }

  lemma SpeedAtIndexSound(s: string, i: nat)
    requires i <= |s|
    requires SpeedAtIndex(s, i).Some?
    ensures var (p1, e1, p2, e2) := SpeedAtIndex(s, i).value; SpeedAt(s, i, p1, e1, p2, e2)
  {
    var (p1, e1, p2, e2) := SpeedAtIndex(s, i).value;
    var q := SkipWhile(s, e1, IsSpace);
    assert AllIn(s, e1, q, IsSpace);
    assert RateAt(s, q) == Some((p2, e2));
    assert AllIn(s, q + 2, p2, IsSpace);
  }

  lemma SpeedAtIndexCorrect(s: string, i: nat, p1: int, e1: int, p2: int, e2: int)
    requires i <= |s|
    ensures SpeedAt(s, i, p1, e1, p2, e2) <==> SpeedAtIndex(s, i) == Some((p1, e1, p2, e2))
  {
    if SpeedAt(s, i, p1, e1, p2, e2) {
      SpeedAtIndexComplete(s, i, p1, e1, p2, e2);
    } else if SpeedAtIndex(s, i) == Some((p1, e1, p2, e2)) {
      SpeedAtIndexSound(s, i);
    }
  }

  /** `re.search` from index `i`: the start and the group bounds of the
      leftmost match. */
  function FindSpeed(s: string, i: nat): (r: Option<(nat, nat, nat, nat, nat)>)
    requires i <= |s|
    ensures r.Some? ==> i <= r.value.0 < r.value.1 < r.value.2 < r.value.3 < r.value.4 && r.value.4 + 2 <= |s|
    ensures r.Some? ==> SpeedAt(s, r.value.0, r.value.1, r.value.2, r.value.3, r.value.4)
    ensures r.Some? ==> forall a, p1, e1, p2, e2 :: i <= a < r.value.0 ==> !SpeedAt(s, a, p1, e1, p2, e2)
    ensures r.None? ==> forall a, p1, e1, p2, e2 :: i <= a ==> !SpeedAt(s, a, p1, e1, p2, e2)
    decreases |s| - i
  {
    if i == |s| then None
    else
      var here := SpeedAtIndex(s, i);
      assert forall p1, e1, p2, e2 :: SpeedAt(s, i, p1, e1, p2, e2) <==> here == Some((p1, e1, p2, e2)) by {
        forall p1, e1, p2, e2 ensures SpeedAt(s, i, p1, e1, p2, e2) <==> here == Some((p1, e1, p2, e2)) {
          SpeedAtIndexCorrect(s, i, p1, e1, p2, e2);
        }
      }
      match here
      case Some((p1, e1, p2, e2)) => Some((i, p1, e1, p2, e2))
      case None => FindSpeed(s, i + 1)
  }

  /** Groups 1 and 2 of the leftmost match: the amount, and the rate with
      its `/s`. */
  function SpeedValue(line: string): Option<(string, string)> {
    match FindSpeed(line, 0)
    case Some((_, p1, e1, p2, e2)) => Some((line[p1..e1], line[p2..e2 + 2]))
    case None => None
  }

  // ---------------------------------------------------------------------
  // The effect of one line
  // ---------------------------------------------------------------------

  const DestinationMarker: string := "Destination:"
  const MergeMarker: string := "Merging formats into"
  const PostprocessMarker: string := "Postprocessing"

  /** The record after `parse_progress(line, task_id)`, for a task that is in
      the table: the measurements, then the status markers. */
  function ApplyLine(r: Record, line: string): Record {
    Marked(Measured(r, line), line)
  }

  /** The percent, then the size and rate. */
  function Measured(r: Record, line: string): Record {
    var r1 := match PercentValue(line) case Some(v) => r.(progress := v) case None => r;
    match SpeedValue(line)
    case Some((amount, rate)) => r1.(downloaded := Some(amount), speed := Some(rate))
    case None => r1
  }

  /** The three status markers in source order, each overwriting the status. */
  function Marked(r: Record, line: string): Record {
    var r3 := if Contains(line, DestinationMarker) then r.(status := Processing) else r;
    var r4 := if Contains(line, MergeMarker) then r3.(status := Merging) else r3;
    if Contains(line, PostprocessMarker) then r4.(status := Postprocessing) else r4
  }

  /** The lines handed over one by one, in order. */
  function ApplyLines(r: Record, lines: seq<string>): Record
    decreases |lines|
  {
    if lines == [] then r else ApplyLines(ApplyLine(r, lines[0]), lines[1..])
  }

  lemma ApplyLinesSnoc(r: Record, lines: seq<string>, line: string)
    ensures ApplyLines(r, lines + [line]) == ApplyLine(ApplyLines(r, lines), line)
    decreases |lines|
  {
    if lines != [] {
      assert (lines + [line])[1..] == lines[1..] + [line];
      ApplyLinesSnoc(ApplyLine(r, lines[0]), lines[1..], line);
    }
  }

  // ---------------------------------------------------------------------
  // What a line sets
  // ---------------------------------------------------------------------

  /** A line whose first number is followed by `%` sets "progress" to that
      number's integer part: `45%` and `45.7%` both give 45. */
  lemma {:induction false} PercentOfNumber(pre: string, n: nat, frac: string, post: string)
    requires forall j :: 0 <= j < |pre| ==> !IsDigit(pre[j])
    requires frac == [] || (frac[0] == '.' && AllDigits(frac[1..]))
    ensures PercentValue(pre + NatToString(n) + frac + "%" + post) == Some(n)
  {
    var line := pre + NatToString(n) + frac + "%" + post;
    var ds := NatToString(n);
    var a, k := |pre|, |pre| + |ds|;
    var e := k + |frac|;
    assert line[a..k] == ds;
    assert line[e] == '%';
    assert AllIn(line, a, k, IsDigit);
    if frac == [] {
      assert AllIn(line, k, e, IsDigit);
      assert PercentAt(line, a, e);
    } else {
      assert line[k] == '.';
      assert AllIn(line, k + 1, e, IsDigit);
      assert PercentAt(line, a, e);
    }
    forall a', e' | 0 <= a' < a ensures !PercentAt(line, a', e') {
      assert line[a'] == pre[a'];
    }
    var found := FindPercent(line, 0);
    assert found.Some? && found.value.0 == a;
    assert !IsDigit(line[k]);
    SkipWhileUnique(line, a, IsDigit, k);
    DigitsValueOfNatToString(n);
  }

  /** `[\d.]+\w+` matches the same text wherever it stands. */
  lemma NumberWithUnitShift(s: string, off: nat, t: string)
    requires off + |t| <= |s| && s[off..off + |t|] == t
    requires NumberWithUnit(t, 0, |t|)
    ensures NumberWithUnit(s, off, off + |t|)
  {
    var k :| 0 < k < |t| && AllIn(t, 0, k, IsDigitOrDot) && AllIn(t, k, |t|, IsWord);
    assert forall j :: 0 <= j < |t| ==> s[off + j] == t[j];
    assert AllIn(s, off, off + k, IsDigitOrDot);
    assert AllIn(s, off + k, off + |t|, IsWord);
  }

  /** When `x + piece` starts `s`, `piece` sits right after `x`. */
  lemma Piece(s: string, x: string, piece: string)
    requires |x| + |piece| <= |s| && s[..|x| + |piece|] == x + piece
    ensures s[..|x|] == x && s[|x|..|x| + |piece|] == piece
  {
    assert s[..|x|] == s[..|x| + |piece|][..|x|];
    assert s[|x|..|x| + |piece|] == s[..|x| + |piece|][|x|..];
  }

  /** Where the parts of `of <sp1> <amount> <sp2> at <sp3> <rate>/s` sit in a
      line that starts with that text. */
  lemma SpeedLineLayout(line: string, sp1: string, amount: string, sp2: string, sp3: string, rate: string)
    requires |line| >= |sp1| + |amount| + |sp2| + |sp3| + |rate| + 6
    requires line[..|sp1| + |amount| + |sp2| + |sp3| + |rate| + 6] == "of" + sp1 + amount + sp2 + "at" + sp3 + rate + "/s"
    ensures var p1 := 2 + |sp1|;
            var e1 := p1 + |amount|;
            var q := e1 + |sp2|;
            var p2 := q + 2 + |sp3|;
            var e2 := p2 + |rate|;
            && line[0..2] == "of" && line[2..p1] == sp1 && line[p1..e1] == amount && line[e1..q] == sp2
            && line[q..q + 2] == "at" && line[q + 2..p2] == sp3 && line[p2..e2] == rate
            && line[e2..e2 + 2] == "/s" && line[p2..e2 + 2] == rate + "/s"
  {
    var x1 := "of" + sp1;
    var x2 := x1 + amount;
    var x3 := x2 + sp2;
    var x4 := x3 + "at";
    var x5 := x4 + sp3;
    var x6 := x5 + rate;
    var p1, e1, q, p2, e2 := |x1|, |x2|, |x3|, |x5|, |x6|;
    assert line[..e2] == x6 && line[e2..e2 + 2] == "/s" && line[p2..e2 + 2] == rate + "/s" by {
      Piece(line, x6, "/s");
      Piece(line, x5, rate + "/s");
    }
    assert line[..p2] == x5 && line[p2..e2] == rate by {
      Piece(line, x5, rate);
    }
    assert line[..q + 2] == x4 && line[q + 2..p2] == sp3 by {
      Piece(line, x4, sp3);
    }
    assert line[..q] == x3 && line[q..q + 2] == "at" by {
      Piece(line, x3, "at");
    }
    assert line[..e1] == x2 && line[e1..q] == sp2 by {
      Piece(line, x2, sp2);
    }
    assert line[..p1] == x1 && line[p1..e1] == amount by {
      Piece(line, x1, amount);
    }
    assert line[..2] == "of" && line[2..p1] == sp1 by {
      Piece(line, "of", sp1);
    }
    assert line[0..2] == "of" by {
      Piece(line, [], "of");
    }
  }

  /** The text `of <sp1> <amount> <sp2> at <sp3> <rate>/s` matches the
      pattern at its start. */
  lemma SpeedLineMatches(line: string, sp1: string, amount: string, sp2: string, sp3: string, rate: string)
    requires |sp1| > 0 && AllIn(sp1, 0, |sp1|, IsSpace)
    requires |sp2| > 0 && AllIn(sp2, 0, |sp2|, IsSpace)
    requires |sp3| > 0 && AllIn(sp3, 0, |sp3|, IsSpace)
    requires NumberWithUnit(amount, 0, |amount|) && NumberWithUnit(rate, 0, |rate|)
    requires |line| >= |sp1| + |amount| + |sp2| + |sp3| + |rate| + 6
    requires line[..|sp1| + |amount| + |sp2| + |sp3| + |rate| + 6] == "of" + sp1 + amount + sp2 + "at" + sp3 + rate + "/s"
    ensures var p2 := |sp1| + |amount| + |sp2| + |sp3| + 4;
            && SpeedAt(line, 0, 2 + |sp1|, 2 + |sp1| + |amount|, p2, p2 + |rate|)
            && line[2 + |sp1|..2 + |sp1| + |amount|] == amount
            && line[p2..p2 + |rate| + 2] == rate + "/s"
  {
    SpeedLineLayout(line, sp1, amount, sp2, sp3, rate);
    SpeedAtOfLayout(line, 2 + |sp1|, sp1, amount, sp2, sp3, rate);
  }

  /** The parts in place make a match at 0. */
  lemma SpeedAtOfLayout(line: string, p1: int, sp1: string, amount: string, sp2: string, sp3: string, rate: string)
    requires p1 == 2 + |sp1|
    requires |sp1| > 0 && AllIn(sp1, 0, |sp1|, IsSpace)
    requires |sp2| > 0 && AllIn(sp2, 0, |sp2|, IsSpace)
    requires |sp3| > 0 && AllIn(sp3, 0, |sp3|, IsSpace)
    requires NumberWithUnit(amount, 0, |amount|) && NumberWithUnit(rate, 0, |rate|)
    requires var e1 := p1 + |amount|;
             var q := e1 + |sp2|;
             var p2 := q + 2 + |sp3|;
             var e2 := p2 + |rate|;
             && e2 + 2 <= |line|
             && line[0..2] == "of" && line[2..p1] == sp1 && line[p1..e1] == amount && line[e1..q] == sp2
             && line[q..q + 2] == "at" && line[q + 2..p2] == sp3 && line[p2..e2] == rate
             && line[e2..e2 + 2] == "/s"
    ensures SpeedAt(line, 0, p1, p1 + |amount|, p1 + |amount| + |sp2| + 2 + |sp3|, p1 + |amount| + |sp2| + 2 + |sp3| + |rate|)
  {
    var e1 := p1 + |amount|;
    var q := e1 + |sp2|;
    var p2 := q + 2 + |sp3|;
    assert AllIn(line, 2, p1, IsSpace) by {
      assert forall j :: 2 <= j < p1 ==> line[j] == sp1[j - 2];
    }
    assert AllIn(line, e1, q, IsSpace) by {
      assert forall j :: e1 <= j < q ==> line[j] == sp2[j - e1];
    }
    assert AllIn(line, q + 2, p2, IsSpace) by {
      assert forall j :: q + 2 <= j < p2 ==> line[j] == sp3[j - q - 2];
    }
    NumberWithUnitShift(line, p1, amount);
    NumberWithUnitShift(line, p2, rate);
  }

  /** A line that starts `of <amount> at <rate>/s` sets "downloaded" to the
      amount and "speed" to the rate followed by `/s`. */
  lemma {:induction false} SpeedOfAmountAndRate(sp1: string, amount: string, sp2: string, sp3: string, rate: string, post: string)
    requires |sp1| > 0 && AllIn(sp1, 0, |sp1|, IsSpace)
    requires |sp2| > 0 && AllIn(sp2, 0, |sp2|, IsSpace)
    requires |sp3| > 0 && AllIn(sp3, 0, |sp3|, IsSpace)
    requires NumberWithUnit(amount, 0, |amount|) && NumberWithUnit(rate, 0, |rate|)
    ensures SpeedValue("of" + sp1 + amount + sp2 + "at" + sp3 + rate + "/s" + post) == Some((amount, rate + "/s"))
  {
    var head := "of" + sp1 + amount + sp2 + "at" + sp3 + rate + "/s";
    var line := head + post;
    assert line[..|head|] == head;
    var p1 := 2 + |sp1|;
    var e1 := p1 + |amount|;
    var p2 := |sp1| + |amount| + |sp2| + |sp3| + 4;
    var e2 := p2 + |rate|;
    SpeedLineMatches(line, sp1, amount, sp2, sp3, rate);
    assert line[p1..e1] == amount;
    assert line[p2..e2 + 2] == rate + "/s";
    SpeedValueOfMatchAtStart(line, p1, e1, p2, e2);
    assert SpeedValue(line) == Some((amount, rate + "/s"));
  }

  /** When the pattern matches at the very start of the line, the groups of
      that match are the ones the line sets. */
  lemma SpeedValueOfMatchAtStart(line: string, p1: int, e1: int, p2: int, e2: int)
    requires SpeedAt(line, 0, p1, e1, p2, e2)
    ensures 0 <= p1 <= e1 <= p2 <= e2 && e2 + 2 <= |line|
    ensures SpeedValue(line) == Some((line[p1..e1], line[p2..e2 + 2]))
  {
    SpeedAtIndexCorrect(line, 0, p1, e1, p2, e2);
    FindSpeedAtStart(line, p1, e1, p2, e2);
  }

  lemma FindSpeedAtStart(line: string, p1: nat, e1: nat, p2: nat, e2: nat)
    requires SpeedAtIndex(line, 0) == Some((p1, e1, p2, e2))
    ensures FindSpeed(line, 0) == Some((0, p1, e1, p2, e2))
  {
  }

  /** The three markers only ever set "status", and when a line holds several
      the last one checked wins: Postprocessing over Merging over Destination.
      No line touches "filename" or "error", and the markers leave "progress",
      "speed" and "downloaded" as the two patterns set them. */
  lemma MarkerPrecedence(r: Record, line: string)
    ensures ApplyLine(r, line).status ==
      if Contains(line, PostprocessMarker) then Postprocessing
      else if Contains(line, MergeMarker) then Merging
      else if Contains(line, DestinationMarker) then Processing
      else r.status
    ensures ApplyLine(r, line).filename == r.filename && ApplyLine(r, line).error == r.error
    ensures ApplyLine(r, line).progress == Measured(r, line).progress
    ensures ApplyLine(r, line).speed == Measured(r, line).speed
    ensures ApplyLine(r, line).downloaded == Measured(r, line).downloaded
  {
    var m := Measured(r, line);
    assert m.status == r.status && m.filename == r.filename && m.error == r.error;
    var d := Contains(line, DestinationMarker);
    var g := Contains(line, MergeMarker);
    var q := Contains(line, PostprocessMarker);
    var r3 := if d then m.(status := Processing) else m;
    var r4 := if g then r3.(status := Merging) else r3;
    assert Marked(m, line) == if q then r4.(status := Postprocessing) else r4;
  }

  /** A line with no match of either pattern and no marker leaves the record
      as it was. */
  lemma ApplyLineUnrecognised(r: Record, line: string)
    requires forall a, e :: !PercentAt(line, a, e)
    requires forall a, p1, e1, p2, e2 :: !SpeedAt(line, a, p1, e1, p2, e2)
    requires !Contains(line, DestinationMarker) && !Contains(line, MergeMarker) && !Contains(line, PostprocessMarker)
    ensures ApplyLine(r, line) == r
  {
  }

  lemma FortyFive()
    ensures NatToString(45) == "45"
  {
    assert NatToString(4) == "4";
    assert 45 / 10 == 4 && 45 % 10 == 5;
  }

  /** `45.7%` sets "progress" to 45. */
  lemma PercentExample(r: Record, line: string)
    requires line == "45.7%"
    ensures ApplyLine(r, line).progress == 45
  {
    FortyFive();
    PercentOfNumber([], 45, ".7", []);
    assert [] + NatToString(45) + ".7" + "%" + [] == line;
  }
}
