/** The way `download_video` cuts the downloader's diagnostic stream into
    lines (app.py:357-371): the stream is read one character at a time, `\r`
    and `\n` both end a line, each line is stripped, empty lines are skipped
    and the text after the last terminator is never handed on. */
module LineSplitter {
  import opened Text

  predicate IsTerminator(c: char) {
    c == '\r' || c == '\n'
  }

  /** A stripped line is handed on only when it is not empty. */
  function Keep(line: string): seq<string> {
    if line == [] then [] else [line]
  }

  /** The buffer left over and the lines handed to `parse_progress` after
      reading the text `s` character by character. */
  function Split(s: string): (string, seq<string>)
    decreases |s|
  {
    if s == [] then ([], [])
    else
      var (buffer, lines) := Split(s[..|s| - 1]);
      var c := s[|s| - 1];
      if IsTerminator(c) then ([], lines + Keep(Strip(buffer)))
      else (buffer + [c], lines)
  }

  /** The lines handed on for the text `s`. */
  function Lines(s: string): seq<string> {
    Split(s).1
  }

  /** What the buffer holds after reading `s`. */
  function Pending(s: string): string {
    Split(s).0
  }

  /** Reading one more character from the stream. */
  lemma SplitSnoc(s: string, c: char)
    ensures Pending(s + [c]) == if IsTerminator(c) then [] else Pending(s) + [c]
    ensures Lines(s + [c]) == Lines(s) + if IsTerminator(c) then Keep(Strip(Pending(s))) else []
  {
    assert (s + [c])[..|s|] == s;
  }

  /** The buffer is exactly the text after the last terminator. */
  lemma {:induction false} PendingIsLastLine(s: string)
    ensures |Pending(s)| <= |s| && Pending(s) == s[|s| - |Pending(s)|..]
    ensures forall k :: 0 <= k < |Pending(s)| ==> !IsTerminator(Pending(s)[k])
    ensures |Pending(s)| < |s| ==> IsTerminator(s[|s| - |Pending(s)| - 1])
    decreases |s|
  {
    if s != [] {
      var p := s[..|s| - 1];
      var c := s[|s| - 1];
      assert s == p + [c];
      SplitSnoc(p, c);
      if !IsTerminator(c) {
        PendingIsLastLine(p);
        var t := Pending(p);
        assert Pending(s) == t + [c];
        assert t + [c] == s[|p| - |t|..] by {
          assert s[|p| - |t|..] == p[|p| - |t|..] + [c];
        }
        assert forall k :: 0 <= k < |t| ==> (t + [c])[k] == t[k];
        if |t| < |p| {
          assert s[|s| - |t + [c]| - 1] == p[|p| - |t| - 1];
        }
      }
    }
  }

  /** Every line handed on is non-empty, stripped and holds no terminator. */
  lemma {:induction false} LinesWellFormed(s: string)
    ensures forall line :: line in Lines(s) ==> WellFormedLine(line)
    decreases |s|
  {
    if s != [] {
      var p := s[..|s| - 1];
      var c := s[|s| - 1];
      LinesWellFormed(p);
      SplitSnoc(p, c);
      assert s == p + [c];
      if IsTerminator(c) {
        BufferLineWellFormed(p);
      }
    }
  }

  /** The buffer, stripped, is a well-formed line when it is not empty. */
  lemma BufferLineWellFormed(s: string)
    ensures forall line :: line in Keep(Strip(Pending(s))) ==> WellFormedLine(line)
  {
    var t := Pending(s);
    assert '\r' !in t && '\n' !in t by {
      PendingIsLastLine(s);
      forall k | 0 <= k < |t| ensures t[k] != '\r' && t[k] != '\n' {
        assert !IsTerminator(t[k]);
      }
    }
    var line := Strip(t);
    assert '\r' !in line && '\n' !in line;
  }

  predicate WellFormedLine(line: string) {
    line != [] && IsStripped(line) && '\r' !in line && '\n' !in line
  }

  /** Reading `a` and then `b` hands on the lines of `a` followed by the lines
      of `b` read after the buffer `a` left. */
  lemma {:induction false} SplitAppend(a: string, b: string)
    ensures Lines(a + b) == Lines(a) + Lines(Pending(a) + b)
    ensures Pending(a + b) == Pending(Pending(a) + b)
    decreases |b|
  {
    if b == [] {
      assert a + b == a;
      assert Pending(a) + b == Pending(a);
      PendingIsLastLine(a);
      NoTerminatorPending(Pending(a));
    } else {
      var b' := b[..|b| - 1];
      var c := b[|b| - 1];
      SplitAppend(a, b');
      assert a + b == (a + b') + [c];
      assert Pending(a) + b == (Pending(a) + b') + [c];
      SplitSnoc(a + b', c);
      SplitSnoc(Pending(a) + b', c);
      var tail := if IsTerminator(c) then Keep(Strip(Pending(a + b'))) else [];
      assert Lines(a + b) == Lines(a + b') + tail;
      assert Lines(Pending(a) + b) == Lines(Pending(a) + b') + tail;
      assert Lines(a + b) == Lines(a) + (Lines(Pending(a) + b') + tail);
    }
  }

  /** Text without a terminator stays in the buffer and hands on nothing. */
  lemma {:induction false} NoTerminatorPending(s: string)
    requires forall k :: 0 <= k < |s| ==> !IsTerminator(s[k])
    ensures Pending(s) == s && Lines(s) == []
    decreases |s|
  {
    if s != [] {
      var p := s[..|s| - 1];
      NoTerminatorPending(p);
      SplitSnoc(p, s[|s| - 1]);
      assert s == p + [s[|s| - 1]];
    }
  }

  /** A complete line `text` + `\n` after `s` hands on exactly one more line
      (what the buffer held followed by `text`, stripped, when not empty), and
      empties the buffer. */
  lemma CompleteLine(s: string, text: string)
    requires forall k :: 0 <= k < |text| ==> !IsTerminator(text[k])
    ensures Lines(s + text + "\n") == Lines(s) + Keep(Strip(Pending(s) + text))
    ensures Pending(s + text + "\n") == []
  {
    SplitAppend(s, text);
    var t := Pending(s);
    PendingIsLastLine(s);
    assert forall k :: 0 <= k < |t + text| ==> !IsTerminator((t + text)[k]);
    NoTerminatorPending(t + text);
    SplitSnoc(s + text, '\n');
  }

  /** Text that holds no terminator and follows everything else is never
      handed on, whatever came before it. */
  lemma IgnoreTail(s: string, tail: string)
    requires forall k :: 0 <= k < |tail| ==> !IsTerminator(tail[k])
    ensures Lines(s + tail) == Lines(s)
  {
    SplitAppend(s, tail);
    PendingIsLastLine(s);
    var t := Pending(s);
    assert forall k :: 0 <= k < |t + tail| ==> !IsTerminator((t + tail)[k]);
    NoTerminatorPending(t + tail);
  }

  /** `s` with every `\r` replaced by `\n`. */
  function CrToLf(s: string): (r: string)
    ensures |r| == |s|
    ensures forall k :: 0 <= k < |s| ==> r[k] == if s[k] == '\r' then '\n' else s[k]
  {
    seq(|s|, k requires 0 <= k < |s| => if s[k] == '\r' then '\n' else s[k])
  }

  /** A carriage return ends a line exactly as a newline does: progress bars
      that redraw themselves with `\r` are reported line by line. */
  lemma {:induction false} LinesCrAsLf(s: string)
    ensures Lines(CrToLf(s)) == Lines(s) && Pending(CrToLf(s)) == Pending(s)
    decreases |s|
  {
    if s != [] {
      var p := s[..|s| - 1];
      var c := s[|s| - 1];
      var c' := if c == '\r' then '\n' else c;
      LinesCrAsLf(p);
      assert s == p + [c];
      assert CrToLf(s) == CrToLf(p) + [c'];
      SplitSnoc(p, c);
      SplitSnoc(CrToLf(p), c');
    }
  }

  /** `s` as a stream opened with universal newlines (`text=True`,
      app.py:344-352) delivers it: `\r\n` becomes `\n` and a lone `\r`
      becomes `\n`. */
  function UniversalNewlines(s: string): string
    decreases |s|
  {
    if s == [] then []
    else if EndsWithCrLf(s) then UniversalNewlines(s[..|s| - 2]) + "\n"
    else UniversalNewlines(s[..|s| - 1]) + [Translated(s[|s| - 1])]
  }

  predicate EndsWithCrLf(s: string) {
    |s| >= 2 && s[|s| - 2] == '\r' && s[|s| - 1] == '\n'
  }

  /** A single character after newline translation. */
  function Translated(c: char): char {
    if c == '\r' then '\n' else c
  }

  /** The loop sees the stream after newline translation, but the lines are
      the same as on the raw text: the empty line between `\r` and `\n` is
      skipped anyway. */
  lemma {:induction false} LinesUniversalNewlines(s: string)
    ensures Lines(UniversalNewlines(s)) == Lines(s)
    ensures Pending(UniversalNewlines(s)) == Pending(s)
    decreases |s|
  {
    if s != [] {
      if EndsWithCrLf(s) {
        var p := s[..|s| - 2];
        CrLfLast(s);
        assert s == p + "\r\n";
        LinesUniversalNewlines(p);
        CrLfStep(p, UniversalNewlines(p));
      } else {
        var p := s[..|s| - 1];
        var c := s[|s| - 1];
        CharLast(s);
        assert s == p + [c];
        LinesUniversalNewlines(p);
        CharStep(p, UniversalNewlines(p), c);
      }
    }
  }

  /** A text ending in `\r\n` is translated up to it, then `\n`. */
  lemma CrLfLast(s: string)
    requires EndsWithCrLf(s)
    ensures UniversalNewlines(s) == UniversalNewlines(s[..|s| - 2]) + "\n"
  {
  }

  /** A text ending in any other character is translated up to it, then the
      character, with `\r` as `\n`. */
  lemma CharLast(s: string)
    requires s != [] && !EndsWithCrLf(s)
    ensures UniversalNewlines(s) == UniversalNewlines(s[..|s| - 1]) + [Translated(s[|s| - 1])]
  {
  }

  /** `\r\n` after `p` does what `\n` does after a text `u` that splits like
      `p`. */
  lemma CrLfStep(p: string, u: string)
    requires Lines(u) == Lines(p) && Pending(u) == Pending(p)
    ensures Lines(u + "\n") == Lines(p + "\r\n") && Pending(u + "\n") == Pending(p + "\r\n")
  {
    assert p + "\r\n" == (p + ['\r']) + ['\n'];
    SplitSnoc(p, '\r');
    SplitSnoc(p + ['\r'], '\n');
    SplitSnoc(u, '\n');
    assert Strip([]) == [];
  }

  /** One character after `p` does what its translation does after a text
      `u` that splits like `p`. */
  lemma CharStep(p: string, u: string, c: char)
    requires Lines(u) == Lines(p) && Pending(u) == Pending(p)
    ensures Lines(u + [Translated(c)]) == Lines(p + [c]) && Pending(u + [Translated(c)]) == Pending(p + [c])
  {
    SplitSnoc(p, c);
    SplitSnoc(u, Translated(c));
  }
}
