/** The two small helpers of app.py: `format_duration` (app.py:54-61) and
    `sanitize_filename` (app.py:64-71). */
module Helpers {
  import opened Text
  import opened Wrappers

  // ---------------------------------------------------------------------
  // format_duration
  // ---------------------------------------------------------------------

  /** Python's `int()` on a number: truncation toward zero. */
  function Trunc(x: real): (n: int)
    ensures x >= 0.0 ==> n as real <= x < n as real + 1.0
    ensures x < 0.0 ==> n as real - 1.0 < x <= n as real
  {
    if x >= 0.0 then x.Floor else -((-x).Floor)
  }

  /** `divmod(n, 3600)` and then `divmod(remainder, 60)`. With a positive
      divisor Python's floor division agrees with Dafny's, for every sign. */
  function Clock(n: int): (hms: (int, int, int))
    ensures hms.0 * 3600 + hms.1 * 60 + hms.2 == n
    ensures 0 <= hms.1 < 60 && 0 <= hms.2 < 60
    ensures hms.0 > 0 <==> n >= 3600
  {
    var hours := n / 3600;
    var remainder := n % 3600;
    (hours, remainder / 60, remainder % 60)
  }

  /** `format_duration(seconds)`; `None` stands for a missing duration. */
  function FormatDuration(seconds: Option<real>): string {
    match seconds
    case None => "Unknown"
    case Some(x) =>
      var (hours, minutes, secs) := Clock(Trunc(x));
      if hours > 0 then NatToString(hours) + "h " + NatToString(minutes) + "m " + NatToString(secs) + "s"
      else NatToString(minutes) + "m " + NatToString(secs) + "s"
  }

  /** The hours part is written exactly when the duration is at least an
      hour; a missing duration reads "Unknown". */
  lemma HoursShownIff(x: real)
    ensures 'h' in FormatDuration(Some(x)) <==> Trunc(x) >= 3600
    ensures FormatDuration(None) == "Unknown"
  {
    var (hours, minutes, secs) := Clock(Trunc(x));
    var dm := NatToString(minutes);
    var ds := NatToString(secs);
    assert forall c :: c in dm ==> IsDigit(c);
    assert forall c :: c in ds ==> IsDigit(c);
    var tail := dm + "m " + ds + "s";
    assert 'h' !in tail;
    if hours > 0 {
      var s := NatToString(hours) + "h " + dm + "m " + ds + "s";
      assert s[|NatToString(hours)|] == 'h';
    }
  }

  // ---------------------------------------------------------------------
  // sanitize_filename
  // ---------------------------------------------------------------------

  /** The characters `sanitize_filename` removes, in the order it removes
      them. */
  const InvalidChars: string := "<>:\"/\\|?*"

  /** `title` without the characters of `cs`, in order: `replace(c, "")` for
      each `c` of `cs`. */
  function Without(title: string, cs: string): (r: string)
    ensures |r| <= |title|
    ensures forall c :: c in r <==> c in title && c !in cs
    decreases |title|
  {
    if title == [] then []
    else
      var rest := Without(title[1..], cs);
      assert forall c :: c in title <==> c == title[0] || c in title[1..];
      if title[0] in cs then rest else [title[0]] + rest
  }

  /** Removing the characters of `cs` and then `c` removes those of `cs + [c]`. */
  lemma {:induction false} WithoutSnoc(title: string, cs: string, c: char)
    ensures Without(Without(title, cs), [c]) == Without(title, cs + [c])
    decreases |title|
  {
    if title != [] {
      WithoutSnoc(title[1..], cs, c);
      var rest := Without(title[1..], cs);
      if title[0] !in cs {
        assert ([title[0]] + rest)[1..] == rest;
      }
    }
  }

  /** `replace(c, "")` keeps the other characters in order: removing from a
      concatenation removes from each part. With WithoutOne this pins
      Without down as the order-preserving filter. */
  lemma {:induction false} WithoutConcat(a: string, b: string, cs: string)
    ensures Without(a + b, cs) == Without(a, cs) + Without(b, cs)
    decreases |a|
  {
    if a == [] {
      assert a + b == b;
    } else {
      assert (a + b)[0] == a[0];
      assert (a + b)[1..] == a[1..] + b;
      WithoutConcat(a[1..], b, cs);
      var rest := Without(a[1..], cs);
      if a[0] !in cs {
        assert [a[0]] + (rest + Without(b, cs)) == ([a[0]] + rest) + Without(b, cs);
      }
    }
  }

  /** A single character is kept exactly when it is not removed. */
  lemma WithoutOne(c: char, cs: string)
    ensures Without([c], cs) == if c in cs then [] else [c]
  {
    assert [c][1..] == [];
  }

  /** What `sanitize_filename` returns, stated on the whole text at once: the
      characters of InvalidChars removed, then stripped, then cut to 100. */
  function SanitizedName(title: string): (r: string)
    ensures |r| <= 100
    ensures forall c :: c in r ==> c !in InvalidChars && c in title
  {
    var stripped := Strip(Without(title, InvalidChars));
    assert forall c :: c in stripped ==> c in Without(title, InvalidChars);
    if |stripped| > 100 then stripped[..100] else stripped
  }

  /** `sanitize_filename`: the loop over the invalid characters, then strip
      and truncate. */
  method SanitizeFilename(title: string) returns (r: string)
    ensures r == SanitizedName(title)
    ensures |r| <= 100 && forall c :: c in r ==> c !in InvalidChars
  {
    r := title;
    var i := 0;
    WithoutNothing(title, []);
    while i < |InvalidChars|
      invariant 0 <= i <= |InvalidChars|
      invariant r == Without(title, InvalidChars[..i])
      decreases |InvalidChars| - i
    {
      WithoutSnoc(title, InvalidChars[..i], InvalidChars[i]);
      assert InvalidChars[..i + 1] == InvalidChars[..i] + [InvalidChars[i]];
      r := Without(r, [InvalidChars[i]]);
      i := i + 1;
    }
    assert InvalidChars[..i] == InvalidChars;
    r := Strip(r);
    if |r| > 100 {
      r := r[..100];
    }
  }

  /** A name that holds no invalid character, has no surrounding whitespace
      and is at most 100 characters long comes back unchanged. */
  lemma SanitizeClean(title: string)
    requires forall c :: c in title ==> c !in InvalidChars
    requires IsStripped(title) && |title| <= 100
    ensures SanitizedName(title) == title
  {
    WithoutNothing(title, InvalidChars);
    StripStripped(title);
  }

  lemma {:induction false} WithoutNothing(title: string, cs: string)
    requires forall c :: c in title ==> c !in cs
    ensures Without(title, cs) == title
    decreases |title|
  {
    if title != [] {
      assert forall c :: c in title[1..] ==> c in title;
      WithoutNothing(title[1..], cs);
    }
  }

  lemma StripStripped(s: string)
    requires IsStripped(s)
    ensures Strip(s) == s
  {
    var t := StripStart(s);
    if s != [] {
      SkipWhileUnique(s, 0, IsSpace, 0);
      assert t == s;
    }
  }

  /** The name is empty exactly when the title holds nothing but whitespace
      and invalid characters. */
  lemma SanitizedEmptyIff(title: string)
    ensures SanitizedName(title) == [] <==> forall c :: c in title ==> IsSpace(c) || c in InvalidChars
  {
    var w := Without(title, InvalidChars);
    var r := Strip(w);
    StripEmptyIff(w);
    assert r == [] <==> SanitizedName(title) == [];
  }

  /** `strip()` gives the empty text exactly for all-whitespace text. */
  lemma StripEmptyIff(s: string)
    ensures Strip(s) == [] <==> forall c :: c in s ==> IsSpace(c)
  {
    var r := Strip(s);
    var a :| TrimmedAt(s, r, a);
    if r == [] {
      forall c | c in s ensures IsSpace(c) {
        var k :| 0 <= k < |s| && s[k] == c;
        assert k < a || a <= k;
      }
    } else {
      assert s[a] == r[0] && !IsSpace(s[a]);
    }
  }
}
