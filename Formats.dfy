/** The list of formats offered for one video (app.py:102-140): the entries
    of yt-dlp's "formats" array whose extension is mp4, webm or m4a are
    converted, sorted by height from tallest down, reduced to one entry per
    resolution and cut to twenty. The JSON decoding before it is not modelled:
    each entry arrives as a `RawFormat`. */
module Formats {
  import opened Wrappers
  import opened Text

  /** A key of a JSON object: missing, present with `null`, or present with a
      value. */
  datatype Field<T> = Absent | Null | Present(value: T)

  /** One element of yt-dlp's "formats" array, restricted to the keys read. */
  datatype RawFormat = RawFormat(
    formatId: Field<string>,
    ext: Field<string>,
    resolution: Field<string>,
    height: Field<int>,
    filesize: Field<int>,
    filesizeApprox: Field<int>,
    vcodec: Field<string>,
    acodec: Field<string>)

  /** One element of the "formats" answer; `None` is a JSON null. */
  datatype Format = Format(
    formatId: Option<string>,
    ext: string,
    resolution: string,
    height: int,
    filesize: Option<int>,
    vcodec: Option<string>,
    acodec: Option<string>)

  /** `d.get(key, default)`. */
  function GetOr<T>(f: Field<T>, default: T): Option<T> {
    match f
    case Absent => Some(default)
    case Null => None
    case Present(v) => Some(v)
  }

  /** `d.get(key)`. */
  function Get<T>(f: Field<T>): Option<T> {
    match f
    case Present(v) => Some(v)
    case _ => None
  }

  const AllowedExts: set<string> := {"mp4", "webm", "m4a"}

  /** `f.get("ext") in ["mp4", "webm", "m4a"]`. */
  predicate Allowed(f: RawFormat) {
    f.ext.Present? && f.ext.value in AllowedExts
  }

  /** The dict built for an allowed entry (app.py:106-121). */
  function Convert(f: RawFormat): (r: Format)
    requires Allowed(f)
    ensures r.ext in AllowedExts && r.resolution != []
    ensures f.resolution.Present? && f.resolution.value != [] ==> r.resolution == f.resolution.value
    ensures r.height == (if f.height.Present? then f.height.value else 0)
  {
    var height := if f.height.Present? && f.height.value != 0 then f.height.value else 0;
    var resolution :=
      if f.resolution.Present? && f.resolution.value != [] then f.resolution.value
      else if f.height.Present? && f.height.value != 0 then IntToString(f.height.value) + "p"
      else "audio";
    var filesize :=
      if f.filesize.Present? && f.filesize.value != 0 then Some(f.filesize.value)
      else GetOr(f.filesizeApprox, 0);
    Format(Get(f.formatId), f.ext.value, resolution, height, filesize,
           GetOr(f.vcodec, "none"), GetOr(f.acodec, "none"))
  }

  /** An entry without a usable resolution or height is labelled "audio",
      and one with only a height is labelled by it. */
  lemma ResolutionFallback(f: RawFormat)
    requires Allowed(f) && !(f.resolution.Present? && f.resolution.value != [])
    ensures f.height.Present? && f.height.value > 0 ==>
      Convert(f).resolution == NatToString(f.height.value) + "p"
    ensures !(f.height.Present? && f.height.value != 0) ==> Convert(f).resolution == "audio"
    ensures Convert(f).filesize.None? <==>
      !(f.filesize.Present? && f.filesize.value != 0) && f.filesizeApprox.Null?
  {
  }

  // ---------------------------------------------------------------------
  // Step 1: filter and convert
  // ---------------------------------------------------------------------

  /** The formats kept from `raws`, in the order read. */
  function Converted(raws: seq<RawFormat>): (r: seq<Format>)
    ensures |r| <= |raws|
    decreases |raws|
  {
    if raws == [] then []
    else
      var last := raws[|raws| - 1];
      Converted(raws[..|raws| - 1]) + if Allowed(last) then [Convert(last)] else []
  }

  /** Every converted entry comes from an allowed entry, and every allowed
      entry is converted. */
  lemma {:induction false} ConvertedExactly(raws: seq<RawFormat>)
    ensures forall y :: y in Converted(raws) ==> exists x :: x in raws && Allowed(x) && y == Convert(x)
    ensures forall x :: x in raws && Allowed(x) ==> Convert(x) in Converted(raws)
    decreases |raws|
  {
    if raws != [] {
      var p := raws[..|raws| - 1];
      ConvertedExactly(p);
      assert raws == p + [raws[|raws| - 1]];
      assert forall x :: x in p ==> x in raws;
    }
  }

  // ---------------------------------------------------------------------
  // Step 2: formats.sort(key=height, reverse=True)
  // ---------------------------------------------------------------------

  predicate NonIncreasing(s: seq<Format>) {
    forall i, j :: 0 <= i < j < |s| ==> s[i].height >= s[j].height
  }

  /** The elements of `s` of height `h`, in order. */
  function WithHeight(s: seq<Format>, h: int): seq<Format>
    decreases |s|
  {
    if s == [] then []
    else (if s[0].height == h then [s[0]] else []) + WithHeight(s[1..], h)
  }

  /** Puts `x` before the first element that is not taller: ahead of the
      elements of equal height, which came after it in the input. */
  function Insert(x: Format, t: seq<Format>): seq<Format>
    decreases |t|
  {
    if t == [] then [x]
    else if t[0].height <= x.height then [x] + t
    else [t[0]] + Insert(x, t[1..])
  }

  /** Python's stable sort on descending height. */
  function SortByHeight(s: seq<Format>): seq<Format>
    decreases |s|
  {
    if s == [] then [] else Insert(s[0], SortByHeight(s[1..]))
  }

  /** Inserting into a sorted list keeps it sorted. */
  lemma {:induction false} InsertOrder(x: Format, t: seq<Format>)
    requires NonIncreasing(t)
    ensures NonIncreasing(Insert(x, t))
    decreases |t|
  {
    if t == [] {
    } else if t[0].height <= x.height {
      ConsOrder(x, t);
    } else {
      var rest := t[1..];
      assert NonIncreasing(rest);
      InsertOrder(x, rest);
      InsertHeights(x, t);
      ConsOrder(t[0], Insert(x, rest));
    }
  }

  /** A sorted list stays sorted under a head at least as tall as all of it. */
  lemma ConsOrder(y: Format, t: seq<Format>)
    requires NonIncreasing(t)
    requires forall k :: 0 <= k < |t| ==> t[k].height <= y.height
    ensures NonIncreasing([y] + t)
  {
    var r := [y] + t;
    forall i, j | 0 <= i < j < |r| ensures r[i].height >= r[j].height {
      assert r[j] == t[j - 1];
      if i > 0 {
        assert r[i] == t[i - 1];
      }
    }
  }

  lemma {:induction false} InsertMultiset(x: Format, t: seq<Format>)
    ensures multiset(Insert(x, t)) == multiset(t) + multiset{x}
    decreases |t|
  {
    if t != [] && t[0].height > x.height {
      InsertMultiset(x, t[1..]);
      assert t == [t[0]] + t[1..];
    }
  }

  /** `Insert` puts `x` ahead of every element of its height and among the
      others changes nothing. */
  lemma {:induction false} InsertWithHeight(x: Format, t: seq<Format>, h: int)
    ensures WithHeight(Insert(x, t), h) == (if x.height == h then [x] else []) + WithHeight(t, h)
    decreases |t|
  {
    if t == [] {
      assert [x][1..] == [];
    } else if t[0].height <= x.height {
      assert ([x] + t)[1..] == t;
    } else {
      var rest := t[1..];
      InsertWithHeight(x, rest, h);
      assert t == [t[0]] + rest;
      BehindWithHeight(x, t[0], rest, Insert(x, rest), h);
    }
  }

  /** Putting a taller `y` ahead of both sides: `y` and `x` cannot both have
      height `h`, so their order among height `h` is moot. */
  lemma BehindWithHeight(x: Format, y: Format, rest: seq<Format>, ins: seq<Format>, h: int)
    requires y.height > x.height
    requires WithHeight(ins, h) == (if x.height == h then [x] else []) + WithHeight(rest, h)
    ensures WithHeight([y] + ins, h) == (if x.height == h then [x] else []) + WithHeight([y] + rest, h)
  {
    ConsWithHeight(y, ins, h);
    ConsWithHeight(y, rest, h);
  }

  lemma ConsWithHeight(y: Format, u: seq<Format>, h: int)
    ensures WithHeight([y] + u, h) == (if y.height == h then [y] else []) + WithHeight(u, h)
  {
    assert ([y] + u)[1..] == u;
  }

  /** Inserting behind a taller head keeps everything within its height. */
  lemma {:induction false} InsertHeights(x: Format, t: seq<Format>)
    requires t != [] && t[0].height > x.height && NonIncreasing(t)
    ensures forall k :: 0 <= k < |Insert(x, t[1..])| ==> Insert(x, t[1..])[k].height <= t[0].height
  {
    var rest := t[1..];
    var r := Insert(x, rest);
    InsertMembers(x, rest);
    forall k | 0 <= k < |r| ensures r[k].height <= t[0].height {
      var y := r[k];
      assert y in r;
      if y != x {
        var m :| 0 <= m < |rest| && rest[m] == y;
        assert t[m + 1] == y;
      }
    }
  }

  lemma {:induction false} InsertMembers(x: Format, t: seq<Format>)
    ensures forall y :: y in Insert(x, t) <==> y == x || y in t
    decreases |t|
  {
    if t != [] && t[0].height > x.height {
      InsertMembers(x, t[1..]);
      assert t == [t[0]] + t[1..];
    }
  }

  /** The sort orders by height, loses and adds nothing, and keeps elements of
      equal height in their input order. */
  lemma SortByHeightCorrect(s: seq<Format>)
    ensures NonIncreasing(SortByHeight(s))
    ensures multiset(SortByHeight(s)) == multiset(s)
    ensures forall h :: WithHeight(SortByHeight(s), h) == WithHeight(s, h)
  {
    SortOrder(s);
    SortMultiset(s);
    forall h ensures WithHeight(SortByHeight(s), h) == WithHeight(s, h) {
      SortStable(s, h);
    }
  }

  lemma {:induction false} SortOrder(s: seq<Format>)
    ensures NonIncreasing(SortByHeight(s))
    decreases |s|
  {
    if s != [] {
      SortOrder(s[1..]);
      InsertOrder(s[0], SortByHeight(s[1..]));
    }
  }

  lemma {:induction false} SortMultiset(s: seq<Format>)
    ensures multiset(SortByHeight(s)) == multiset(s)
    decreases |s|
  {
    if s != [] {
      SortMultiset(s[1..]);
      InsertMultiset(s[0], SortByHeight(s[1..]));
      assert s == [s[0]] + s[1..];
    }
  }

  lemma {:induction false} SortStable(s: seq<Format>, h: int)
    ensures WithHeight(SortByHeight(s), h) == WithHeight(s, h)
    decreases |s|
  {
    if s != [] {
      SortStable(s[1..], h);
      InsertWithHeight(s[0], SortByHeight(s[1..]), h);
    }
  }

  // ---------------------------------------------------------------------
  // Step 3: one entry per resolution
  // ---------------------------------------------------------------------

  /** The resolutions occurring in `s`. */
  function Resolutions(s: seq<Format>): set<string>
    decreases |s|
  {
    if s == [] then {} else Resolutions(s[..|s| - 1]) + {s[|s| - 1].resolution}
  }

  lemma {:induction false} ResolutionsIff(s: seq<Format>, res: string)
    ensures res in Resolutions(s) <==> exists i :: 0 <= i < |s| && s[i].resolution == res
    decreases |s|
  {
    if s != [] {
      var p := s[..|s| - 1];
      ResolutionsIff(p, res);
      if res in Resolutions(p) {
        var i :| 0 <= i < |p| && p[i].resolution == res;
        assert s[i] == p[i];
      }
      if exists i :: 0 <= i < |s| && s[i].resolution == res {
        var i :| 0 <= i < |s| && s[i].resolution == res;
        if i < |p| {
          assert p[i] == s[i];
        }
      }
    }
  }

  lemma ResolutionOf(s: seq<Format>, i: int)
    requires 0 <= i < |s|
    ensures s[i].resolution in Resolutions(s)
  {
    ResolutionsIff(s, s[i].resolution);
  }

  /** Two lists with the same elements have the same resolutions. */
  lemma ResolutionsOfPermutation(a: seq<Format>, b: seq<Format>)
    requires multiset(a) == multiset(b)
    ensures Resolutions(a) == Resolutions(b)
  {
    forall res | res in Resolutions(a) ensures res in Resolutions(b) {
      ResolutionsIff(a, res);
      var i :| 0 <= i < |a| && a[i].resolution == res;
      assert a[i] in multiset(b);
      var j :| 0 <= j < |b| && b[j] == a[i];
      ResolutionOf(b, j);
    }
    forall res | res in Resolutions(b) ensures res in Resolutions(a) {
      ResolutionsIff(b, res);
      var i :| 0 <= i < |b| && b[i].resolution == res;
      assert b[i] in multiset(a);
      var j :| 0 <= j < |a| && a[j] == b[i];
      ResolutionOf(a, j);
    }
  }

  /** The loop of app.py:127-132 over `s`: an entry is kept when no earlier
      entry had its resolution. */
  function Dedup(s: seq<Format>): seq<Format>
    decreases |s|
  {
    if s == [] then []
    else
      var d := Dedup(s[..|s| - 1]);
      var last := s[|s| - 1];
      if last.resolution in Resolutions(d) then d else d + [last]
  }

  predicate DistinctResolutions(s: seq<Format>) {
    forall i, j :: 0 <= i < j < |s| ==> s[i].resolution != s[j].resolution
  }

  lemma AppendResolutions(d: seq<Format>, x: Format)
    ensures Resolutions(d + [x]) == Resolutions(d) + {x.resolution}
  {
    assert (d + [x])[..|d|] == d;
  }

  /** Every resolution of `s` is kept, and none twice. */
  lemma {:induction false} DedupResolutions(s: seq<Format>)
    ensures Resolutions(Dedup(s)) == Resolutions(s)
    ensures DistinctResolutions(Dedup(s))
    decreases |s|
  {
    if s != [] {
      var p := s[..|s| - 1];
      var last := s[|s| - 1];
      DedupResolutions(p);
      var d := Dedup(p);
      if last.resolution !in Resolutions(d) {
        AppendResolutions(d, last);
        var d' := d + [last];
        forall i, j | 0 <= i < j < |d'| ensures d'[i].resolution != d'[j].resolution {
          if j == |d| {
            ResolutionOf(d, i);
          }
        }
      }
    }
  }

  /** Each kept entry is an entry of `s`. */
  lemma {:induction false} DedupMembers(s: seq<Format>)
    ensures forall k :: 0 <= k < |Dedup(s)| ==> Dedup(s)[k] in s
    decreases |s|
  {
    if s != [] {
      var p := s[..|s| - 1];
      DedupMembers(p);
      assert forall y :: y in p ==> y in s;
    }
  }

  /** A list without a repeated resolution has one resolution per entry. */
  lemma {:induction false} DistinctCount(d: seq<Format>)
    requires DistinctResolutions(d)
    ensures |Resolutions(d)| == |d|
    decreases |d|
  {
    if d != [] {
      var p := d[..|d| - 1];
      var last := d[|d| - 1];
      assert DistinctResolutions(p);
      DistinctCount(p);
      ResolutionsIff(p, last.resolution);
    }
  }

  /** Dropping entries from a list sorted by height leaves it sorted. */
  lemma {:induction false} DedupOrder(s: seq<Format>)
    requires NonIncreasing(s)
    ensures NonIncreasing(Dedup(s))
    decreases |s|
  {
    if s != [] {
      var p := s[..|s| - 1];
      var last := s[|s| - 1];
      assert NonIncreasing(p);
      DedupOrder(p);
      var d := Dedup(p);
      if last.resolution !in Resolutions(d) {
        var d' := d + [last];
        forall i, j | 0 <= i < j < |d'| ensures d'[i].height >= d'[j].height {
          if j == |d| {
            assert d'[i] == d[i];
            AtLeastLast(s, i);
          } else {
            assert d'[i] == d[i] && d'[j] == d[j];
          }
        }
      }
    }
  }

  /** A kept entry of the list without its last entry is at least as tall as
      that last entry. */
  lemma AtLeastLast(s: seq<Format>, k: int)
    requires s != [] && NonIncreasing(s) && 0 <= k < |Dedup(s[..|s| - 1])|
    ensures Dedup(s[..|s| - 1])[k].height >= s[|s| - 1].height
  {
    var p := s[..|s| - 1];
    DedupMembers(p);
    var i :| 0 <= i < |p| && p[i] == Dedup(p)[k];
    assert s[i] == p[i];
  }

  /** Over a list sorted by height, the entry kept for a resolution is a
      tallest one of that resolution. */
  lemma DedupKeepsTallest(s: seq<Format>)
    requires NonIncreasing(s)
    ensures forall k, j :: 0 <= k < |Dedup(s)| && 0 <= j < |s| && s[j].resolution == Dedup(s)[k].resolution ==>
      s[j].height <= Dedup(s)[k].height
  {
    forall k, j | 0 <= k < |Dedup(s)| && 0 <= j < |s| && s[j].resolution == Dedup(s)[k].resolution {
      KeptIsTallest(s, k, j);
    }
  }

  lemma {:induction false} KeptIsTallest(s: seq<Format>, k: int, j: int)
    requires NonIncreasing(s)
    requires 0 <= k < |Dedup(s)| && 0 <= j < |s| && s[j].resolution == Dedup(s)[k].resolution
    ensures s[j].height <= Dedup(s)[k].height
    decreases |s|
  {
    var p := s[..|s| - 1];
    var d := Dedup(p);
    if k < |d| {
      assert Dedup(s)[k] == d[k];
      if j < |p| {
        assert NonIncreasing(p) && p[j] == s[j];
        KeptIsTallest(p, k, j);
      } else {
        assert exists i :: 0 <= i < |p| && p[i] == d[k] by {
          DedupMembers(p);
        }
        var i :| 0 <= i < |p| && p[i] == d[k];
      }
    } else if j < |p| {
      // Then the entry kept last has a resolution already seen in `p`.
      ResolutionOf(p, j);
      DedupResolutions(p);
      assert false;
    }
  }

  /** `s[i]` is the first entry of `s` with its resolution. */
  predicate FirstOfResolution(s: seq<Format>, i: int) {
    0 <= i < |s| && forall j :: 0 <= j < i ==> s[j].resolution != s[i].resolution
  }

  /** Each kept entry is the first entry of `s` with its resolution. */
  lemma {:induction false} DedupKeepsFirst(s: seq<Format>, k: int)
    requires 0 <= k < |Dedup(s)|
    ensures exists i :: FirstOfResolution(s, i) && s[i] == Dedup(s)[k]
    decreases |s|
  {
    var p := s[..|s| - 1];
    var d := Dedup(p);
    var last := s[|s| - 1];
    if k < |d| {
      assert Dedup(s)[k] == d[k];
      DedupKeepsFirst(p, k);
      var i :| FirstOfResolution(p, i) && p[i] == d[k];
      forall j | 0 <= j < i ensures s[j].resolution != s[i].resolution {
        assert s[j] == p[j] && s[i] == p[i];
      }
      assert FirstOfResolution(s, i) && s[i] == Dedup(s)[k];
    } else {
      assert last.resolution !in Resolutions(d) && Dedup(s) == d + [last];
      var i := |s| - 1;
      DedupResolutions(p);
      forall j | 0 <= j < i ensures s[j].resolution != s[i].resolution {
        assert s[j] == p[j];
        ResolutionOf(p, j);
      }
      assert FirstOfResolution(s, i) && s[i] == Dedup(s)[k];
    }
  }

  // ---------------------------------------------------------------------
  // The whole list
  // ---------------------------------------------------------------------

  const MaxFormats := 20

  /** The formats of `raws` sorted and reduced to one per resolution. */
  function UniqueFormats(raws: seq<RawFormat>): seq<Format> {
    Dedup(SortByHeight(Converted(raws)))
  }

  /** `unique_formats[:20]` for the formats of `raws`. */
  function FormatList(raws: seq<RawFormat>): seq<Format> {
    var unique := UniqueFormats(raws);
    if |unique| > MaxFormats then unique[..MaxFormats] else unique
  }

  /** Every entry of the sorted list is the conversion of an allowed entry,
      and every conversion is in the sorted list. */
  lemma SortedOrigins(raws: seq<RawFormat>)
    ensures forall y :: y in SortByHeight(Converted(raws)) ==>
      exists x :: x in raws && Allowed(x) && y == Convert(x)
    ensures forall x :: x in raws && Allowed(x) ==> Convert(x) in SortByHeight(Converted(raws))
  {
    var converted := Converted(raws);
    var sorted := SortByHeight(converted);
    ConvertedExactly(raws);
    assert multiset(sorted) == multiset(converted) by {
      SortByHeightCorrect(converted);
    }
    assert forall y :: y in sorted <==> y in multiset(sorted);
    assert forall y :: y in converted <==> y in multiset(converted);
  }

  /** The list before the cut: tallest first, no resolution twice, every
      entry the conversion of an allowed (mp4, webm or m4a) input entry, and
      the entry kept for a resolution a tallest one of the input entries with
      that resolution. */
  lemma UniqueFormatsCorrect(raws: seq<RawFormat>)
    ensures NonIncreasing(UniqueFormats(raws))
    ensures DistinctResolutions(UniqueFormats(raws))
    ensures forall k :: 0 <= k < |UniqueFormats(raws)| ==>
      exists x :: x in raws && Allowed(x) && UniqueFormats(raws)[k] == Convert(x)
    ensures forall k, x ::
      0 <= k < |UniqueFormats(raws)| && x in raws && Allowed(x) && Convert(x).resolution == UniqueFormats(raws)[k].resolution
      ==> Convert(x).height <= UniqueFormats(raws)[k].height
  {
    var sorted := SortByHeight(Converted(raws));
    var unique := Dedup(sorted);
    assert NonIncreasing(sorted) by {
      SortByHeightCorrect(Converted(raws));
    }
    DedupResolutions(sorted);
    DedupOrder(sorted);
    SortedOrigins(raws);
    forall k | 0 <= k < |unique|
      ensures exists x :: x in raws && Allowed(x) && unique[k] == Convert(x)
    {
      DedupMembers(sorted);
      assert unique[k] in sorted;
    }
    forall k, x | 0 <= k < |unique| && x in raws && Allowed(x) && Convert(x).resolution == unique[k].resolution
      ensures Convert(x).height <= unique[k].height
    {
      var j :| 0 <= j < |sorted| && sorted[j] == Convert(x);
      KeptIsTallest(sorted, k, j);
    }
  }

  /** The list offered to the user: the list before the cut, with at most
      twenty entries kept from its front. */
  lemma FormatListCorrect(raws: seq<RawFormat>)
    ensures |FormatList(raws)| <= MaxFormats
    ensures NonIncreasing(FormatList(raws))
    ensures DistinctResolutions(FormatList(raws))
    ensures forall k :: 0 <= k < |FormatList(raws)| ==>
      FormatList(raws)[k].ext in AllowedExts &&
      (exists x :: x in raws && Allowed(x) && FormatList(raws)[k] == Convert(x))
    ensures forall k, x ::
      0 <= k < |FormatList(raws)| && x in raws && Allowed(x) && Convert(x).resolution == FormatList(raws)[k].resolution
      ==> Convert(x).height <= FormatList(raws)[k].height
  {
    UniqueFormatsCorrect(raws);
    var unique := UniqueFormats(raws);
    var r := FormatList(raws);
    assert forall k :: 0 <= k < |r| ==> r[k] == unique[k];
    assert NonIncreasing(r);
    assert DistinctResolutions(r);
    forall k | 0 <= k < |r|
      ensures r[k].ext in AllowedExts && exists x :: x in raws && Allowed(x) && r[k] == Convert(x)
    {
      assert r[k] == unique[k];
      var x :| x in raws && Allowed(x) && unique[k] == Convert(x);
      assert r[k] == Convert(x);
    }
    forall k, x | 0 <= k < |r| && x in raws && Allowed(x) && Convert(x).resolution == r[k].resolution
      ensures Convert(x).height <= r[k].height
    {
      assert r[k] == unique[k];
    }
  }

  /** When the input has at most twenty resolutions, every one of them is
      offered; otherwise exactly twenty are. */
  lemma FormatListComplete(raws: seq<RawFormat>)
    ensures |Resolutions(Converted(raws))| <= MaxFormats ==>
      Resolutions(FormatList(raws)) == Resolutions(Converted(raws))
    ensures |Resolutions(Converted(raws))| > MaxFormats ==> |FormatList(raws)| == MaxFormats
  {
    var converted := Converted(raws);
    var sorted := SortByHeight(converted);
    SortByHeightCorrect(converted);
    ResolutionsOfPermutation(sorted, converted);
    DedupResolutions(sorted);
    DistinctCount(Dedup(sorted));
  }

  lemma ConvertedPrefix(raws: seq<RawFormat>, i: nat)
    requires i < |raws|
    ensures Converted(raws[..i + 1]) ==
      Converted(raws[..i]) + if Allowed(raws[i]) then [Convert(raws[i])] else []
  {
    assert raws[..i + 1][..i] == raws[..i];
  }

  lemma DedupPrefix(s: seq<Format>, i: nat)
    requires i < |s|
    ensures Dedup(s[..i + 1]) ==
      if s[i].resolution in Resolutions(Dedup(s[..i])) then Dedup(s[..i]) else Dedup(s[..i]) + [s[i]]
  {
    assert s[..i + 1][..i] == s[..i];
  }

  /** The conversion, sort, de-duplication and cut of app.py:102-140. */
  method BuildFormatList(raws: seq<RawFormat>) returns (formats: seq<Format>)
    ensures formats == FormatList(raws)
  {
    var converted: seq<Format> := [];
    for i := 0 to |raws|
      invariant converted == Converted(raws[..i])
    {
      ConvertedPrefix(raws, i);
      if Allowed(raws[i]) {
        converted := converted + [Convert(raws[i])];
      }
    }
    assert raws[..|raws|] == raws;

    var sorted := SortByHeight(converted);

    var unique: seq<Format> := [];
    var seen: set<string> := {};
    for i := 0 to |sorted|
      invariant unique == Dedup(sorted[..i])
      invariant seen == Resolutions(unique)
    {
      DedupPrefix(sorted, i);
      var res := sorted[i].resolution;
      if res !in seen {
        AppendResolutions(unique, sorted[i]);
        seen := seen + {res};
        unique := unique + [sorted[i]];
      }
    }
    assert sorted[..|sorted|] == sorted;

    formats := if |unique| > MaxFormats then unique[..MaxFormats] else unique;
  }
}
