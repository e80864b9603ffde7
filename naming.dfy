/** Identity strings of the pipeline: sanitised track names, decimal rendering
    of enumeration indices, the stem of a `.gpx` file name and the
    `<gpx>-<track>-segment<i>` identity of a track segment. */
module Naming {
  import opened Wrappers

  /** The characters `_sanitize` rewrites: path separator, dot and space. */
  predicate IsUnsafe(c: char) {
    c == '/' || c == '.' || c == ' '
  }

  /** Python's `s.replace(old, new)` for single characters: every occurrence is replaced. */
  function ReplaceAll(s: string, from: char, to: char): (r: string)
    ensures |r| == |s|
    ensures forall i :: 0 <= i < |s| ==> r[i] == if s[i] == from then to else s[i]
  {
    if s == [] then []
    else [if s[0] == from then to else s[0]] + ReplaceAll(s[1..], from, to)
  }

  /** `_sanitize`: the three chained replacements. */
  function Sanitize(name: string): (r: string)
    ensures |r| == |name|
    ensures forall i :: 0 <= i < |name| ==> r[i] == if IsUnsafe(name[i]) then '-' else name[i]
  {
    ReplaceAll(ReplaceAll(ReplaceAll(name, '/', '-'), '.', '-'), ' ', '-')
  }

  /** A sanitised name holds no separator, dot or space. */
  lemma SanitizeIsSafe(name: string)
    ensures forall i :: 0 <= i < |Sanitize(name)| ==> !IsUnsafe(Sanitize(name)[i])
  {
  }

  /** A name without separators, dots and spaces is left as it is. */
  lemma SanitizeKeepsSafe(name: string)
    requires forall i :: 0 <= i < |name| ==> !IsUnsafe(name[i])
    ensures Sanitize(name) == name
  {
    assert forall i :: 0 <= i < |name| ==> Sanitize(name)[i] == name[i];
  }

  /** Sanitising twice is sanitising once. */
  lemma SanitizeIdempotent(name: string)
    ensures Sanitize(Sanitize(name)) == Sanitize(name)
  {
    var once := Sanitize(name);
    assert forall i :: 0 <= i < |once| ==> Sanitize(once)[i] == once[i];
  }

  /** The character of one decimal digit. */
  function DigitChar(d: nat): (c: char)
    requires d < 10
    ensures '0' <= c <= '9'
  {
    ('0' as int + d) as char
  }

  predicate IsDigit(c: char) {
    '0' <= c <= '9'
  }

  predicate AllDigits(s: string) {
    forall i :: 0 <= i < |s| ==> IsDigit(s[i])
  }

  /** Python's `"{}".format(n)` for a non-negative index of `enumerate`. */
  function Decimal(n: nat): (r: string)
    ensures |r| >= 1 && AllDigits(r)
    ensures |r| > 1 ==> r[0] != '0'
    decreases n
  {
    if n < 10 then [DigitChar(n)] else Decimal(n / 10) + [DigitChar(n % 10)]
  }

  /** The number a string of decimal digits denotes. */
  function DecimalValue(s: string): nat
    requires AllDigits(s)
  {
    if s == [] then 0
    else DecimalValue(s[..|s| - 1]) * 10 + (s[|s| - 1] as int - '0' as int)
  }

  /** Reading back a rendered index gives the index. */
  lemma {:induction false} DecimalRoundTrip(n: nat)
    ensures DecimalValue(Decimal(n)) == n
    decreases n
  {
    if n >= 10 {
      DecimalRoundTrip(n / 10);
      var s := Decimal(n);
      assert s[..|s| - 1] == Decimal(n / 10);
    }
  }

  /** Distinct indices are rendered as distinct strings. */
  lemma DecimalInjective(m: nat, n: nat)
    requires Decimal(m) == Decimal(n)
    ensures m == n
  {
    DecimalRoundTrip(m);
    DecimalRoundTrip(n);
  }

  /** The track part of a segment identity (gps_xyt.py:50-53): the sanitised
      track name when it is present and non-empty, `track<i_t>` otherwise. */
  function TrackLabel(trackName: Option<string>, iT: nat): (r: string)
    ensures trackName.Some? && trackName.value != [] ==> r == Sanitize(trackName.value)
    ensures (trackName.None? || trackName.value == []) ==> r == "track" + Decimal(iT)
    ensures r != [] && forall i :: 0 <= i < |r| ==> !IsUnsafe(r[i])
  {
    match trackName
    case Some(n) => if n != [] then Sanitize(n) else "track" + Decimal(iT)
    case None => "track" + Decimal(iT)
  }

  /** The identity of segment `iS` of a track: `<gpx_name>-<track>-segment<i_s>` (gps_xyt.py:55-56). */
  function SegmentName(gpxName: string, trackLabel: string, iS: nat): (r: string)
    ensures |r| == |gpxName| + |trackLabel| + 9 + |Decimal(iS)|
    ensures r[..|gpxName|] == gpxName && r[|gpxName|] == '-'
    ensures r[|gpxName| + 1..|gpxName| + 1 + |trackLabel|] == trackLabel
    ensures r[|gpxName| + 1 + |trackLabel|..|r| - |Decimal(iS)|] == "-segment"
    ensures r[|r| - |Decimal(iS)|..] == Decimal(iS)
  {
    gpxName + "-" + trackLabel + "-segment" + Decimal(iS)
  }

  /** With a gpx stem free of separators, a segment identity is a single path
      component: using it as a file name cannot escape the output directory. */
  lemma SegmentNameHasNoSeparator(gpxName: string, trackName: Option<string>, iT: nat, iS: nat)
    requires '/' !in gpxName
    ensures '/' !in SegmentName(gpxName, TrackLabel(trackName, iT), iS)
  {
    var lbl := TrackLabel(trackName, iT);
    assert '/' !in lbl;
    assert '/' !in Decimal(iS);
    assert SegmentName(gpxName, lbl, iS) == gpxName + "-" + lbl + "-segment" + Decimal(iS);
  }

  /** Equal strings with a common prefix have equal tails. */
  lemma CancelPrefix(p: string, a: string, b: string)
    requires p + a == p + b
    ensures a == b
  {
    assert a == (p + a)[|p|..];
    assert b == (p + b)[|p|..];
  }

  /** In `d + rest`, with `d` all digits and `rest` starting with a non-digit,
      position `|d|` holds the first non-digit. */
  lemma FirstNonDigit(d: string, rest: string)
    requires AllDigits(d) && rest != [] && !IsDigit(rest[0])
    ensures !IsDigit((d + rest)[|d|])
    ensures forall i :: 0 <= i < |d| ==> IsDigit((d + rest)[i])
  {
  }

  /** If `d + rest == d' + rest'` for digit strings `d`, `d'` and tails starting with
      a non-digit, the digit strings are equal. */
  lemma DigitsThenSeparator(d: string, rest: string, d': string, rest': string)
    requires AllDigits(d) && AllDigits(d')
    requires rest != [] && !IsDigit(rest[0]) && rest' != [] && !IsDigit(rest'[0])
    requires d + rest == d' + rest'
    ensures d == d' && rest == rest'
  {
    var s := d + rest;
    FirstNonDigit(d, rest);
    FirstNonDigit(d', rest');
    assert |d| == |d'|;
    assert d == s[..|d|] == d';
    assert rest == s[|d|..] == rest';
  }

  /** Within one track, distinct segments get distinct identities. */
  lemma SegmentNamesDistinctWithinTrack(gpxName: string, trackLabel: string, iS: nat, jS: nat)
    requires SegmentName(gpxName, trackLabel, iS) == SegmentName(gpxName, trackLabel, jS)
    ensures iS == jS
  {
    var prefix := gpxName + "-" + trackLabel + "-segment";
    assert SegmentName(gpxName, trackLabel, iS) == prefix + Decimal(iS);
    assert SegmentName(gpxName, trackLabel, jS) == prefix + Decimal(jS);
    CancelPrefix(prefix, Decimal(iS), Decimal(jS));
    DecimalInjective(iS, jS);
  }

  /** The identity of an unnamed track's segment, split at the track index. */
  lemma UnnamedSegmentNameParts(gpxName: string, iT: nat, iS: nat)
    ensures SegmentName(gpxName, TrackLabel(None, iT), iS)
         == (gpxName + "-track") + (Decimal(iT) + ("-segment" + Decimal(iS)))
  {
    var g, d, e := gpxName, Decimal(iT), Decimal(iS);
    var t := "track" + d;
    assert TrackLabel(None, iT) == t;
    var lhs := g + "-" + t + "-segment" + e;
    var rhs := (g + "-track") + (d + ("-segment" + e));
    assert |lhs| == |rhs|;
    forall i | 0 <= i < |lhs| ensures lhs[i] == rhs[i] {
    }
  }

  /** Among tracks without a name, the positional fallback makes identities
      unique: equal identities mean the same track and the same segment. */
  lemma UnnamedSegmentNamesDistinct(gpxName: string, iT: nat, iS: nat, jT: nat, jS: nat)
    requires SegmentName(gpxName, TrackLabel(None, iT), iS) == SegmentName(gpxName, TrackLabel(None, jT), jS)
    ensures iT == jT && iS == jS
  {
    var di, dj := Decimal(iT), Decimal(jT);
    var ri, rj := "-segment" + Decimal(iS), "-segment" + Decimal(jS);
    UnnamedSegmentNameParts(gpxName, iT, iS);
    UnnamedSegmentNameParts(gpxName, jT, jS);
    CancelPrefix(gpxName + "-track", di + ri, dj + rj);
    DigitsThenSeparator(di, ri, dj, rj);
    DecimalInjective(iT, jT);
    CancelPrefix("-segment", Decimal(iS), Decimal(jS));
    DecimalInjective(iS, jS);
  }

  /** Identities are not unique across tracks in general: a track literally
      named `track1` at position 0 collides with an unnamed track at position 1. */
  lemma NamedTrackCanCollideWithFallback()
    ensures SegmentName("run", TrackLabel(Some("track1"), 0), 0)
         == SegmentName("run", TrackLabel(None, 1), 0)
  {
    NamedLabel();
    FallbackLabel();
  }

  /** `track1` is a safe name, so it is its own label. */
  lemma NamedLabel()
    ensures TrackLabel(Some("track1"), 0) == "track1"
  {
    var name := "track1";
    assert forall i :: 0 <= i < |name| ==> !IsUnsafe(name[i]);
    SanitizeKeepsSafe(name);
  }

  /** The fallback label of the track at position 1. */
  lemma FallbackLabel()
    ensures TrackLabel(None, 1) == "track1"
  {
    assert Decimal(1) == "1";
  }

  /** `s.endswith(suffix)`. */
  predicate EndsWith(s: string, suffix: string): (b: bool)
    ensures b <==> exists p :: s == p + suffix
  {
    assert |suffix| <= |s| ==> s == s[..|s| - |suffix|] + s[|s| - |suffix|..];
    |suffix| <= |s| && s[|s| - |suffix|..] == suffix
  }

  /** Index of the last `c` in `s`, or -1 (Python's `str.rfind`). */
  function LastIndexOf(s: string, c: char): (k: int)
    ensures -1 <= k < |s|
    ensures k >= 0 ==> s[k] == c
    ensures forall j :: k < j < |s| ==> s[j] != c
  {
    if s == [] then -1
    else if s[|s| - 1] == c then |s| - 1
    else LastIndexOf(s[..|s| - 1], c)
  }

  /** `os.path.splitext(name)[0]` for a name without a separator: cut at the last
      dot unless only dots precede it (a leading-dot name has no extension). */
  function Stem(name: string): (r: string)
    ensures r <= name
    ensures r != name ==> name[|r|] == '.' && '.' !in name[|r| + 1..]
  {
    var dot := LastIndexOf(name, '.');
    if dot > 0 && exists j :: 0 <= j < dot && name[j] != '.' then name[..dot] else name
  }

  /** The gpx stem (gps_xyt.py:44) of a `*.gpx` entry: the name without `.gpx`,
      unless nothing but dots precede the extension, then the whole name. */
  lemma GpxStem(name: string)
    requires EndsWith(name, ".gpx")
    ensures (exists j :: 0 <= j < |name| - 4 && name[j] != '.') ==> Stem(name) == name[..|name| - 4]
    ensures (forall j :: 0 <= j < |name| - 4 ==> name[j] == '.') ==> Stem(name) == name
  {
    var n := |name|;
    assert name[n - 4] == '.';
    assert name[n - 3..] == "gpx";
    assert LastIndexOf(name, '.') == n - 4;
  }
}
