/** The `refArea` column: raw region identifiers are URIs whose last
    path segment names the region.  The dashboard keeps `x.split("/")[-1]`
    of every textual value (visualization_app.py line 15) and applies the same
    expression again when it lists and filters regions (lines 92, 120, 129).
    Also here: Python's ordering of strings, used by `sorted(...)` at line 92. */
module RegionText {

  const Slash: char := '/'

  // ---------------------------------------------------------------------------
  // str.split(sep) and sep.join(parts)
  // ---------------------------------------------------------------------------

  /** Python's `s.split(sep)` for a one-character separator: the pieces between
      separators, always at least one (the empty string splits into `[""]`). */
  function Split(s: string, sep: char): (parts: seq<string>)
    ensures |parts| >= 1
    ensures forall i :: 0 <= i < |parts| ==> sep !in parts[i]
  {
    if s == [] then [[]]
    else
      var rest := Split(s[1..], sep);
      if s[0] == sep then [[]] + rest
      else [[s[0]] + rest[0]] + rest[1..]
  }

  /** Python's `sep.join(parts)`. */
  function Join(parts: seq<string>, sep: char): string
  {
    if parts == [] then []
    else if |parts| == 1 then parts[0]
    else parts[0] + [sep] + Join(parts[1..], sep)
  }

  /** Splitting and joining again gives back the original string. */
  lemma {:induction false} JoinSplit(s: string, sep: char)
    ensures Join(Split(s, sep), sep) == s
  {
    if s != [] {
      JoinSplit(s[1..], sep);
      var rest := Split(s[1..], sep);
      if s[0] == sep {
        assert ([[]] + rest)[1..] == rest;
      } else if |rest| > 1 {
        var parts := [[s[0]] + rest[0]] + rest[1..];
        assert parts[1..] == rest[1..];
      }
    }
  }

  /** Joining at least two parts puts a separator before the last one. */
  lemma {:induction false} JoinLast(parts: seq<string>, sep: char)
    requires |parts| >= 2
    ensures Join(parts, sep) == Join(parts[..|parts| - 1], sep) + [sep] + parts[|parts| - 1]
  {
    if |parts| > 2 {
      JoinLast(parts[1..], sep);
      assert parts[1..][..|parts| - 2] == parts[..|parts| - 1][1..];
    }
  }

  // ---------------------------------------------------------------------------
  // x.split("/")[-1]
  // ---------------------------------------------------------------------------

  /** `s.split("/")[-1]`.  The result is the longest suffix of `s` containing no
      slash: it is a suffix, it has no slash, and either it is all of `s` or a
      slash stands right before it. */
  function LastSegment(s: string): (r: string)
    ensures Slash !in r
    ensures |r| <= |s| && s[|s| - |r|..] == r
    ensures |r| < |s| ==> s[|s| - |r| - 1] == Slash
  {
    var parts := Split(s, Slash);
    var last := parts[|parts| - 1];
    JoinSplit(s, Slash);
    if |parts| >= 2 then
      JoinLast(parts, Slash);
      last
    else
      last
  }

  /** The three properties of LastSegment's contract single out one string:
      any slash-free suffix of `s` that is all of `s` or follows a slash is
      `s.split("/")[-1]`. */
  lemma LastSegmentUnique(s: string, t: string)
    requires Slash !in t
    requires |t| <= |s| && s[|s| - |t|..] == t
    requires |t| < |s| ==> s[|s| - |t| - 1] == Slash
    ensures LastSegment(s) == t
  {
    var r := LastSegment(s);
    if |r| != |t| {
      assert false;
    }
  }

  /** A value without a slash is left as it is. */
  lemma NoSlashUnchanged(s: string)
    requires Slash !in s
    ensures LastSegment(s) == s
  {
    LastSegmentUnique(s, s);
  }

  /** Cleaning an already cleaned value changes nothing, which is why lines 92,
      120 and 129 agree with the values line 15 stored. */
  lemma LastSegmentIdempotent(s: string)
    ensures LastSegment(LastSegment(s)) == LastSegment(s)
  {
    NoSlashUnchanged(LastSegment(s));
  }

  /** The example of a region URI. */
  lemma LastSegmentOfUri()
    ensures LastSegment("http://example.org/Beirut") == "Beirut"
  {
    var s := "http://example.org/Beirut";
    assert s[|s| - 6..] == "Beirut";
    LastSegmentUnique(s, "Beirut");
  }

  // ---------------------------------------------------------------------------
  // A cell of the refArea column
  // ---------------------------------------------------------------------------

  /** A cell of the `refArea` column: a string, or a non-string value such as
      a missing entry (pandas NaN). */
  datatype AreaValue = Text(s: string) | NotText

  /** The lambda of line 15: `x.split("/")[-1] if isinstance(x, str) else x`. */
  function CleanArea(v: AreaValue): (r: AreaValue)
    ensures v.NotText? ==> r == v
    ensures v.Text? ==> r.Text? && Slash !in r.s && |r.s| <= |v.s| && v.s[|v.s| - |r.s|..] == r.s
    ensures v.Text? && |r.s| < |v.s| ==> v.s[|v.s| - |r.s| - 1] == Slash
    ensures v.Text? && Slash !in v.s ==> r == v
  {
    match v
    case Text(s) =>
      assert Slash !in s ==> LastSegment(s) == s by {
        if Slash !in s { NoSlashUnchanged(s); }
      }
      Text(LastSegment(s))
    case NotText => NotText
  }

  lemma CleanAreaIdempotent(v: AreaValue)
    ensures CleanArea(CleanArea(v)) == CleanArea(v)
  {
    if v.Text? {
      LastSegmentIdempotent(v.s);
    }
  }

  // ---------------------------------------------------------------------------
  // Python's ordering of strings and sorted(set(...))
  // ---------------------------------------------------------------------------

  /** Python's `a < b` on strings: lexicographic by code point, a proper prefix
      coming first. */
  predicate Less(a: string, b: string)
  {
    if a == [] then b != []
    else b != [] && (a[0] < b[0] || (a[0] == b[0] && Less(a[1..], b[1..])))
  }

  lemma {:induction false} LessIrreflexive(a: string)
    ensures !Less(a, a)
  {
    if a != [] { LessIrreflexive(a[1..]); }
  }

  lemma {:induction false} LessTransitive(a: string, b: string, c: string)
    requires Less(a, b) && Less(b, c)
    ensures Less(a, c)
  {
    if a != [] && a[0] == b[0] && b[0] == c[0] {
      LessTransitive(a[1..], b[1..], c[1..]);
    }
  }

  lemma {:induction false} LessTotal(a: string, b: string)
    requires a != b
    ensures Less(a, b) || Less(b, a)
  {
    if a != [] && b != [] && a[0] == b[0] {
      assert a == [a[0]] + a[1..] && b == [b[0]] + b[1..];
      LessTotal(a[1..], b[1..]);
    }
  }

  /** Every earlier string is smaller than every later one; in particular no
      string occurs twice. */
  predicate StrictlyAscending(s: seq<string>)
  {
    forall i, j :: 0 <= i < j < |s| ==> Less(s[i], s[j])
  }

  /** Places `x` in an ascending list, unless it is already there. */
  function InsertUnique(x: string, s: seq<string>): (r: seq<string>)
    requires StrictlyAscending(s)
    ensures StrictlyAscending(r)
    ensures forall y :: y in r <==> y == x || y in s
  {
    if s == [] then [x]
    else if x == s[0] then s
    else if Less(x, s[0]) then
      var r := [x] + s;
      forall j | 1 <= j < |r| ensures Less(r[0], r[j]) {
        if j > 1 { LessTransitive(x, s[0], r[j]); }
      }
      r
    else
      LessTotal(x, s[0]);
      var rest := InsertUnique(x, s[1..]);
      var r := [s[0]] + rest;
      forall j | 1 <= j < |r| ensures Less(r[0], r[j]) {
        assert r[j] in rest;
        if r[j] != x {
          var k :| 0 <= k < |s[1..]| && s[1..][k] == r[j];
          assert s[k + 1] == r[j];
        }
      }
      r
  }

  /** `sorted(set(xs))`: the distinct strings of `xs` in ascending order. */
  function SortedUnique(xs: seq<string>): (r: seq<string>)
    ensures StrictlyAscending(r)
    ensures forall y :: y in r <==> y in xs
  {
    if xs == [] then []
    else
      assert xs == [xs[0]] + xs[1..];
      InsertUnique(xs[0], SortedUnique(xs[1..]))
  }
}
