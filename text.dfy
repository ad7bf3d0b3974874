/** Whitespace stripping and separator splitting, shared by the server, which
    strips each requested key before looking it up, and by the dashboard, which
    trims its inputs and splits the bulk-delete field on commas. */
module Text {

  /** The whitespace characters removed at both ends by `str.strip()` and
      `String.prototype.trim()` (ASCII only). */
  predicate IsSpace(c: char) {
    c == ' ' || c == '\t' || c == '\n' || c == '\r' || c == '\U{0B}' || c == '\U{0C}'
  }

  predicate AllSpace(s: string) {
    forall i :: 0 <= i < |s| ==> IsSpace(s[i])
  }

  /** True when `s` has no whitespace at either end. */
  predicate IsStripped(s: string) {
    s == [] || (!IsSpace(s[0]) && !IsSpace(s[|s| - 1]))
  }

  /** The length of the whitespace run that starts `s`. */
  function LeadingSpace(s: string): (n: nat)
    ensures n <= |s|
    ensures AllSpace(s[..n])
    ensures n == |s| || !IsSpace(s[n])
  {
    if s == [] || !IsSpace(s[0]) then 0
    else
      var m := LeadingSpace(s[1..]);
      assert s[..m + 1] == [s[0]] + s[1..][..m];
      m + 1
  }

  /** The position where the whitespace run that ends `s` begins. */
  function TrailingStart(s: string): (n: nat)
    ensures n <= |s|
    ensures AllSpace(s[n..])
    ensures n == 0 || !IsSpace(s[n - 1])
  {
    if s == [] || !IsSpace(s[|s| - 1]) then |s|
    else
      var m := TrailingStart(s[..|s| - 1]);
      assert s[m..] == s[..|s| - 1][m..] + [s[|s| - 1]];
      m
  }

  /** `s` without its leading and trailing whitespace. */
  function Strip(s: string): (r: string)
    ensures IsStripped(r)
    ensures LeadingSpace(s) + |r| <= |s|
    ensures r == s[LeadingSpace(s)..LeadingSpace(s) + |r|]
    ensures AllSpace(s[LeadingSpace(s) + |r|..])
    ensures r == [] <==> AllSpace(s)
  {
    var lead := LeadingSpace(s);
    var n := TrailingStart(s[lead..]);
    assert s[lead..][n..] == s[lead + n..];
    assert n > 0 ==> s[lead + n - 1] == s[lead..][n - 1];
    assert n == 0 ==> s == s[..lead] + s[lead..];
    s[lead..lead + n]
  }

  /** A string with nothing to strip is its own stripped form. */
  lemma StripStripped(s: string)
    requires IsStripped(s)
    ensures Strip(s) == s
  {
    assert LeadingSpace(s) == 0;
  }

  /** Stripping twice is stripping once. */
  lemma StripIdempotent(s: string)
    ensures Strip(Strip(s)) == Strip(s)
  {
    StripStripped(Strip(s));
  }

  /** The inverse of `Split`: the parts glued back with `sep` between them. */
  function Join(parts: seq<string>, sep: char): string
  {
    if |parts| == 0 then []
    else if |parts| == 1 then parts[0]
    else parts[0] + [sep] + Join(parts[1..], sep)
  }

  /** The pieces of `s` between occurrences of `sep`, as `split(sep)` gives
      them: the empty string gives one empty piece, and adjacent separators
      give empty pieces. */
  function Split(s: string, sep: char): (parts: seq<string>)
    ensures |parts| >= 1
    ensures forall i :: 0 <= i < |parts| ==> sep !in parts[i]
    ensures Join(parts, sep) == s
  {
    if s == [] then [[]]
    else
      var rest := Split(s[1..], sep);
      if s[0] == sep then
        assert s == [sep] + s[1..];
        [[]] + rest
      else
        var parts := [[s[0]] + rest[0]] + rest[1..];
        assert parts[1..] == rest[1..];
        assert s == [s[0]] + s[1..];
        parts
  }

  /** A string without the separator is a single piece. */
  lemma {:induction false} SplitWithoutSep(s: string, sep: char)
    requires sep !in s
    ensures Split(s, sep) == [s]
  {
    if s != [] {
      SplitWithoutSep(s[1..], sep);
    }
  }

  /** Splitting distributes over a separator placed between two strings. */
  lemma {:induction false} SplitAround(a: string, sep: char, b: string)
    ensures Split(a + [sep] + b, sep) == Split(a, sep) + Split(b, sep)
  {
    if a == [] {
      assert a + [sep] + b == [sep] + b;
      assert ([sep] + b)[1..] == b;
    } else {
      assert (a + [sep] + b)[1..] == a[1..] + [sep] + b;
      SplitAround(a[1..], sep, b);
    }
  }

  /** `Split` undoes `Join` when no part holds the separator. */
  lemma {:induction false} SplitJoin(parts: seq<string>, sep: char)
    requires |parts| >= 1
    requires forall i :: 0 <= i < |parts| ==> sep !in parts[i]
    ensures Split(Join(parts, sep), sep) == parts
  {
    if |parts| == 1 {
      SplitWithoutSep(parts[0], sep);
    } else {
      SplitJoin(parts[1..], sep);
      SplitAround(parts[0], sep, Join(parts[1..], sep));
      SplitWithoutSep(parts[0], sep);
      assert parts == [parts[0]] + parts[1..];
    }
  }
}
