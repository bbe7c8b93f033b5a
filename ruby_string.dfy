/**
 * The String and Array operations the script relies on: `strip` and `chomp`
 * on the `-E` values, `join` for the summary line, and the `inspect` form an
 * Array takes when it is interpolated into a summary entry.
 */
module RubyString {

  /** Ruby's whitespace for `strip`: NUL, tab, line feed, vertical tab, form feed, carriage return, space. */
  predicate IsSpace(c: char)
  {
    c == '\0' || c == '\t' || c == '\n' || c == '\U{0B}' || c == '\U{0C}' || c == '\r' || c == ' '
  }

  /** Every character of s in [lo, hi) is whitespace. */
  predicate SpaceBetween(s: string, lo: int, hi: int)
  {
    forall i :: lo <= i < hi && 0 <= i < |s| ==> IsSpace(s[i])
  }

  /** The end of the run of whitespace that starts at i. */
  function LeadingEnd(s: string, i: nat): (n: nat)
    requires i <= |s|
    ensures i <= n <= |s|
    ensures SpaceBetween(s, i, n)
    ensures n < |s| ==> !IsSpace(s[n])
    decreases |s| - i
  {
    if i < |s| && IsSpace(s[i]) then LeadingEnd(s, i + 1) else i
  }

  /** The start of the run of whitespace that ends at j, looking no further left than lo. */
  function TrailingStart(s: string, lo: nat, j: nat): (m: nat)
    requires lo <= j <= |s|
    ensures lo <= m <= j
    ensures SpaceBetween(s, m, j)
    ensures m > lo ==> !IsSpace(s[m - 1])
  {
    if j > lo && IsSpace(s[j - 1]) then TrailingStart(s, lo, j - 1) else j
  }

  /** `strip`. */
  function Strip(s: string): string
  {
    var n := LeadingEnd(s, 0);
    var m := TrailingStart(s, n, |s|);
    s[n..m]
  }

  /**
   * `strip` returns the slice of s between its leading and its trailing
   * whitespace, and that slice neither starts nor ends with whitespace.
   */
  lemma StripSpec(s: string)
    ensures var r := Strip(s);
      && (r == [] || (!IsSpace(r[0]) && !IsSpace(r[|r| - 1])))
      && exists i, j :: 0 <= i <= j <= |s| && r == s[i..j] && SpaceBetween(s, 0, i) && SpaceBetween(s, j, |s|)
  {
    var n := LeadingEnd(s, 0);
    var m := TrailingStart(s, n, |s|);
    assert Strip(s) == s[n..m];
  }

  /** `chomp` with no argument: drops one trailing "\r\n", "\n" or "\r". */
  function Chomp(s: string): string
  {
    if |s| >= 2 && s[|s| - 2..] == "\r\n" then s[..|s| - 2]
    else if |s| >= 1 && (s[|s| - 1] == '\n' || s[|s| - 1] == '\r') then s[..|s| - 1]
    else s
  }

  /** `strip` returns a string already free of a trailing line break, so `chomp` after it changes nothing. */
  lemma ChompAfterStrip(s: string)
    ensures Chomp(Strip(s)) == Strip(s)
  {
    StripSpec(s);
  }

  /** `xs.join(sep)`. */
  function Join(xs: seq<string>, sep: string): (r: string)
    ensures |xs| == 1 ==> r == xs[0]
  {
    if |xs| == 0 then ""
    else if |xs| == 1 then xs[0]
    else xs[0] + sep + Join(xs[1..], sep)
  }

  /** Splitting on a single character (the inverse of joining on it). */
  function Split(s: string, c: char): (r: seq<string>)
    ensures |r| > 0
  {
    if s == [] then [""]
    else
      var rest := Split(s[1..], c);
      if s[0] == c then [""] + rest
      else [[s[0]] + rest[0]] + rest[1..]
  }

  lemma {:induction false} SplitPlain(a: string, c: char)
    requires c !in a
    ensures Split(a, c) == [a]
  {
    if a != [] {
      SplitPlain(a[1..], c);
      assert [a[0]] + a[1..] == a;
    }
  }

  lemma {:induction false} SplitAfter(a: string, c: char, b: string)
    requires c !in a
    ensures Split(a + [c] + b, c) == [a] + Split(b, c)
  {
    if a == [] {
      assert a + [c] + b == [c] + b;
      assert ([c] + b)[1..] == b;
    } else {
      assert (a + [c] + b)[1..] == a[1..] + [c] + b;
      SplitAfter(a[1..], c, b);
      assert [a[0]] + a[1..] == a;
    }
  }

  /**
   * When no element contains the separator, splitting the joined string on
   * it gives the elements back.
   */
  lemma {:induction false} SplitJoin(xs: seq<string>, c: char)
    requires |xs| > 0
    requires forall i :: 0 <= i < |xs| ==> c !in xs[i]
    ensures Split(Join(xs, [c]), c) == xs
  {
    if |xs| == 1 {
      SplitPlain(xs[0], c);
    } else {
      SplitJoin(xs[1..], c);
      SplitAfter(xs[0], c, Join(xs[1..], [c]));
      assert [xs[0]] + xs[1..] == xs;
    }
  }

  /** The backslash escape `inspect` gives a single character. */
  function EscapeChar(c: char): string
  {
    if c == '"' then "\\\""
    else if c == '\\' then "\\\\"
    else if c == '\n' then "\\n"
    else if c == '\r' then "\\r"
    else if c == '\t' then "\\t"
    else if c == '\U{0C}' then "\\f"
    else if c == '\U{0B}' then "\\v"
    else if c == '\U{08}' then "\\b"
    else if c == '\U{07}' then "\\a"
    else if c == '\U{1B}' then "\\e"
    else [c]
  }

  /** The body of a String's `inspect`: `#` is escaped before `{`, `$` and `@`. */
  function Escape(s: string): string
  {
    if s == [] then ""
    else if s[0] == '#' && |s| > 1 && (s[1] == '{' || s[1] == '$' || s[1] == '@') then "\\#" + Escape(s[1..])
    else EscapeChar(s[0]) + Escape(s[1..])
  }

  function UnescapeChar(c: char): char
  {
    if c == 'n' then '\n'
    else if c == 'r' then '\r'
    else if c == 't' then '\t'
    else if c == 'f' then '\U{0C}'
    else if c == 'v' then '\U{0B}'
    else if c == 'b' then '\U{08}'
    else if c == 'a' then '\U{07}'
    else if c == 'e' then '\U{1B}'
    else c
  }

  /** Reading an escaped string back. */
  function Unescape(s: string): string
  {
    if s == [] then ""
    else if s[0] == '\\' && |s| >= 2 then [UnescapeChar(s[1])] + Unescape(s[2..])
    else [s[0]] + Unescape(s[1..])
  }

  /** Escaping loses nothing: reading the escaped text back gives the original string. */
  lemma {:induction false} UnescapeEscape(s: string)
    ensures Unescape(Escape(s)) == s
  {
    if s != [] {
      UnescapeEscape(s[1..]);
      var e := if s[0] == '#' && |s| > 1 && (s[1] == '{' || s[1] == '$' || s[1] == '@') then "\\#" else EscapeChar(s[0]);
      var rest := Escape(s[1..]);
      assert Escape(s) == e + rest;
      if |e| == 2 {
        assert (e + rest)[2..] == rest;
      } else {
        assert (e + rest)[1..] == rest;
      }
      assert [s[0]] + s[1..] == s;
    }
  }

  /** A String's `inspect`: the escaped text in double quotes. */
  function Quote(s: string): string
  {
    "\"" + Escape(s) + "\""
  }

  function QuoteAll(xs: seq<string>): (r: seq<string>)
    ensures |r| == |xs|
    ensures forall i :: 0 <= i < |xs| ==> r[i] == Quote(xs[i])
  {
    if xs == [] then [] else [Quote(xs[0])] + QuoteAll(xs[1..])
  }

  /** An Array of Strings' `inspect` (which is also its `to_s`): `["a", "b"]`. */
  function Inspect(xs: seq<string>): string
  {
    "[" + Join(QuoteAll(xs), ", ") + "]"
  }
}
