/**
 * ASCII text as the telegram parser sees it: the domain on which Rust's
 * byte-indexed `str` slicing cannot panic, and `str::trim` restricted to
 * that domain (it strips `char::is_whitespace` characters from both ends,
 * and the ASCII ones among those are 0x09..0x0D and 0x20).
 */
module AsciiText {

  /** Every character is a single byte, so character and byte offsets agree. */
  predicate IsAscii(s: string) {
    forall i :: 0 <= i < |s| ==> s[i] < 128 as char
  }

  /** Tab, line feed, vertical tab, form feed, carriage return and space. */
  predicate IsWhitespace(c: char) {
    c == ' ' || '\t' <= c <= '\r'
  }

  predicate AllWhitespace(s: string) {
    forall i :: 0 <= i < |s| ==> IsWhitespace(s[i])
  }

  /** Neither end of `t` is whitespace: `t` is what a trim can return. */
  predicate Unpadded(t: string) {
    t == [] || (!IsWhitespace(t[0]) && !IsWhitespace(t[|t| - 1]))
  }

  /** `s` is `t` surrounded by `k` leading and some trailing whitespace. */
  predicate PaddedAt(s: string, t: string, k: nat) {
    k + |t| <= |s| && s[k..k + |t|] == t && AllWhitespace(s[..k]) && AllWhitespace(s[k + |t|..])
  }

  /** The number of whitespace characters `s` starts with. */
  function LeadingWhitespace(s: string): (n: nat)
    ensures n <= |s|
    ensures forall i :: 0 <= i < n ==> IsWhitespace(s[i])
    ensures n < |s| ==> !IsWhitespace(s[n])
  {
    if s == [] || !IsWhitespace(s[0]) then 0
    else
      var n := LeadingWhitespace(s[1..]);
      assert forall i :: 1 <= i < n + 1 ==> s[i] == s[1..][i - 1];
      n + 1
  }

  /** The length of `s` without the whitespace it ends with. */
  function ContentEnd(s: string): (n: nat)
    ensures n <= |s|
    ensures forall i :: n <= i < |s| ==> IsWhitespace(s[i])
    ensures n > 0 ==> !IsWhitespace(s[n - 1])
  {
    if s == [] || !IsWhitespace(s[|s| - 1]) then |s|
    else
      var n := ContentEnd(s[..|s| - 1]);
      assert forall i :: n <= i < |s| - 1 ==> s[i] == s[..|s| - 1][i];
      n
  }

  /** `s` without its leading whitespace. */
  function TrimStart(s: string): (r: string)
    ensures r == [] || !IsWhitespace(r[0])
  {
    s[LeadingWhitespace(s)..]
  }

  /** `s` without its trailing whitespace. */
  function TrimEnd(s: string): (r: string)
    ensures r == [] || !IsWhitespace(r[|r| - 1])
  {
    s[..ContentEnd(s)]
  }

  /** Rust's `str::trim` on ASCII text. */
  function Trim(s: string): (r: string)
    ensures |r| <= |s|
    ensures Unpadded(r)
  {
    TrimEnd(TrimStart(s))
  }

  /** What `Trim` removed is whitespace, on both sides of what it kept. */
  lemma TrimKeepsPaddedCore(s: string)
    ensures PaddedAt(s, Trim(s), LeadingWhitespace(s))
  {
    var k := LeadingWhitespace(s);
    var u := s[k..];
    var m := ContentEnd(u);
    var t := Trim(s);
    assert t == u[..m];
    assert k + |t| <= |s|;
    assert s[k..k + |t|] == t;
    assert AllWhitespace(s[..k]);
    assert s[k + |t|..] == u[m..];
    assert AllWhitespace(u[m..]);
  }

  /** After leading whitespace `p`, `u` starts at `|p|` when it does not start with whitespace. */
  lemma {:induction false} LeadingWhitespacePadded(p: string, u: string)
    requires AllWhitespace(p)
    requires u == [] || !IsWhitespace(u[0])
    ensures LeadingWhitespace(p + u) == |p|
  {
    if p != [] {
      assert (p + u)[1..] == p[1..] + u;
      LeadingWhitespacePadded(p[1..], u);
    }
  }

  /** Before trailing whitespace `q`, the content of `u + q` ends at `|u|` when `u` does not end with whitespace. */
  lemma {:induction false} ContentEndPadded(u: string, q: string)
    requires AllWhitespace(q)
    requires u == [] || !IsWhitespace(u[|u| - 1])
    ensures ContentEnd(u + q) == |u|
  {
    if q != [] {
      var q' := q[..|q| - 1];
      assert (u + q)[..|u + q| - 1] == u + q';
      ContentEndPadded(u, q');
    }
  }

  /** Trimming a padded field gives back exactly the unpadded text inside it. */
  lemma TrimPadded(p: string, t: string, q: string)
    requires AllWhitespace(p) && AllWhitespace(q) && Unpadded(t)
    ensures Trim(p + t + q) == t
  {
    if t == [] {
      assert p + t + q == p + q;
      var k := LeadingWhitespace(p + q);
      assert AllWhitespace(p + q);
      assert k == |p + q|;
    } else {
      assert p + t + q == p + (t + q);
      LeadingWhitespacePadded(p, t + q);
      assert (p + (t + q))[|p|..] == t + q;
      ContentEndPadded(t, q);
    }
  }

  /**
   * `Trim(s) == t` exactly when `t` has no whitespace at either end and `s`
   * is `t` with some whitespace before and after it.
   */
  lemma TrimCharacterization(s: string, t: string)
    ensures Trim(s) == t <==> Unpadded(t) && exists k: nat :: PaddedAt(s, t, k)
  {
    if Trim(s) == t {
      TrimKeepsPaddedCore(s);
    }
    if Unpadded(t) && exists k: nat :: PaddedAt(s, t, k) {
      var k: nat :| PaddedAt(s, t, k);
      var p, q := s[..k], s[k + |t|..];
      assert s == p + t + q;
      TrimPadded(p, t, q);
    }
  }
}
