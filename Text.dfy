/** The two pieces of .NET text handling the core relies on: `String.IndexOf`
    (here ordinal: no culture rules) and hexadecimal formatting of integers
    (`{n:X2}` and friends), together with a hex reader that inverts it. */
module Text {

  /** `pat` occurs in `s` starting at index `j`. */
  predicate MatchAt(s: string, pat: string, j: int)
  {
    0 <= j && j + |pat| <= |s| && s[j..j + |pat|] == pat
  }

  /** Index of the first occurrence of `pat` in `s`, or -1 when there is none. */
  function IndexOf(s: string, pat: string): (r: int)
    ensures -1 <= r <= |s|
    ensures r >= 0 ==> MatchAt(s, pat, r)
    ensures r >= 0 ==> forall j :: 0 <= j < r ==> !MatchAt(s, pat, j)
    ensures r < 0 ==> forall j :: !MatchAt(s, pat, j)
    decreases |s|
  {
    if |s| < |pat| then -1
    else if s[..|pat|] == pat then 0
    else
      var k := IndexOf(s[1..], pat);
      assert forall j :: 0 < j ==> (MatchAt(s, pat, j) <==> MatchAt(s[1..], pat, j - 1)) by {
        forall j | 0 < j ensures MatchAt(s, pat, j) <==> MatchAt(s[1..], pat, j - 1) {
          if j + |pat| <= |s| {
            assert s[1..][j - 1..j - 1 + |pat|] == s[j..j + |pat|];
          }
        }
      }
      if k < 0 then -1 else k + 1
  }

  /** `s.IndexOf(pat) >= 0`: `pat` occurs somewhere in `s`. */
  predicate Contains(s: string, pat: string)
  {
    IndexOf(s, pat) >= 0
  }

  /** A pattern found in one part of a concatenation is found in the whole. */
  lemma {:induction false} ContainsInContext(pre: string, pat: string, post: string)
    ensures Contains(pre + pat + post, pat)
  {
    var s := pre + pat + post;
    assert s[|pre|..|pre| + |pat|] == pat;
    assert MatchAt(s, pat, |pre|);
  }

  /** The first `sep` in `p + [sep] + u` is the one right after `p` when `p` has none. */
  lemma {:induction false} FirstSeparator(p: string, sep: char, u: string)
    requires forall i :: 0 <= i < |p| ==> p[i] != sep
    ensures IndexOf(p + [sep] + u, [sep]) == |p|
  {
    var s := p + [sep] + u;
    assert s[|p|..|p| + 1] == [sep];
    assert MatchAt(s, [sep], |p|);
    forall j | 0 <= j < |p| ensures !MatchAt(s, [sep], j) {
      assert s[j] == p[j];
    }
  }

  function HexDigit(d: nat, upper: bool): (c: char)
    requires d < 16
    ensures IsHexDigit(c) && DigitValue(c) == d
    ensures upper ==> c != ':' && !('a' <= c <= 'f')
  {
    if d < 10 then '0' + d as char
    else if upper then 'A' + (d - 10) as char
    else 'a' + (d - 10) as char
  }

  predicate IsHexDigit(c: char)
  {
    '0' <= c <= '9' || 'A' <= c <= 'F' || 'a' <= c <= 'f'
  }

  predicate AllHex(s: string)
  {
    forall i :: 0 <= i < |s| ==> IsHexDigit(s[i])
  }

  function DigitValue(c: char): (d: nat)
    requires IsHexDigit(c)
    ensures d < 16
  {
    if '0' <= c <= '9' then (c - '0') as nat
    else if 'A' <= c <= 'F' then (c - 'A') as nat + 10
    else (c - 'a') as nat + 10
  }

  /** Shortest base-16 rendering of `n`, most significant digit first ("" for 0). */
  function Hex(n: nat, upper: bool): (s: string)
    ensures AllHex(s)
    ensures s == [] <==> n == 0
    ensures s != [] ==> s[0] != '0'
    ensures upper ==> forall i :: 0 <= i < |s| ==> s[i] != ':' && !('a' <= s[i] <= 'f')
  {
    if n == 0 then [] else Hex(n / 16, upper) + [HexDigit(n % 16, upper)]
  }

  /** .NET's `{n:X<width>}` (upper) and `{n:x<width>}` (lower): hex padded with '0' to at
      least `width` digits, and at least one digit (zero prints as "0"). A result longer
      than both has no leading zero, so it is the shortest rendering. */
  function FormatHex(n: nat, width: nat, upper: bool): (s: string)
    ensures |s| >= width && |s| >= 1
    ensures |s| > width && |s| > 1 ==> s[0] != '0'
    ensures AllHex(s)
    ensures upper ==> forall i :: 0 <= i < |s| ==> s[i] != ':' && !('a' <= s[i] <= 'f')
    ensures HexValue(s) == n
  {
    var d := Hex(n, upper);
    var w := if width == 0 then 1 else width;
    HexRoundTrip(n, upper);
    if |d| >= w then d
    else
      PadHex(w - |d|, d, upper);
      seq(w - |d|, _ => '0') + d
  }

  /** Zero padding keeps a hex string hex, upper case if it was, and of the same value. */
  lemma PadHex(k: nat, d: string, upper: bool)
    requires AllHex(d)
    requires upper ==> forall i :: 0 <= i < |d| ==> d[i] != ':' && !('a' <= d[i] <= 'f')
    ensures var s := seq(k, _ => '0') + d;
            && AllHex(s)
            && (upper ==> forall i :: 0 <= i < |s| ==> s[i] != ':' && !('a' <= s[i] <= 'f'))
            && HexValue(s) == HexValue(d)
  {
    var s := seq(k, _ => '0') + d;
    assert forall i :: 0 <= i < |s| ==> s[i] == (if i < k then '0' else d[i - k]);
    LeadingZeros(k, d);
  }

  /** The value of a run of hex digits, most significant first. */
  function HexValue(s: string): nat
    requires AllHex(s)
  {
    if s == [] then 0 else HexValue(s[..|s| - 1]) * 16 + DigitValue(s[|s| - 1])
  }

  /** Reading back what Hex wrote gives the number. */
  lemma {:induction false} HexRoundTrip(n: nat, upper: bool)
    ensures HexValue(Hex(n, upper)) == n
  {
    if n != 0 {
      var s := Hex(n, upper);
      assert s[..|s| - 1] == Hex(n / 16, upper);
      HexRoundTrip(n / 16, upper);
    }
  }

  /** Leading zeros do not change a hex value. */
  lemma {:induction false} LeadingZeros(k: nat, s: string)
    requires AllHex(s)
    ensures HexValue(seq(k, _ => '0') + s) == HexValue(s)
    decreases k, |s|
  {
    var z := seq(k, _ => '0');
    if s == [] {
      assert z + s == z;
      if k > 0 {
        assert z[..k - 1] == seq(k - 1, _ => '0');
        LeadingZeros(k - 1, []);
        assert seq(k - 1, _ => '0') + [] == seq(k - 1, _ => '0');
      }
    } else {
      var t := z + s;
      assert t[..|t| - 1] == z + s[..|s| - 1];
      LeadingZeros(k, s[..|s| - 1]);
    }
  }
}
