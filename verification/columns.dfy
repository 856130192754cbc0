/** Column-name handling of the two table readers: Python's `str.lower`,
    `str.strip` and `split('.')[0]`, and the first-match column lookup. */
module Columns {
  import opened Series

  /** Characters for which Python's `str.isspace` holds, i.e. what a
      bare `str.strip()` removes. */
  predicate IsSpace(c: char) {
    c == ' ' || ('\U{9}' <= c <= '\U{D}') || ('\U{1C}' <= c <= '\U{1F}')
    || c == '\U{85}' || c == '\U{A0}' || c == '\U{1680}'
    || ('\U{2000}' <= c <= '\U{200A}') || c == '\U{2028}' || c == '\U{2029}'
    || c == '\U{202F}' || c == '\U{205F}' || c == '\U{3000}'
  }

  /** Lower-casing of one character. ASCII capitals map to small letters
      and the Kelvin sign to `k`; these are the only characters whose
      Python lower case is plain ASCII, so matching a lowered name against
      an ASCII alias gives Python's answer. Other characters are kept. */
  function LowerChar(c: char): (d: char)
    ensures !('A' <= d <= 'Z') && d != '\U{212A}'
    ensures IsSpace(d) <==> IsSpace(c)
  {
    if 'A' <= c <= 'Z' then (c as int + 32) as char
    else if c == '\U{212A}' then 'k'
    else c
  }

  function Lower(s: string): (r: string)
    ensures |r| == |s|
    ensures forall i :: 0 <= i < |s| ==> r[i] == LowerChar(s[i])
  {
    seq(|s|, i requires 0 <= i < |s| => LowerChar(s[i]))
  }

  /** Drops leading whitespace. */
  function TrimStart(s: string): (r: string)
    ensures |r| <= |s| && r == s[|s| - |r|..]
    ensures forall i :: 0 <= i < |s| - |r| ==> IsSpace(s[i])
    ensures |r| == 0 || !IsSpace(r[0])
  {
    if |s| > 0 && IsSpace(s[0]) then TrimStart(s[1..]) else s
  }

  /** Drops trailing whitespace. */
  function TrimEnd(s: string): (r: string)
    ensures |r| <= |s| && r == s[..|r|]
    ensures forall i :: |r| <= i < |s| ==> IsSpace(s[i])
    ensures |r| == 0 || !IsSpace(r[|r| - 1])
  {
    if |s| > 0 && IsSpace(s[|s| - 1]) then TrimEnd(s[..|s| - 1]) else s
  }

  /** Python's `str.strip()`. */
  function Strip(s: string): string {
    TrimEnd(TrimStart(s))
  }

  /** The time-series reader's header rule, `col.lower().strip()`. */
  function NormaliseName(c: string): string {
    Strip(Lower(c))
  }

  /** `split('.')[0]`: everything before the first dot. */
  function BeforeDot(s: string): (r: string)
    ensures |r| <= |s| && r == s[..|r|]
    ensures '.' !in r
    ensures |r| < |s| ==> s[|r|] == '.'
  {
    if |s| == 0 || s[0] == '.' then [] else [s[0]] + BeforeDot(s[1..])
  }

  /** The load-profile reader's header rule, `str(col).strip().split('.')[0]`
      (the header cell already rendered as text). */
  function ProfileHeaderName(c: string): string {
    BeforeDot(Strip(c))
  }

  /** A stripped string has no whitespace at either end, and stripping it
      again changes nothing. */
  lemma {:induction false} StripIsIdempotent(s: string)
    ensures var t := Strip(s);
      (|t| == 0 || (!IsSpace(t[0]) && !IsSpace(t[|t| - 1]))) && Strip(t) == t
  {
    var a := TrimStart(s);
    var t := TrimEnd(a);
    if |t| > 0 {
      assert t[0] == a[0];
    }
    assert TrimStart(t) == t;
  }

  /** Normalising a header twice gives the same name as normalising it
      once: the normalised names are fixed points of the rule. */
  lemma {:induction false} NormaliseNameIsIdempotent(c: string)
    ensures NormaliseName(NormaliseName(c)) == NormaliseName(c)
  {
    var l := Lower(c);
    var t := Strip(l);
    LoweredSliceIsLowered(l, t);
    StripIsIdempotent(l);
  }

  /** No character of `s` changes under lower-casing. */
  predicate IsLowered(s: string) {
    forall i :: 0 <= i < |s| ==> LowerChar(s[i]) == s[i]
  }

  lemma SliceIsLowered(s: string, a: int, b: int)
    requires IsLowered(s) && 0 <= a <= b <= |s|
    ensures IsLowered(s[a..b])
  {
    forall i | 0 <= i < b - a
      ensures LowerChar(s[a..b][i]) == s[a..b][i]
    {
      assert s[a..b][i] == s[a + i];
    }
  }

  lemma LoweredSliceIsLowered(l: string, t: string)
    requires IsLowered(l)
    requires t == Strip(l)
    ensures Lower(t) == t
  {
    var a := TrimStart(l);
    assert a == l[|l| - |a|..|l|];
    SliceIsLowered(l, |l| - |a|, |l|);
    assert t == a[0..|t|];
    SliceIsLowered(a, 0, |t|);
  }

  /** Number of columns carrying the name `a`. */
  function Occurrences(names: seq<string>, a: string): (n: nat)
    ensures n == 0 <==> a !in names
  {
    if |names| == 0 then 0
    else (if names[0] == a then 1 else 0) + Occurrences(names[1..], a)
  }

  /** Position of the first column named `a`. */
  function IndexOf(names: seq<string>, a: string): (i: nat)
    requires a in names
    ensures i < |names| && names[i] == a
    ensures forall j :: 0 <= j < i ==> names[j] != a
  {
    if names[0] == a then 0 else 1 + IndexOf(names[1..], a)
  }

  /** `next((c for c in aliases if c in names), None)`. */
  function FirstPresent(aliases: seq<string>, names: seq<string>): (r: Option<string>)
    ensures r.None? <==> forall k :: 0 <= k < |aliases| ==> aliases[k] !in names
    ensures r.Some? ==>
              exists k :: 0 <= k < |aliases| && aliases[k] == r.value && r.value in names
                           && forall j :: 0 <= j < k ==> aliases[j] !in names
  {
    if |aliases| == 0 then None
    else if aliases[0] in names then Some(aliases[0])
    else
      var rest := FirstPresent(aliases[1..], names);
      if rest.Some? then
        var k :| 0 <= k < |aliases| - 1 && aliases[1..][k] == rest.value
          && rest.value in names && forall j :: 0 <= j < k ==> aliases[1..][j] !in names;
        assert aliases[k + 1] == rest.value;
        rest
      else rest
  }
}
