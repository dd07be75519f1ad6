/** Character-level helpers: whitespace stripping, decimal digits and dotted paths. */
module Text {

  /** The whitespace `str.strip()` removes, restricted to ASCII: space, tab, LF, VT, FF, CR. */
  predicate IsSpace(c: char) {
    c == ' ' || ('\t' <= c <= '\r')
  }

  /** True when every character of `s` is whitespace (so `s.strip()` is empty). */
  predicate Blank(s: string) {
    forall i :: 0 <= i < |s| ==> IsSpace(s[i])
  }

  /** The number of leading whitespace characters of `s`. */
  function Lead(s: string): (k: nat)
    ensures k <= |s|
    ensures forall i :: 0 <= i < k ==> IsSpace(s[i])
    ensures k < |s| ==> !IsSpace(s[k])
    decreases |s|
  {
    if |s| == 0 || !IsSpace(s[0]) then 0 else 1 + Lead(s[1..])
  }

  /** The length of `s` without its trailing whitespace. */
  function Trail(s: string): (k: nat)
    ensures k <= |s|
    ensures forall i :: k <= i < |s| ==> IsSpace(s[i])
    ensures k > 0 ==> !IsSpace(s[k - 1])
    decreases |s|
  {
    if |s| == 0 || !IsSpace(s[|s| - 1]) then |s| else Trail(s[..|s| - 1])
  }

  /** Python's `str.strip()`: the slice of `s` left after removing surrounding whitespace. */
  function Strip(s: string): (r: string)
    ensures r == [] <==> Blank(s)
    ensures r == [] || (!IsSpace(r[0]) && !IsSpace(r[|r| - 1]))
    ensures Lead(s) + |r| <= |s| && r == s[Lead(s)..Lead(s) + |r|]
    ensures forall i :: 0 <= i < Lead(s) || Lead(s) + |r| <= i < |s| ==> IsSpace(s[i])
  {
    var a, b := Lead(s), Trail(s);
    if b <= a then
      []
    else
      s[a..b]
  }

  /** Stripping twice strips nothing more. */
  lemma {:induction false} StripIdempotent(s: string)
    ensures Strip(Strip(s)) == Strip(s)
  {
    var r := Strip(s);
    if r != [] {
      assert Lead(r) == 0;
      assert Trail(r) == |r|;
    }
  }

  predicate IsDigit(c: char) {
    '0' <= c <= '9'
  }

  /** Python's `str.isdigit()`, restricted to the ASCII digits: non-empty and all digits. */
  predicate IsDigits(s: string) {
    |s| > 0 && forall i :: 0 <= i < |s| ==> IsDigit(s[i])
  }

  /** Python's `int(s)` on a digit string (leading zeros allowed). */
  function DigitsValue(s: string): nat
    requires forall i :: 0 <= i < |s| ==> IsDigit(s[i])
  {
    if |s| == 0 then 0
    else
      assert IsDigit(s[|s| - 1]);
      10 * DigitsValue(s[..|s| - 1]) + (s[|s| - 1] as int - '0' as int)
  }

  function DigitChar(d: nat): char
    requires d < 10
  {
    ('0' as int + d) as char
  }

  /** The decimal rendering of `n` (Python's `'{}'.format(n)`), without leading zeros. */
  function Decimal(n: nat): (r: string)
    ensures IsDigits(r)
    ensures DigitsValue(r) == n
    ensures r[0] != '0' || r == "0"
    ensures '.' !in r && '[' !in r && ']' !in r
  {
    if n < 10 then [DigitChar(n)]
    else
      var p := Decimal(n / 10);
      var r := p + [DigitChar(n % 10)];
      assert r[..|r| - 1] == p;
      r
  }

  /** Position of the first '.' in `s`, or `|s|` when there is none. */
  function DotIndex(s: string): (k: nat)
    ensures k <= |s|
    ensures k < |s| ==> s[k] == '.'
    ensures forall i :: 0 <= i < k ==> s[i] != '.'
  {
    if |s| == 0 || s[0] == '.' then 0 else 1 + DotIndex(s[1..])
  }

  predicate HasDot(s: string) {
    DotIndex(s) < |s|
  }

  /** `s.split('.', 1)[0]`: the text before the first '.'. */
  function Head(s: string): string {
    s[..DotIndex(s)]
  }

  /** `s.split('.', 1)[1]`: the text after the first '.'. */
  function After(s: string): string
    requires HasDot(s)
  {
    s[DotIndex(s) + 1..]
  }

  /** JavaScript's `s.split('.')`: every maximal dot-free piece, so never an empty sequence. */
  function SplitAll(s: string): (r: seq<string>)
    ensures |r| >= 1
    ensures r[0] == Head(s)
    decreases |s|
  {
    if HasDot(s) then [Head(s)] + SplitAll(After(s)) else [s]
  }

  /** JavaScript's `segments.join('.')`. */
  function Join(segs: seq<string>): string {
    if |segs| == 0 then ""
    else if |segs| == 1 then segs[0]
    else segs[0] + "." + Join(segs[1..])
  }

  predicate DotFree(segs: seq<string>) {
    forall i :: 0 <= i < |segs| ==> '.' !in segs[i]
  }

  /** The first dot of `a + "." + b` is the one between them when `a` has none. */
  lemma {:induction false} DotAfterDotFree(a: string, b: string)
    requires '.' !in a
    ensures DotIndex(a + "." + b) == |a|
    ensures Head(a + "." + b) == a
    ensures After(a + "." + b) == b
  {
    var s := a + "." + b;
    assert forall i :: 0 <= i < |a| ==> s[i] == a[i] && s[i] != '.';
    assert s[|a|] == '.';
    assert s[..|a|] == a;
    assert s[|a| + 1..] == b;
  }

  lemma {:induction false} DotFreeHasNoDot(a: string)
    requires '.' !in a
    ensures !HasDot(a) && Head(a) == a
  {
    assert forall i :: 0 <= i < |a| ==> a[i] != '.';
  }

  /** Splitting a joined path gives back its dot-free segments. */
  lemma {:induction false} SplitJoin(segs: seq<string>)
    requires |segs| > 0 && DotFree(segs)
    ensures SplitAll(Join(segs)) == segs
  {
    if |segs| == 1 {
      DotFreeHasNoDot(segs[0]);
    } else {
      DotAfterDotFree(segs[0], Join(segs[1..]));
      SplitJoin(segs[1..]);
      assert segs == [segs[0]] + segs[1..];
    }
  }

  /** Joining the pieces of a split restores the original string. */
  lemma {:induction false} JoinSplit(s: string)
    ensures Join(SplitAll(s)) == s
    decreases |s|
  {
    if HasDot(s) {
      var k := DotIndex(s);
      JoinSplit(After(s));
      var rest := SplitAll(After(s));
      assert SplitAll(s)[1..] == rest;
      assert s == s[..k] + "." + s[k + 1..];
    }
  }
}
