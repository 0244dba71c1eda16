/** Character classes and small string helpers shared by the parser, the
    serialisers and the replicate histogram. Strings are `seq<char>`. */
module Text {
  import opened Wrappers

  /** Python's `str.isspace()` on one character: the ASCII controls TAB..CR
      and FS..US, the space, and the Unicode space separators. */
  predicate IsSpace(c: char) {
    || c == ' '
    || ('\t' <= c <= '\r')
    || ('\U{1C}' <= c <= '\U{1F}')
    || c == '\U{85}'
    || c == '\U{A0}'
    || c == '\U{1680}'
    || ('\U{2000}' <= c <= '\U{200A}')
    || c == '\U{2028}'
    || c == '\U{2029}'
    || c == '\U{202F}'
    || c == '\U{205F}'
    || c == '\U{3000}'
  }

  predicate IsDigit(c: char) {
    '0' <= c <= '9'
  }

  predicate AllDigits(s: string) {
    forall k | 0 <= k < |s| :: IsDigit(s[k])
  }

  predicate AllSpace(s: string) {
    forall k | 0 <= k < |s| :: IsSpace(s[k])
  }

  /** The first index at or after `i` holding `c`, or `|s|`. */
  function IndexOf(s: string, i: nat, c: char): (j: nat)
    requires i <= |s|
    ensures i <= j <= |s|
    ensures j < |s| ==> s[j] == c
    decreases |s| - i
  {
    if i < |s| && s[i] != c then IndexOf(s, i + 1, c) else i
  }

  /** `c` does not occur before the index found. */
  lemma {:induction false} IndexOfSkips(s: string, i: nat, c: char)
    requires i <= |s|
    ensures forall k | i <= k < IndexOf(s, i, c) :: s[k] != c
    decreases |s| - i
  {
    if i < |s| && s[i] != c {
      IndexOfSkips(s, i + 1, c);
    }
  }

  /** The search stops at the first occurrence of `c`. */
  lemma {:induction false} IndexOfFinds(s: string, i: nat, c: char, j: nat)
    requires i <= j < |s|
    requires s[j] == c
    requires forall k | i <= k < j :: s[k] != c
    ensures IndexOf(s, i, c) == j
    decreases j - i
  {
    if i < j {
      IndexOfFinds(s, i + 1, c, j);
    }
  }

  /** A search that succeeds inside `s` finds the same index in any
      extension of `s`. */
  lemma IndexOfPrefix(s: string, u: string, i: nat, c: char)
    requires i <= |s| && IndexOf(s, i, c) < |s|
    ensures IndexOf(s + u, i, c) == IndexOf(s, i, c)
  {
    var j := IndexOf(s, i, c);
    IndexOfSkips(s, i, c);
    assert forall k | i <= k < j :: (s + u)[k] == s[k];
    IndexOfFinds(s + u, i, c, j);
  }

  /** Without an occurrence of `c` the search runs to the end. */
  lemma {:induction false} IndexOfMisses(s: string, i: nat, c: char)
    requires i <= |s|
    requires forall k | i <= k < |s| :: s[k] != c
    ensures IndexOf(s, i, c) == |s|
    decreases |s| - i
  {
    if i < |s| {
      IndexOfMisses(s, i + 1, c);
    }
  }

  function DigitChar(d: nat): (c: char)
    requires d < 10
    ensures IsDigit(c)
  {
    ('0' as int + d) as char
  }

  /** Python's `str()` of a non-negative int. */
  function NatToString(n: nat): (s: string)
    ensures |s| > 0 && AllDigits(s)
    ensures n < 10 <==> |s| == 1
    decreases n
  {
    if n < 10 then [DigitChar(n)] else NatToString(n / 10) + [DigitChar(n % 10)]
  }

  /** The value of the decimal digits `s[a..j]`, most significant first, or
      `None` when one of them is not a digit. */
  function DigitsValue(s: string, a: nat, j: nat): Option<nat>
    requires a <= j <= |s|
    decreases j - a
  {
    if j == a then Some(0)
    else
      match DigitsValue(s, a, j - 1)
      case None => None
      case Some(v) =>
        if IsDigit(s[j - 1]) then Some(v * 10 + (s[j - 1] as int - '0' as int)) else None
  }

  /** The digits have a value exactly when every character in the range is
      a digit. */
  lemma {:induction false} DigitsValueDefined(s: string, a: nat, j: nat)
    requires a <= j <= |s|
    ensures DigitsValue(s, a, j).Some? <==> forall k | a <= k < j :: IsDigit(s[k])
    decreases j - a
  {
    if j > a {
      DigitsValueDefined(s, a, j - 1);
    }
  }

  /** The value depends only on the characters in the range. */
  lemma {:induction false} DigitsValueShift(s: string, a: nat, t: string, b: nat, n: nat)
    requires a + n <= |s| && b + n <= |t|
    requires forall k | a <= k < a + n :: s[k] == t[k - a + b]
    ensures DigitsValue(s, a, a + n) == DigitsValue(t, b, b + n)
    decreases n
  {
    if n > 0 {
      DigitsValueShift(s, a, t, b, n - 1);
      assert s[a + n - 1] == t[b + n - 1];
    }
  }

  /** Reading back the decimal text of `n` gives `n`. */
  lemma {:induction false} DigitsValueOfNatToString(n: nat)
    ensures DigitsValue(NatToString(n), 0, |NatToString(n)|) == Some(n)
    decreases n
  {
    if n >= 10 {
      var p := NatToString(n / 10);
      var s := p + [DigitChar(n % 10)];
      DigitsValueOfNatToString(n / 10);
      assert forall k | 0 <= k < |p| :: s[k] == p[k];
      DigitsValueShift(s, 0, p, 0, |p|);
    }
  }

  /** Python's `str()` of an int. */
  function IntToString(v: int): string {
    if v < 0 then "-" + NatToString(-v) else NatToString(v)
  }

  function Repeat(c: char, n: nat): (r: string)
    ensures |r| == n
    ensures forall k | 0 <= k < n :: r[k] == c
  {
    seq(n, _ => c)
  }

  function Max(a: int, b: int): int {
    if a < b then b else a
  }

  /** Right-aligns `s` in a field of width `w`, padding with spaces on the left. */
  function LeftPad(s: string, w: nat): (r: string)
    ensures |r| == Max(w, |s|)
    ensures r[|r| - |s|..] == s
    ensures forall k | 0 <= k < |r| - |s| :: r[k] == ' '
  {
    if |s| >= w then s else Repeat(' ', w - |s|) + s
  }

  function Concat(parts: seq<string>): string
    decreases |parts|
  {
    if parts == [] then [] else Concat(parts[..|parts| - 1]) + parts[|parts| - 1]
  }

  /** Python's `sep.join(map(str, ns))`. */
  function JoinNats(ns: seq<nat>, sep: string): string
    decreases |ns|
  {
    if ns == [] then []
    else if |ns| == 1 then NatToString(ns[0])
    else NatToString(ns[0]) + sep + JoinNats(ns[1..], sep)
  }
}
