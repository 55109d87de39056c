/**
  The string primitives the contact form relies on: JavaScript's `\s` character
  class and `String.prototype.trim`, the `\d` class, and the digit filter
  `value.replace(/\D/g, "")` used on the phone field.
 */
module Text {

  /** JavaScript's `\s`, which is also the set `trim` removes: the WhiteSpace and
      LineTerminator code points of ECMA-262 (TAB, VT, FF, SP, NBSP, ZWNBSP, the
      other space separators of Unicode category Zs, LF, CR, LS, PS). */
  predicate IsWs(c: char) {
    || c == '\t' || c == '\n' || c == '\U{000B}' || c == '\U{000C}' || c == '\r'
    || c == ' ' || c == '\U{00A0}' || c == '\U{1680}'
    || ('\U{2000}' <= c <= '\U{200A}')
    || c == '\U{2028}' || c == '\U{2029}' || c == '\U{202F}' || c == '\U{205F}'
    || c == '\U{3000}' || c == '\U{FEFF}'
  }

  /** JavaScript's `\d`: the ASCII decimal digits only. */
  predicate IsDigit(c: char) {
    '0' <= c <= '9'
  }

  predicate AllWs(s: string) {
    forall k | 0 <= k < |s| :: IsWs(s[k])
  }

  predicate AllDigits(s: string) {
    forall k | 0 <= k < |s| :: IsDigit(s[k])
  }

  /** Position of the first `c` in `s`, or `|s|` when there is none. */
  function IndexOf(s: string, c: char): (r: nat)
    ensures r <= |s|
    ensures r < |s| ==> s[r] == c
    ensures forall k | 0 <= k < r :: s[k] != c
  {
    if s == [] then 0
    else if s[0] == c then 0
    else 1 + IndexOf(s[1..], c)
  }

  /** Position of the last `c` in `s`, or -1 when there is none. */
  function LastIndexOf(s: string, c: char): (r: int)
    ensures -1 <= r < |s|
    ensures r >= 0 ==> s[r] == c
    ensures forall k | r < k < |s| :: s[k] != c
  {
    if s == [] then -1
    else if s[|s| - 1] == c then |s| - 1
    else LastIndexOf(s[..|s| - 1], c)
  }

  /** Drops the leading white space. */
  function TrimStart(s: string): string {
    if s != [] && IsWs(s[0]) then TrimStart(s[1..]) else s
  }

  /** Drops the trailing white space. */
  function TrimEnd(s: string): string {
    if s != [] && IsWs(s[|s| - 1]) then TrimEnd(s[..|s| - 1]) else s
  }

  /** `String.prototype.trim`. */
  function Trim(s: string): string {
    TrimEnd(TrimStart(s))
  }

  /** What TrimStart keeps is a suffix of `s` that does not start with white
      space, and everything it drops is white space. */
  lemma {:induction false} TrimStartShape(s: string)
    ensures |TrimStart(s)| <= |s| && TrimStart(s) == s[|s| - |TrimStart(s)|..]
    ensures AllWs(s[..|s| - |TrimStart(s)|])
    ensures TrimStart(s) != [] ==> !IsWs(TrimStart(s)[0])
  {
    if s != [] && IsWs(s[0]) {
      TrimStartShape(s[1..]);
      var n := |s| - |TrimStart(s)|;
      assert s[..n] == [s[0]] + s[1..][..n - 1];
    }
  }

  /** What TrimEnd keeps is a prefix of `s` that does not end with white space,
      and everything it drops is white space. */
  lemma {:induction false} TrimEndShape(s: string)
    ensures |TrimEnd(s)| <= |s| && TrimEnd(s) == s[..|TrimEnd(s)|]
    ensures AllWs(s[|TrimEnd(s)|..])
    ensures TrimEnd(s) != [] ==> !IsWs(TrimEnd(s)[|TrimEnd(s)| - 1])
  {
    if s != [] && IsWs(s[|s| - 1]) {
      TrimEndShape(s[..|s| - 1]);
      var n := |TrimEnd(s)|;
      assert s[n..] == s[..|s| - 1][n..] + [s[|s| - 1]];
    }
  }

  /** The trimmed string is the middle of `s`, with only white space around it,
      and it neither starts nor ends with white space. */
  lemma TrimIsMiddle(s: string)
    ensures Trim(s) != [] ==> !IsWs(Trim(s)[0]) && !IsWs(Trim(s)[|Trim(s)| - 1])
    ensures exists i | 0 <= i <= |s| - |Trim(s)| ::
      && Trim(s) == s[i..i + |Trim(s)|]
      && AllWs(s[..i])
      && AllWs(s[i + |Trim(s)|..])
  {
    var t := TrimStart(s);
    var i := |s| - |t|;
    var r := TrimEnd(t);
    TrimStartShape(s);
    TrimEndShape(t);
    assert t == s[i..];
    assert r == s[i..][..|r|] == s[i..i + |r|];
    assert s[i + |r|..] == t[|r|..];
  }

  /** `!s.trim()` holds exactly when `s` consists of white space only. */
  lemma TrimEmptyIff(s: string)
    ensures Trim(s) == [] <==> AllWs(s)
  {
    var t := TrimStart(s);
    var i := |s| - |t|;
    TrimStartShape(s);
    TrimEndShape(t);
    if Trim(s) == [] {
      assert AllWs(t[0..]) && t[0..] == t;
      assert t == [];
      assert s[..i] == s;
    } else {
      var r := Trim(s);
      assert t == s[i..];
      assert r == t[..|r|];
      assert !IsWs(s[i]);
    }
  }

  /** A string that neither starts nor ends with white space is its own trim. */
  lemma TrimFixes(s: string)
    requires s != [] ==> !IsWs(s[0]) && !IsWs(s[|s| - 1])
    ensures Trim(s) == s
  {
    assert TrimStart(s) == s;
    assert TrimEnd(s) == s;
  }

  /** `value.replace(/\D/g, "")`: the digits of `value`, in order. */
  function KeepDigits(s: string): (r: string)
    ensures |r| <= |s|
    ensures AllDigits(r)
  {
    if s == [] then []
    else (if IsDigit(s[0]) then [s[0]] else []) + KeepDigits(s[1..])
  }

  /** `r` is obtained from `s` by deleting some of its characters. */
  predicate IsSubsequence(r: string, s: string)
    decreases |s|
  {
    if r == [] then true
    else if s == [] then false
    else (r[0] == s[0] && IsSubsequence(r[1..], s[1..])) || IsSubsequence(r, s[1..])
  }

  /** The filter keeps the characters it keeps in their original order. */
  lemma {:induction false} KeepDigitsSubsequence(s: string)
    ensures IsSubsequence(KeepDigits(s), s)
  {
    if s != [] {
      KeepDigitsSubsequence(s[1..]);
      if IsDigit(s[0]) {
        assert KeepDigits(s)[1..] == KeepDigits(s[1..]);
      } else {
        assert KeepDigits(s) == KeepDigits(s[1..]);
      }
    }
  }

  /** Every digit survives the filter: a string of digits is left as it is. */
  lemma {:induction false} KeepDigitsFixes(s: string)
    requires AllDigits(s)
    ensures KeepDigits(s) == s
  {
    if s != [] {
      KeepDigitsFixes(s[1..]);
      assert s == [s[0]] + s[1..];
    }
  }

  /** Filtering twice is filtering once. */
  lemma KeepDigitsIdempotent(s: string)
    ensures KeepDigits(KeepDigits(s)) == KeepDigits(s)
  {
    KeepDigitsFixes(KeepDigits(s));
  }

  /** Exactly the digits survive: the filter neither drops a digit nor keeps
      anything else, counted character by character. */
  lemma {:induction false} KeepDigitsCount(s: string, c: char)
    ensures multiset(KeepDigits(s))[c] == if IsDigit(c) then multiset(s)[c] else 0
  {
    if s != [] {
      KeepDigitsCount(s[1..], c);
      assert s == [s[0]] + s[1..];
    }
  }

  /** The filter works piece by piece: filtering a concatenation concatenates
      the filtered pieces. */
  lemma {:induction false} KeepDigitsAppend(a: string, b: string)
    ensures KeepDigits(a + b) == KeepDigits(a) + KeepDigits(b)
  {
    if a != [] {
      KeepDigitsAppend(a[1..], b);
      assert (a + b)[1..] == a[1..] + b;
    } else {
      assert a + b == b;
    }
  }

  /** The filter turns the typed number `555-1234` into `5551234`. */
  lemma KeepDigitsExample()
    ensures KeepDigits("555-1234") == "5551234"
  {
    var area, dash, line := "555", "-", "1234";
    assert area + dash + line == "555-1234";
    assert area + line == "5551234";
    KeepDigitsAppend(area + dash, line);
    KeepDigitsAppend(area, dash);
    KeepDigitsFixes(area);
    KeepDigitsFixes(line);
    assert KeepDigits(dash) == [];
    assert area + [] == area;
  }
}
