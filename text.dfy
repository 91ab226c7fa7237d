/**
 * The string operations the script takes from Python's `str`: ASCII lowercasing,
 * ASCII digits, `startswith`, the `in` substring test, `rstrip`, `int()` of a digit
 * run, `f"{i}"` of a number and the Latin-1 round trip.
 */
module Text {
  import opened Seqs

  predicate IsDigit(c: char) {
    '0' <= c <= '9'
  }

  predicate NoDigits(s: string) {
    forall i :: 0 <= i < |s| ==> !IsDigit(s[i])
  }

  /** `str.isdigit()` on ASCII text: non-empty, and every character a decimal digit. */
  predicate IsDigitString(s: string) {
    |s| > 0 && forall i :: 0 <= i < |s| ==> IsDigit(s[i])
  }

  function LowerChar(c: char): char {
    if 'A' <= c <= 'Z' then (c as int + 32) as char else c
  }

  /** `str.lower()` on ASCII: upper-case letters become lower-case, every other character is kept. */
  function Lower(s: string): string {
    seq(|s|, i requires 0 <= i < |s| => LowerChar(s[i]))
  }

  /** Lowering works character by character, so it distributes over concatenation. */
  lemma LowerAppend(a: string, b: string)
    ensures Lower(a + b) == Lower(a) + Lower(b)
  {
  }

  predicate StartsWith(s: string, prefix: string) {
    |prefix| <= |s| && s[..|prefix|] == prefix
  }

  /** Python's `needle in s`. */
  predicate Contains(s: string, needle: string)
    decreases |s|
  {
    StartsWith(s, needle) || (|s| > 0 && Contains(s[1..], needle))
  }

  /** `needle` occurs in `s` starting at position `i`. */
  predicate OccursAt(s: string, needle: string, i: int) {
    0 <= i && i + |needle| <= |s| && s[i..i + |needle|] == needle
  }

  /** `Contains` holds exactly when `needle` occurs somewhere in `s`. */
  lemma {:induction false} ContainsIff(s: string, needle: string)
    ensures Contains(s, needle) <==> exists i :: OccursAt(s, needle, i)
    decreases |s|
  {
    if StartsWith(s, needle) {
      assert OccursAt(s, needle, 0);
    } else if |s| > 0 {
      ContainsIff(s[1..], needle);
      if Contains(s[1..], needle) {
        var i :| OccursAt(s[1..], needle, i);
        assert s[i + 1..i + 1 + |needle|] == s[1..][i..i + |needle|];
        assert OccursAt(s, needle, i + 1);
      }
      if i :| OccursAt(s, needle, i) {
        assert i != 0;
        assert s[1..][i - 1..i - 1 + |needle|] == s[i..i + |needle|];
        assert OccursAt(s[1..], needle, i - 1);
      }
    }
  }

  lemma ContainsMiddle(a: string, needle: string, b: string)
    ensures Contains(a + needle + b, needle)
  {
    assert (a + needle + b)[|a|..|a| + |needle|] == needle;
    assert OccursAt(a + needle + b, needle, |a|);
    ContainsIff(a + needle + b, needle);
  }

  /** A needle holding a character that `s` lacks does not occur in `s`. */
  lemma NotContainsByChar(s: string, needle: string, c: char)
    requires c in needle && c !in s
    ensures !Contains(s, needle)
  {
    ContainsIff(s, needle);
  }

  /** Python's `s.rstrip(c)` for a single character: drop every trailing `c`. */
  function RStrip(s: string, c: char): (r: string)
    ensures |r| <= |s| && r == s[..|r|]
    ensures r == [] || r[|r| - 1] != c
    ensures forall i :: |r| <= i < |s| ==> s[i] == c
  {
    if |s| > 0 && s[|s| - 1] == c then RStrip(s[..|s| - 1], c) else s
  }

  /** Trailing copies of `c` make no difference to `RStrip(_, c)`. */
  lemma {:induction false} RStripTrailing(s: string, n: nat, c: char)
    ensures RStrip(s + seq(n, _ => c), c) == RStrip(s, c)
  {
    if n == 0 {
      assert s + seq(0, _ => c) == s;
    } else {
      var t := s + seq(n, _ => c);
      assert t[|t| - 1] == c;
      assert t[..|t| - 1] == s + seq(n - 1, _ => c);
      RStripTrailing(s, n - 1, c);
    }
  }

  function DigitValue(c: char): nat
    requires IsDigit(c)
  {
    c as int - '0' as int
  }

  function DigitChar(d: nat): (c: char)
    requires d < 10
    ensures IsDigit(c) && DigitValue(c) == d
  {
    ('0' as int + d) as char
  }

  /** Python's `int(text)` for a run of decimal digits (leading zeros allowed). */
  function DecimalValue(s: string): nat
    requires forall i :: 0 <= i < |s| ==> IsDigit(s[i])
  {
    if s == [] then 0 else 10 * DecimalValue(s[..|s| - 1]) + DigitValue(s[|s| - 1])
  }

  /** Python's `f"{n}"` for a natural number: its decimal digits, no leading zero. */
  function NatToString(n: nat): (r: string)
    ensures IsDigitString(r)
    ensures |r| > 1 ==> r[0] != '0'
  {
    if n < 10 then [DigitChar(n)] else NatToString(n / 10) + [DigitChar(n % 10)]
  }

  /** Reading back the printed decimal gives the number: `int(f"{n}") == n`. */
  lemma {:induction false} DecimalRoundTrip(n: nat)
    ensures DecimalValue(NatToString(n)) == n
  {
    if n >= 10 {
      DecimalRoundTrip(n / 10);
      var s := NatToString(n);
      assert s[..|s| - 1] == NatToString(n / 10);
    }
  }

  lemma NatToStringInjective(m: nat, n: nat)
    requires NatToString(m) == NatToString(n)
    ensures m == n
  {
    DecimalRoundTrip(m);
    DecimalRoundTrip(n);
  }

  /** The characters that Latin-1 (ISO/IEC 8859-1) can encode: code points 0 to 255. */
  predicate IsLatin1(c: char) {
    c as int <= 255
  }

  /** `s.encode('latin-1', 'ignore').decode('latin-1')`: silently drop every character Latin-1 cannot encode. */
  function Latin1Clean(s: string): string {
    Filter(IsLatin1, s)
  }

  /**
   * The cleaned text keeps, in order, exactly the characters whose code point is at most 255,
   * each as often as it occurs.
   */
  lemma Latin1CleanSpec(s: string)
    ensures IsSubsequence(Latin1Clean(s), s)
    ensures forall i :: 0 <= i < |Latin1Clean(s)| ==> Latin1Clean(s)[i] as int <= 255
    ensures forall c :: multiset(Latin1Clean(s))[c] == if c as int <= 255 then multiset(s)[c] else 0
  {
    FilterSpec(IsLatin1, s);
  }

  /** Text that is already Latin-1 passes unchanged; so cleaning twice is cleaning once. */
  lemma Latin1CleanIdempotent(s: string)
    ensures (forall i :: 0 <= i < |s| ==> IsLatin1(s[i])) ==> Latin1Clean(s) == s
    ensures Latin1Clean(Latin1Clean(s)) == Latin1Clean(s)
  {
    if forall i :: 0 <= i < |s| ==> IsLatin1(s[i]) {
      FilterAllKept(IsLatin1, s);
    }
    FilterAllKept(IsLatin1, Latin1Clean(s));
  }

  lemma {:induction false} FilterAllKept<T>(p: T -> bool, s: seq<T>)
    requires forall i :: 0 <= i < |s| ==> p(s[i])
    ensures Filter(p, s) == s
  {
    if s != [] {
      FilterAllKept(p, s[1..]);
    }
  }
}
