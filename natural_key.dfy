/**
 * The natural sort key of a chapter URL: `re.split('([0-9]+)', s)` cuts the text into
 * alternating non-digit and digit runs; digit runs become integers and the others are
 * lowercased. Keys are compared the way Python compares lists.
 */
module NaturalKey {
  import opened Wrappers
  import opened Text

  datatype Token = Str(s: string) | Num(n: nat)

  type Key = seq<Token>

  /**
   * `re.split('([0-9]+)', s)`: the text between maximal digit runs, with each run kept in
   * between (the pattern has a capturing group). Built one character at a time: a digit
   * followed by a digit extends the run that the rest of the text starts with.
   */
  function Split(s: string): (parts: seq<string>)
    ensures |parts| % 2 == 1
    ensures s != [] && !IsDigit(s[0]) ==> parts[0] != ""
    ensures s != [] && IsDigit(s[0]) ==> parts[0] == "" && |parts| > 1
  {
    if s == [] then [""]
    else
      var rest := Split(s[1..]);
      if !IsDigit(s[0]) then [[s[0]] + rest[0]] + rest[1..]
      else if |s| > 1 && IsDigit(s[1]) then ["", [s[0]] + rest[1]] + rest[2..]
      else ["", [s[0]]] + rest
  }

  function Concat(parts: seq<string>): string {
    if parts == [] then "" else parts[0] + Concat(parts[1..])
  }

  /** The pieces of the split, put back together, give the text. */
  lemma {:induction false} SplitJoin(s: string)
    ensures Concat(Split(s)) == s
  {
    if s != [] {
      var rest := Split(s[1..]);
      SplitJoin(s[1..]);
      var parts := Split(s);
      assert rest == [rest[0]] + rest[1..];
      assert Concat(rest) == rest[0] + Concat(rest[1..]);
      if !IsDigit(s[0]) {
        assert parts[1..] == rest[1..];
        assert Concat(parts) == [s[0]] + rest[0] + Concat(rest[1..]);
      } else if |s| > 1 && IsDigit(s[1]) {
        assert rest[1..] == [rest[1]] + rest[2..];
        assert Concat(rest[1..]) == rest[1] + Concat(rest[2..]);
        assert parts[1..] == [[s[0]] + rest[1]] + rest[2..];
        assert parts[1..][1..] == rest[2..];
        assert Concat(parts) == "" + ([s[0]] + rest[1] + Concat(rest[2..]));
        assert rest[0] == "";
      } else {
        assert parts[1..] == [[s[0]]] + rest;
        assert parts[1..][1..] == rest;
      }
      assert s == [s[0]] + s[1..];
    }
  }

  /**
   * Even pieces hold no digit, odd pieces are non-empty digit runs, and the even pieces
   * strictly inside are non-empty, so no two digit runs touch (each run is maximal).
   */
  lemma {:induction false} SplitRuns(s: string)
    ensures forall k :: 0 <= k < |Split(s)| && k % 2 == 0 ==> NoDigits(Split(s)[k])
    ensures forall k :: 0 <= k < |Split(s)| && k % 2 == 1 ==> IsDigitString(Split(s)[k])
    ensures forall k :: 0 < k < |Split(s)| - 1 && k % 2 == 0 ==> Split(s)[k] != ""
  {
    if s != [] {
      var rest := Split(s[1..]);
      SplitRuns(s[1..]);
      var parts := Split(s);
      if !IsDigit(s[0]) {
        assert forall k :: 1 <= k < |parts| ==> parts[k] == rest[k];
        assert parts[0] == [s[0]] + rest[0];
      } else if |s| > 1 && IsDigit(s[1]) {
        assert forall k :: 2 <= k < |parts| ==> parts[k] == rest[k];
        assert parts[1] == [s[0]] + rest[1];
      } else {
        assert forall k :: 2 <= k < |parts| ==> parts[k] == rest[k - 2];
        assert rest[0] != "" || |s| == 1;
      }
    }
  }

  /** A run of digits splits into itself between two empty pieces. */
  lemma {:induction false} SplitDigitRun(d: string)
    requires IsDigitString(d)
    ensures Split(d) == ["", d, ""]
  {
    assert d == [d[0]] + d[1..];
    if |d| > 1 {
      SplitDigitRun(d[1..]);
      assert IsDigit(d[1]);
    } else {
      assert d[1..] == "" && Split(d[1..]) == [""];
      assert Split(d) == ["", [d[0]]] + Split(d[1..]);
      assert [d[0]] == d;
    }
  }

  /** The seam of `SplitAppend`. */
  predicate SplitsAcross(p: string, y: string) {
    Split(p + y) == Merged(Split(p), Split(y))
  }

  /**
   * Splitting a concatenation whose seam is not inside a digit run: the last piece of the
   * left part and the first piece of the right part merge, everything else is kept.
   */
  lemma {:induction false} SplitAppend(p: string, y: string)
    requires p == [] || y == [] || !IsDigit(p[|p| - 1]) || !IsDigit(y[0])
    ensures SplitsAcross(p, y)
  {
    if p == [] {
      assert p + y == y;
      var sy := Split(y);
      assert Split(p) == [""] && "" + sy[0] == sy[0];
      assert [sy[0]] + sy[1..] == sy;
    } else {
      var q := p[1..];
      assert (p + y)[1..] == q + y;
      if q != [] {
        assert q[|q| - 1] == p[|p| - 1];
      }
      SplitAppend(q, y);
      if |Split(q)| > 1 {
        SplitAppendLong(p, y);
      } else {
        SplitAppendShort(p, y);
      }
    }
  }

  /** The piece list `SplitsAcross` promises, written without calling `Split`. */
  function Merged(left: seq<string>, right: seq<string>): seq<string>
    requires |left| > 0 && |right| > 0
  {
    left[..|left| - 1] + [left[|left| - 1] + right[0]] + right[1..]
  }

  /** `SplitAppend` for a head character in front of text whose split has several pieces. */
  lemma SplitAppendLong(p: string, y: string)
    requires p != [] && (p + y)[1..] == p[1..] + y
    requires SplitsAcross(p[1..], y) && |Split(p[1..])| > 1
    ensures SplitsAcross(p, y)
  {
    var c, q := p[0], p[1..];
    var sq, sy, x := Split(q), Split(y), Split(q + y);
    assert x == Merged(sq, sy);
    if !IsDigit(c) {
      assert Split(p) == [[c] + sq[0]] + sq[1..];
      assert Split(p + y) == [[c] + x[0]] + x[1..];
      MergeBehindNonDigit(c, sq, sy);
    } else if IsDigit(p[1]) {
      assert Split(p) == ["", [c] + sq[1]] + sq[2..];
      assert Split(p + y) == ["", [c] + x[1]] + x[2..];
      MergeBehindDigit(c, sq, sy);
    } else {
      assert Split(p) == ["", [c]] + sq;
      assert Split(p + y) == ["", [c]] + x;
      MergeBehindRunStart(c, sq, sy);
    }
  }

  lemma MergeBehindNonDigit(c: char, sq: seq<string>, sy: seq<string>)
    requires |sq| > 1 && |sy| > 0
    ensures var x := Merged(sq, sy); [[c] + x[0]] + x[1..] == Merged([[c] + sq[0]] + sq[1..], sy)
  {
  }

  lemma MergeBehindDigit(c: char, sq: seq<string>, sy: seq<string>)
    requires |sq| > 2 && |sy| > 0
    ensures var x := Merged(sq, sy); ["", [c] + x[1]] + x[2..] == Merged(["", [c] + sq[1]] + sq[2..], sy)
  {
  }

  lemma MergeBehindRunStart(c: char, sq: seq<string>, sy: seq<string>)
    requires |sq| > 0 && |sy| > 0
    ensures ["", [c]] + Merged(sq, sy) == Merged(["", [c]] + sq, sy)
  {
  }

  /** `SplitAppend` for a head character in front of digit-free text. */
  lemma SplitAppendShort(p: string, y: string)
    requires p != [] && (p + y)[1..] == p[1..] + y
    requires p[1..] == [] ==> y == [] || !IsDigit(p[0]) || !IsDigit(y[0])
    requires SplitsAcross(p[1..], y) && |Split(p[1..])| == 1
    ensures SplitsAcross(p, y)
  {
    var c, q := p[0], p[1..];
    var sq, sy, x := Split(q), Split(y), Split(q + y);
    assert x == Merged(sq, sy);
    if !IsDigit(c) {
      assert Split(p) == [[c] + sq[0]];
      assert Split(p + y) == [[c] + x[0]] + x[1..];
      MergeBehindNonDigit1(c, sq, sy);
    } else {
      if q == [] {
        assert sy[0] != "" || |sy| == 1;
      }
      assert Split(p) == ["", [c]] + sq;
      assert Split(p + y) == ["", [c]] + x;
      MergeBehindRunStart(c, sq, sy);
    }
  }

  lemma MergeBehindNonDigit1(c: char, sq: seq<string>, sy: seq<string>)
    requires |sq| == 1 && |sy| > 0
    ensures var x := Merged(sq, sy); [[c] + x[0]] + x[1..] == Merged([[c] + sq[0]], sy)
  {
    var x := Merged(sq, sy);
    assert x == [sq[0] + sy[0]] + sy[1..];
    assert x[1..] == sy[1..];
    assert [c] + (sq[0] + sy[0]) == ([c] + sq[0]) + sy[0];
  }

  /** One element of the key list: `int(text) if text.isdigit() else text.lower()`. */
  function ToToken(text: string): Token {
    if IsDigitString(text) then Num(DecimalValue(text)) else Str(Lower(text))
  }

  function Tokens(parts: seq<string>): Key {
    seq(|parts|, k requires 0 <= k < |parts| => ToToken(parts[k]))
  }

  /** `natural_sort_key(s)`. */
  function NaturalSortKey(s: string): Key {
    Tokens(Split(s))
  }

  /** Every token at an even position is a string and every token at an odd position a number (shifted by `off`). */
  predicate Aligned(k: Key, off: nat) {
    forall i :: 0 <= i < |k| ==> (k[i].Num? <==> (i + off) % 2 == 1)
  }

  /**
   * A natural key has odd length, strings at even positions and integers at odd ones:
   * the lowercased non-digit runs and the values of the digit runs.
   */
  lemma NaturalSortKeyShape(s: string)
    ensures |NaturalSortKey(s)| % 2 == 1
    ensures Aligned(NaturalSortKey(s), 0)
    ensures forall k :: 0 <= k < |Split(s)| && k % 2 == 0 ==> NaturalSortKey(s)[k] == Str(Lower(Split(s)[k]))
    ensures forall k :: 0 <= k < |Split(s)| && k % 2 == 1 ==>
      IsDigitString(Split(s)[k]) && NaturalSortKey(s)[k] == Num(DecimalValue(Split(s)[k]))
  {
    SplitRuns(s);
    var parts := Split(s);
    forall k | 0 <= k < |parts| && k % 2 == 0
      ensures !IsDigitString(parts[k])
    {
      assert parts[k] == [] || !IsDigit(parts[k][0]);
    }
  }

  /** Python's `a < b` on two strings: lexicographic by code point, a proper prefix first. */
  function StrLt(a: string, b: string): bool {
    if |a| == 0 then |b| > 0
    else if |b| == 0 then false
    else if a[0] == b[0] then StrLt(a[1..], b[1..])
    else a[0] < b[0]
  }

  /** Python's `x < y` on two key elements; `None` stands for the `TypeError` of comparing `str` with `int`. */
  function TokenLt(x: Token, y: Token): Option<bool> {
    match (x, y)
    case (Str(a), Str(b)) => Some(StrLt(a, b))
    case (Num(m), Num(n)) => Some(m < n)
    case _ => None
  }

  /**
   * Python's `a < b` on two lists: skip the common prefix of equal elements, then compare
   * the first differing pair, or the lengths if one list is a prefix of the other.
   */
  function KeyLt(a: Key, b: Key): Option<bool> {
    if |a| == 0 then Some(|b| > 0)
    else if |b| == 0 then Some(false)
    else if a[0] == b[0] then KeyLt(a[1..], b[1..])
    else TokenLt(a[0], b[0])
  }

  predicate Less(a: Key, b: Key) {
    KeyLt(a, b) == Some(true)
  }

  lemma AlignedTail(k: Key, off: nat)
    requires Aligned(k, off) && |k| > 0
    ensures Aligned(k[1..], off + 1)
  {
    assert forall i :: 0 <= i < |k| - 1 ==> k[1..][i] == k[i + 1];
  }

  /** Comparing two keys of the same alignment never compares a string with an integer. */
  lemma {:induction false} KeyLtDefined(a: Key, b: Key, off: nat)
    requires Aligned(a, off) && Aligned(b, off)
    ensures KeyLt(a, b).Some?
    decreases |a|
  {
    if |a| > 0 && |b| > 0 && a[0] == b[0] {
      AlignedTail(a, off);
      AlignedTail(b, off);
      KeyLtDefined(a[1..], b[1..], off + 1);
    }
  }

  /** Sorting chapter URLs by natural key never raises `TypeError`. */
  lemma NaturalSortKeysComparable(s: string, t: string)
    ensures KeyLt(NaturalSortKey(s), NaturalSortKey(t)).Some?
  {
    NaturalSortKeyShape(s);
    NaturalSortKeyShape(t);
    KeyLtDefined(NaturalSortKey(s), NaturalSortKey(t), 0);
  }

  lemma {:induction false} StrLtAsym(a: string, b: string)
    ensures StrLt(a, b) ==> !StrLt(b, a)
  {
    if |a| > 0 && |b| > 0 && a[0] == b[0] {
      StrLtAsym(a[1..], b[1..]);
    }
  }

  lemma {:induction false} StrLtTrans(a: string, b: string, c: string)
    requires StrLt(a, b) && StrLt(b, c)
    ensures StrLt(a, c)
  {
    if |a| > 0 && a[0] == b[0] && b[0] == c[0] {
      StrLtTrans(a[1..], b[1..], c[1..]);
    }
  }

  lemma {:induction false} StrLtTotal(a: string, b: string)
    ensures StrLt(a, b) || a == b || StrLt(b, a)
  {
    if |a| > 0 && |b| > 0 && a[0] == b[0] {
      StrLtTotal(a[1..], b[1..]);
      if a[1..] == b[1..] {
        assert a == [a[0]] + a[1..] && b == [b[0]] + b[1..];
      }
    }
  }

  lemma TokenLtAsym(x: Token, y: Token)
    ensures TokenLt(x, y) == Some(true) ==> TokenLt(y, x) != Some(true)
  {
    if x.Str? && y.Str? { StrLtAsym(x.s, y.s); }
  }

  /** `Less` is asymmetric on all keys, hence irreflexive. */
  lemma {:induction false} LessAsym(a: Key, b: Key)
    ensures Less(a, b) ==> !Less(b, a)
    decreases |a|
  {
    if |a| > 0 && |b| > 0 {
      if a[0] == b[0] {
        LessAsym(a[1..], b[1..]);
      } else {
        TokenLtAsym(a[0], b[0]);
      }
    }
  }

  lemma {:induction false} LessTrans(a: Key, b: Key, c: Key, off: nat)
    requires Aligned(a, off) && Aligned(b, off) && Aligned(c, off)
    requires Less(a, b) && Less(b, c)
    ensures Less(a, c)
    decreases |a|
  {
    if |a| > 0 {
      assert |b| > 0 && |c| > 0;
      if a[0] == b[0] && b[0] == c[0] {
        AlignedTail(a, off);
        AlignedTail(b, off);
        AlignedTail(c, off);
        LessTrans(a[1..], b[1..], c[1..], off + 1);
      } else if a[0] != b[0] && b[0] != c[0] {
        TokenLtAsym(a[0], b[0]);
        if a[0].Str? {
          StrLtTrans(a[0].s, b[0].s, c[0].s);
        }
      }
    }
  }

  lemma {:induction false} LessTotal(a: Key, b: Key, off: nat)
    requires Aligned(a, off) && Aligned(b, off)
    ensures Less(a, b) || a == b || Less(b, a)
    decreases |a|
  {
    if |a| > 0 && |b| > 0 {
      if a[0] == b[0] {
        AlignedTail(a, off);
        AlignedTail(b, off);
        LessTotal(a[1..], b[1..], off + 1);
        if a[1..] == b[1..] {
          assert a == [a[0]] + a[1..] && b == [b[0]] + b[1..];
        }
      } else if a[0].Str? {
        StrLtTotal(a[0].s, b[0].s);
      }
    }
  }

  /** A digit run with no digit on either side becomes exactly one piece of the split. */
  lemma SplitAroundDigitRun(p: string, d: string, q: string)
    requires p == [] || !IsDigit(p[|p| - 1])
    requires IsDigitString(d)
    requires q == [] || !IsDigit(q[0])
    ensures Split(p + d + q) == Split(p) + [d] + Split(q)
  {
    SplitDigitRun(d);
    SplitAppend(p, d);
    MergeDigitRun(Split(p), d);
    assert (p + d)[|p + d| - 1] == d[|d| - 1];
    SplitAppend(p + d, q);
    MergeAfterDigitRun(Split(p), d, Split(q));
  }

  lemma MergeDigitRun(sp: seq<string>, d: string)
    requires |sp| > 0
    ensures Merged(sp, ["", d, ""]) == sp + [d, ""]
  {
    assert sp[|sp| - 1] + "" == sp[|sp| - 1];
    assert sp[..|sp| - 1] + [sp[|sp| - 1]] == sp;
    assert ["", d, ""][1..] == [d, ""];
  }

  lemma MergeAfterDigitRun(sp: seq<string>, d: string, sq: seq<string>)
    requires |sq| > 0
    ensures Merged(sp + [d, ""], sq) == sp + [d] + sq
  {
    assert (sp + [d, ""])[..|sp| + 1] == sp + [d];
    assert "" + sq[0] == sq[0];
    assert [sq[0]] + sq[1..] == sq;
  }

  lemma TokensAppend(a: seq<string>, b: seq<string>)
    ensures Tokens(a + b) == Tokens(a) + Tokens(b)
  {
  }

  lemma {:induction false} KeyLtCommonPrefix(c: Key, a: Key, b: Key)
    ensures KeyLt(c + a, c + b) == KeyLt(a, b)
  {
    if c != [] {
      assert (c + a)[1..] == c[1..] + a;
      assert (c + b)[1..] == c[1..] + b;
      KeyLtCommonPrefix(c[1..], a, b);
    } else {
      assert c + a == a && c + b == b;
    }
  }

  lemma {:induction false} KeyLtSelf(a: Key)
    ensures KeyLt(a, a) == Some(false)
  {
    if a != [] {
      KeyLtSelf(a[1..]);
    }
  }

  /** Keys of piece lists that differ in one digit run compare by the values of the runs. */
  lemma KeyLtAroundRun(sp: seq<string>, d1: string, d2: string, sq: seq<string>)
    requires IsDigitString(d1) && IsDigitString(d2)
    ensures KeyLt(Tokens(sp + [d1] + sq), Tokens(sp + [d2] + sq)) == Some(DecimalValue(d1) < DecimalValue(d2))
  {
    var a, b := Tokens(sp), Tokens(sq);
    TokensAppend(sp + [d1], sq);
    TokensAppend(sp, [d1]);
    TokensAppend(sp + [d2], sq);
    TokensAppend(sp, [d2]);
    var t1, t2 := Num(DecimalValue(d1)), Num(DecimalValue(d2));
    assert Tokens([d1]) == [t1] && Tokens([d2]) == [t2];
    assert Tokens(sp + [d1] + sq) == a + ([t1] + b);
    assert Tokens(sp + [d2] + sq) == a + ([t2] + b);
    KeyLtCommonPrefix(a, [t1] + b, [t2] + b);
    assert ([t1] + b)[1..] == b && ([t2] + b)[1..] == b;
    KeyLtSelf(b);
  }

  /**
   * Two texts that differ only in one digit run (with no digit on either side of it) are
   * ordered by the numeric value of that run, so "chapter-2" comes before "chapter-10".
   */
  lemma DigitRunOrder(p: string, d1: string, d2: string, q: string)
    requires p == [] || !IsDigit(p[|p| - 1])
    requires IsDigitString(d1) && IsDigitString(d2)
    requires q == [] || !IsDigit(q[0])
    ensures KeyLt(NaturalSortKey(p + d1 + q), NaturalSortKey(p + d2 + q)) == Some(DecimalValue(d1) < DecimalValue(d2))
  {
    SplitAroundDigitRun(p, d1, q);
    SplitAroundDigitRun(p, d2, q);
    KeyLtAroundRun(Split(p), d1, d2, Split(q));
  }

  lemma ChapterTwoBeforeTen()
    ensures Less(NaturalSortKey("chapter-2"), NaturalSortKey("chapter-10"))
  {
    DigitRunOrder("chapter-", "2", "10", "");
    assert "chapter-" + "2" + "" == "chapter-2";
    assert "chapter-" + "10" + "" == "chapter-10";
    assert DecimalValue("10") == 10 by {
      assert "10"[..1] == "1";
    }
  }
}
