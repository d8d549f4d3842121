// String and number helpers the weather updater relies on: Python's
// str.join, splitting on a character, substring search, and the text
// Python prints for the integers and one-decimal floats of the table.

module Wrappers {
  datatype Option<T> = None | Some(value: T)
}

module Text {
  import opened Wrappers

  // ---------------------------------------------------------------------
  // Substring search
  // ---------------------------------------------------------------------

  /** True when `pat` occurs in `s` starting at index `j`. */
  predicate OccursAt(s: string, pat: string, j: nat) {
    j + |pat| <= |s| && s[j..j + |pat|] == pat
  }

  /** The first index at or after `i` where `pat` occurs in `s`. */
  function IndexFrom(s: string, pat: string, i: nat): (r: Option<nat>)
    ensures r.Some? ==> i <= r.value && OccursAt(s, pat, r.value)
    ensures r.Some? ==> forall j: nat :: i <= j < r.value ==> !OccursAt(s, pat, j)
    ensures r.None? ==> forall j: nat :: i <= j ==> !OccursAt(s, pat, j)
    decreases |s| - i
  {
    if i + |pat| > |s| then None
    else if OccursAt(s, pat, i) then Some(i)
    else IndexFrom(s, pat, i + 1)
  }

  /** The first index where `pat` occurs in `s` (Python's `str.find`, None for -1). */
  function IndexOf(s: string, pat: string): (r: Option<nat>)
    ensures r.Some? ==> OccursAt(s, pat, r.value)
    ensures r.Some? ==> forall j: nat :: j < r.value ==> !OccursAt(s, pat, j)
    ensures r.None? ==> forall j: nat :: !OccursAt(s, pat, j)
  {
    IndexFrom(s, pat, 0)
  }

  /** An occurrence with none before it is what IndexOf finds. */
  lemma IndexOfIsFirst(s: string, pat: string, k: nat)
    requires OccursAt(s, pat, k)
    requires forall j: nat :: j < k ==> !OccursAt(s, pat, j)
    ensures IndexOf(s, pat) == Some(k)
  {
  }

  /** Whether `pat` occurs at `j` depends only on the characters up to `j + |pat|`. */
  lemma OccursAtPrefix(s: string, t: string, pat: string, m: nat, j: nat)
    requires m <= |s| && m <= |t| && s[..m] == t[..m]
    requires j + |pat| <= m
    ensures OccursAt(s, pat, j) == OccursAt(t, pat, j)
  {
    assert s[j..j + |pat|] == s[..m][j..j + |pat|];
    assert t[j..j + |pat|] == t[..m][j..j + |pat|];
  }

  /** The first occurrence of `pat` is unaffected by text after it. */
  lemma {:induction false} IndexOfPrefixStable(s: string, t: string, pat: string, m: nat)
    requires m <= |s| && m <= |t| && s[..m] == t[..m]
    requires IndexOf(s, pat).Some? && IndexOf(s, pat).value + |pat| <= m
    ensures IndexOf(t, pat) == IndexOf(s, pat)
  {
    var k := IndexOf(s, pat).value;
    OccursAtPrefix(s, t, pat, m, k);
    forall j: nat | j < k
      ensures !OccursAt(t, pat, j)
    {
      OccursAtPrefix(s, t, pat, m, j);
    }
    IndexOfIsFirst(t, pat, k);
  }

  /** An occurrence inside the right operand of a concatenation, shifted. */
  lemma OccursAtShift(a: string, b: string, pat: string, q: nat)
    ensures OccursAt(b, pat, q) == OccursAt(a + b, pat, |a| + q)
  {
    if q + |pat| <= |b| {
      assert (a + b)[|a| + q..|a| + q + |pat|] == b[q..q + |pat|];
    }
  }

  /** In a text without `c`, followed by `c`, the first `c` is the last character. */
  lemma FirstAtEnd(m: string, c: char)
    requires c !in m
    ensures IndexOf(m + [c], [c]) == Some(|m|)
  {
    var t := m + [c];
    forall j: nat | j < |m|
      ensures !OccursAt(t, [c], j)
    {
      assert t[j..j + 1] == [m[j]];
    }
    assert t[|m|..|m| + 1] == [c];
    IndexOfIsFirst(t, [c], |m|);
  }

  // ---------------------------------------------------------------------
  // Joining and splitting
  // ---------------------------------------------------------------------

  /** Python's `sep.join(parts)`. */
  function Join(sep: string, parts: seq<string>): (r: string)
    decreases |parts|
  {
    if |parts| == 0 then ""
    else if |parts| == 1 then parts[0]
    else parts[0] + sep + Join(sep, parts[1..])
  }

  /** A join of a non-empty list starts with its first part. */
  lemma {:induction false} JoinStartsWithFirst(sep: string, parts: seq<string>)
    requires |parts| > 0
    ensures |parts[0]| <= |Join(sep, parts)|
    ensures Join(sep, parts)[..|parts[0]|] == parts[0]
  {
  }

  /** A join of a non-empty list ends with its last part. */
  lemma {:induction false} JoinEndsWithLast(sep: string, parts: seq<string>)
    requires |parts| > 0
    ensures |parts[|parts| - 1]| <= |Join(sep, parts)|
    ensures Join(sep, parts)[|Join(sep, parts)| - |parts[|parts| - 1]|..] == parts[|parts| - 1]
    decreases |parts|
  {
    if |parts| > 1 {
      JoinEndsWithLast(sep, parts[1..]);
      var j := Join(sep, parts[1..]);
      var last := parts[|parts| - 1];
      assert parts[1..][|parts[1..]| - 1] == last;
      assert (parts[0] + sep + j)[|parts[0] + sep + j| - |last|..] == j[|j| - |last|..];
    }
  }

  /** A character in neither the separator nor any part is not in the join. */
  lemma {:induction false} JoinWithout(sep: string, parts: seq<string>, c: char)
    requires c !in sep
    requires forall k :: 0 <= k < |parts| ==> c !in parts[k]
    ensures c !in Join(sep, parts)
    decreases |parts|
  {
    if |parts| > 1 {
      JoinWithout(sep, parts[1..], c);
      assert c !in parts[0];
    }
  }

  /** Splits `s` at every `c` (Python's `s.split(c)`): never empty, no piece holds `c`. */
  function Split(s: string, c: char): (r: seq<string>)
    ensures |r| > 0
    ensures forall k :: 0 <= k < |r| ==> c !in r[k]
    decreases |s|
  {
    if |s| == 0 then [""]
    else
      var rest := Split(s[1..], c);
      if s[0] == c then [""] + rest
      else [[s[0]] + rest[0]] + rest[1..]
  }

  /** Joining the pieces of a split with the same character gives the text back. */
  lemma {:induction false} JoinSplit(s: string, c: char)
    ensures Join([c], Split(s, c)) == s
    decreases |s|
  {
    if |s| > 0 {
      var rest := Split(s[1..], c);
      JoinSplit(s[1..], c);
      if s[0] == c {
        assert ([""] + rest)[1..] == rest;
      } else {
        var r := [[s[0]] + rest[0]] + rest[1..];
        if |rest| > 1 {
          assert r[1..] == rest[1..];
          assert Join([c], rest) == rest[0] + [c] + Join([c], rest[1..]);
        }
        assert s == [s[0]] + s[1..];
      }
    }
  }

  /** A text without `c` splits into itself alone. */
  lemma {:induction false} SplitWithout(x: string, c: char)
    requires c !in x
    ensures Split(x, c) == [x]
    decreases |x|
  {
    if |x| > 0 {
      assert c !in x[1..];
      SplitWithout(x[1..], c);
      assert [x[0]] + x[1..] == x;
    }
  }

  /** A text `x` without `c`, then `c`, splits into `x` and the split of the rest. */
  lemma {:induction false} SplitAfterPiece(x: string, c: char, y: string)
    requires c !in x
    ensures Split(x + [c] + y, c) == [x] + Split(y, c)
    decreases |x|
  {
    if |x| == 0 {
      assert x + [c] + y == [c] + y;
      assert ([c] + y)[1..] == y;
    } else {
      assert (x + [c] + y)[1..] == x[1..] + [c] + y;
      assert c !in x[1..];
      SplitAfterPiece(x[1..], c, y);
      assert [x[0]] + x[1..] == x;
    }
  }

  /** Splitting the join of pieces without `c` gives the pieces back. */
  lemma {:induction false} SplitJoin(parts: seq<string>, c: char)
    requires |parts| > 0
    requires forall k :: 0 <= k < |parts| ==> c !in parts[k]
    ensures Split(Join([c], parts), c) == parts
    decreases |parts|
  {
    if |parts| == 1 {
      SplitWithout(parts[0], c);
    } else {
      SplitJoin(parts[1..], c);
      SplitAfterPiece(parts[0], c, Join([c], parts[1..]));
      assert [parts[0]] + parts[1..] == parts;
    }
  }

  /** Every piece of a split is found in the text (the first one at its start). */
  lemma {:induction false} SplitPieceOffset(s: string, c: char, k: nat) returns (a: nat)
    requires k < |Split(s, c)|
    ensures a + |Split(s, c)[k]| <= |s| && s[a..a + |Split(s, c)[k]|] == Split(s, c)[k]
    ensures k == 0 ==> a == 0
    decreases |s|
  {
    if |s| == 0 {
      a := 0;
    } else {
      var rest := Split(s[1..], c);
      if s[0] == c {
        if k == 0 {
          a := 0;
        } else {
          assert Split(s, c)[k] == rest[k - 1];
          var a' := SplitPieceOffset(s[1..], c, k - 1);
          a := a' + 1;
          SliceOfTail(s, a', |rest[k - 1]|);
        }
      } else {
        if k == 0 {
          assert Split(s, c)[0] == [s[0]] + rest[0];
          var a' := SplitPieceOffset(s[1..], c, 0);
          a := 0;
          SliceOfTail(s, 0, |rest[0]|);
        } else {
          assert Split(s, c)[k] == rest[k];
          var a' := SplitPieceOffset(s[1..], c, k);
          a := a' + 1;
          SliceOfTail(s, a', |rest[k]|);
        }
      }
    }
  }

  /** A slice of `s[1..]` is the slice of `s` one further on. */
  lemma SliceOfTail(s: string, a: nat, n: nat)
    requires |s| > 0 && a + n < |s|
    ensures s[a + 1..a + 1 + n] == s[1..][a..a + n]
    ensures a == 0 ==> s[..1 + n] == [s[0]] + s[1..][..n]
  {
  }

  /** A pattern found in a piece of a split is found in the text. */
  lemma SplitPieceOccurs(s: string, c: char, k: nat, pat: string, q: nat)
    requires k < |Split(s, c)| && OccursAt(Split(s, c)[k], pat, q)
    ensures IndexOf(s, pat).Some?
  {
    var piece := Split(s, c)[k];
    var a := SplitPieceOffset(s, c, k);
    assert s[a..a + |piece|] == piece;
    assert q + |pat| <= |piece| && piece[q..q + |pat|] == pat;
    forall i | 0 <= i < |pat|
      ensures s[a + q + i] == pat[i]
    {
      assert s[a + q + i] == s[a..a + |piece|][q + i] == piece[q + i];
      assert piece[q + i] == piece[q..q + |pat|][i];
    }
    assert s[a + q..a + q + |pat|] == pat;
    assert OccursAt(s, pat, a + q);
  }

  // ---------------------------------------------------------------------
  // Numbers as Python prints them
  // ---------------------------------------------------------------------

  function Digit(d: nat): char
    requires d < 10
  {
    (48 + d) as char
  }

  function DigitValue(c: char): nat {
    if '0' <= c <= '9' then (c as int) - 48 else 0
  }

  /** Decimal digits of `n` without leading zeros (Python's `str(n)` for n >= 0). */
  function NatText(n: nat): (r: string)
    ensures |r| > 0
    ensures forall k :: 0 <= k < |r| ==> '0' <= r[k] <= '9'
    decreases n
  {
    if n < 10 then [Digit(n)] else NatText(n / 10) + [Digit(n % 10)]
  }

  /** Reads a string of decimal digits. */
  function ParseNat(s: string): nat
    decreases |s|
  {
    if |s| == 0 then 0 else 10 * ParseNat(s[..|s| - 1]) + DigitValue(s[|s| - 1])
  }

  lemma {:induction false} ParseNatText(n: nat)
    ensures ParseNat(NatText(n)) == n
    decreases n
  {
    if n >= 10 {
      var t := NatText(n / 10) + [Digit(n % 10)];
      assert t[..|t| - 1] == NatText(n / 10);
      ParseNatText(n / 10);
    }
  }

  function Abs(x: int): nat {
    if x < 0 then -x else x
  }

  /**
   * The text Python prints for the float `t / 10` when `t` is a whole
   * number of tenths: a sign for negatives, the integer part, a point and
   * exactly one decimal, as in "3.0", "-0.5", "12.4".
   */
  function TenthsText(t: int): string {
    (if t < 0 then "-" else "") + NatText(Abs(t) / 10) + "." + [Digit(Abs(t) % 10)]
  }

  /** The text of a number holds only a sign, digits and a point. */
  lemma TenthsTextWithout(t: int, c: char)
    requires c != '-' && c != '.' && !('0' <= c <= '9')
    ensures c !in TenthsText(t)
  {
    var digits := NatText(Abs(t) / 10);
    assert c !in digits;
  }

  /** Reads back the output of TenthsText. */
  function ParseTenths(s: string): int {
    if |s| > 0 && s[0] == '-' then -ParseUnsignedTenths(s[1..]) else ParseUnsignedTenths(s)
  }

  function ParseUnsignedTenths(u: string): int {
    if |u| < 2 then 0 else 10 * ParseNat(u[..|u| - 2]) + DigitValue(u[|u| - 1])
  }

  /** ParseTenths reads TenthsText back. */
  lemma TenthsTextRoundTrip(t: int)
    ensures ParseTenths(TenthsText(t)) == t
  {
    var u := NatText(Abs(t) / 10) + "." + [Digit(Abs(t) % 10)];
    assert u[..|u| - 2] == NatText(Abs(t) / 10);
    ParseNatText(Abs(t) / 10);
    if t < 0 {
      assert TenthsText(t) == "-" + u;
      assert ("-" + u)[1..] == u;
    } else {
      assert TenthsText(t) == u;
      assert u[0] != '-';
    }
  }

  /** TenthsText loses nothing: distinct values print differently. */
  lemma TenthsTextInjective(a: int, b: int)
    requires TenthsText(a) == TenthsText(b)
    ensures a == b
  {
    TenthsTextRoundTrip(a);
    TenthsTextRoundTrip(b);
  }
}
