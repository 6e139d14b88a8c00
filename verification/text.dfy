/** String helpers shared by the pipeline: ASCII lower-casing, substring search,
    `str.split('.')[0]`, `str.replace`, and decimal rendering of integers. */
module Text {

  /** `str.lower()` restricted to ASCII letters. */
  function LowerChar(c: char): char
  {
    if 'A' <= c <= 'Z' then (c as int + 32) as char else c
  }

  function Lower(s: string): string
  {
    seq(|s|, i requires 0 <= i < |s| => LowerChar(s[i]))
  }

  lemma LowerConcat(a: string, b: string)
    ensures Lower(a + b) == Lower(a) + Lower(b)
  {
  }

  /** Lower-casing is idempotent: `s.lower().lower() == s.lower()`. */
  lemma LowerIdempotent(s: string)
    ensures Lower(Lower(s)) == Lower(s)
  {
  }

  predicate HasNoUpper(s: string)
  {
    forall i :: 0 <= i < |s| ==> !('A' <= s[i] <= 'Z')
  }

  lemma LowerOfNoUpper(s: string)
    requires HasNoUpper(s)
    ensures Lower(s) == s
  {
  }

  /** `p` occurs in `s` starting at position `i`. */
  predicate OccursAt(s: string, p: string, i: int)
  {
    0 <= i && i + |p| <= |s| && s[i..i + |p|] == p
  }

  /** Python's `p in s` for strings: a substring search from the left. */
  function Contains(s: string, p: string): (r: bool)
    ensures r <==> exists i :: OccursAt(s, p, i)
    decreases |s|
  {
    if |p| > |s| then
      assert forall i :: !OccursAt(s, p, i);
      false
    else if s[..|p|] == p then
      assert OccursAt(s, p, 0);
      true
    else
      var rest := Contains(s[1..], p);
      assert forall i :: OccursAt(s[1..], p, i) <==> OccursAt(s, p, i + 1) by {
        forall i ensures OccursAt(s[1..], p, i) <==> OccursAt(s, p, i + 1) {
          if 0 <= i && i + |p| <= |s| - 1 {
            assert s[1..][i..i + |p|] == s[i + 1..i + 1 + |p|];
          }
        }
      }
      assert rest ==> exists i :: OccursAt(s, p, i) by {
        if rest {
          var i :| OccursAt(s[1..], p, i);
          assert OccursAt(s, p, i + 1);
        }
      }
      assert (exists i :: OccursAt(s, p, i)) ==> rest by {
        if exists i :: OccursAt(s, p, i) {
          var i :| OccursAt(s, p, i);
          assert i != 0;
          assert OccursAt(s[1..], p, i - 1);
        }
      }
      rest
  }

  /** `s.split(sep)[0]`: the part of `s` before the first `sep`, or all of `s`. */
  function Stem(s: string, sep: char): (r: string)
    ensures sep !in r
    ensures r <= s
    ensures |r| < |s| ==> s[|r|] == sep
  {
    if s == [] || s[0] == sep then []
    else
      var rest := Stem(s[1..], sep);
      assert [s[0]] + rest <= s by {
        assert s == [s[0]] + s[1..];
      }
      [s[0]] + rest
  }

  /** Appending text that starts with `sep` to a string free of it does not change the stem. */
  lemma {:induction false} StemOfSeparated(a: string, sep: char, b: string)
    requires sep !in a
    ensures Stem(a + [sep] + b, sep) == a
  {
    if a != [] {
      assert (a + [sep] + b)[1..] == a[1..] + [sep] + b;
      StemOfSeparated(a[1..], sep, b);
    }
  }

  /** `s.replace(from, to)` for single characters. */
  function ReplaceChar(s: string, from: char, to: char): (r: string)
    ensures |r| == |s|
    ensures forall i :: 0 <= i < |s| ==> r[i] == (if s[i] == from then to else s[i])
  {
    if s == [] then [] else [if s[0] == from then to else s[0]] + ReplaceChar(s[1..], from, to)
  }

  predicate IsDigit(c: char)
  {
    '0' <= c <= '9'
  }

  predicate AllDigits(s: string)
  {
    forall i :: 0 <= i < |s| ==> IsDigit(s[i])
  }

  function Digit(k: int): (c: char)
    requires 0 <= k < 10
    ensures IsDigit(c)
  {
    ('0' as int + k) as char
  }

  function DigitValue(c: char): (k: int)
    requires IsDigit(c)
    ensures 0 <= k < 10
    ensures Digit(k) == c
  {
    c as int - '0' as int
  }

  /** The number denoted by a string of decimal digits. */
  function DecimalValue(s: string): (n: nat)
    requires AllDigits(s)
  {
    if s == [] then 0 else 10 * DecimalValue(s[..|s| - 1]) + DigitValue(s[|s| - 1])
  }

  /** `str(n)` for a natural number. */
  function NatToString(n: nat): string
  {
    if n < 10 then [Digit(n)] else NatToString(n / 10) + [Digit(n % 10)]
  }

  /** `str(n)` is the decimal numeral of `n`: digits only, no leading zero,
      and it reads back as `n`. */
  lemma {:induction false} NatToStringIsDecimal(n: nat)
    ensures |NatToString(n)| >= 1 && AllDigits(NatToString(n))
    ensures |NatToString(n)| > 1 ==> NatToString(n)[0] != '0'
    ensures DecimalValue(NatToString(n)) == n
  {
    if n >= 10 {
      NatToStringIsDecimal(n / 10);
      DecimalValueSnoc(NatToString(n / 10), Digit(n % 10));
    } else {
      DecimalValueSnoc([], Digit(n));
      assert [] + [Digit(n)] == [Digit(n)];
    }
  }

  /** `str(i)` for an integer. */
  function IntToString(i: int): string
  {
    if i < 0 then "-" + NatToString(-i) else NatToString(i)
  }

  /** Zero-padded two-digit rendering, as `%d`, `%m` and `%y` produce. */
  function Pad2(x: int): (r: string)
    requires 0 <= x < 100
    ensures |r| == 2 && AllDigits(r) && DecimalValue(r) == x
  {
    var r := [Digit(x / 10), Digit(x % 10)];
    DecimalValueSnoc([Digit(x / 10)], Digit(x % 10));
    DecimalValueSnoc([], Digit(x / 10));
    assert [] + [Digit(x / 10)] == [Digit(x / 10)];
    r
  }

  /** Zero-padded four-digit rendering, as `%Y` produces. */
  function Pad4(x: int): (r: string)
    requires 0 <= x < 10000
    ensures |r| == 4 && AllDigits(r) && DecimalValue(r) == x
  {
    var r := Pad2(x / 100) + Pad2(x % 100);
    DecimalValueAppend2(Pad2(x / 100), Pad2(x % 100));
    r
  }

  lemma DecimalValueSnoc(a: string, c: char)
    requires AllDigits(a) && IsDigit(c)
    ensures AllDigits(a + [c])
    ensures DecimalValue(a + [c]) == 10 * DecimalValue(a) + DigitValue(c)
  {
    assert (a + [c])[..|a|] == a;
  }

  lemma DecimalValueAppend2(a: string, b: string)
    requires AllDigits(a) && AllDigits(b) && |b| == 2
    ensures AllDigits(a + b)
    ensures DecimalValue(a + b) == 100 * DecimalValue(a) + DecimalValue(b)
  {
    DecimalValueSnoc(a, b[0]);
    DecimalValueSnoc(a + [b[0]], b[1]);
    assert a + b == a + [b[0]] + [b[1]];
    DecimalValueSnoc([], b[0]);
    assert b == [] + [b[0]] + [b[1]];
    DecimalValueSnoc([b[0]], b[1]);
    assert [] + [b[0]] == [b[0]];
  }
}
