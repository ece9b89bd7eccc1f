/**
 Letters and digits, written out and as ranges of characters.
 */
module Characters {

  const UPPER: string := "ABCDEFGHIJKLM" + "NOPQRSTUVWXYZ"
  const LOWER: string := "abcdefghijklm" + "nopqrstuvwxyz"
  const DIGITS: string := "0123456789"

  /** Consecutive characters. */
  function Row(first: nat, n: nat): (s: string)
    requires first + n < 128
    ensures |s| == n
  {
    if n == 0 then "" else Row(first, n - 1) + [(first + n - 1) as char]
  }

  lemma {:induction false} RowAt(first: nat, n: nat, x: nat)
    requires first + n < 128 && x < n
    ensures Row(first, n)[x] == (first + x) as char
  {
    if x < n - 1 { RowAt(first, n - 1, x); }
  }

  lemma {:induction false} RowsJoin(first: nat, m: nat, n: nat)
    requires first + m + n < 128
    ensures Row(first, m) + Row(first + m, n) == Row(first, m + n)
  {
    if n == 0 {
      assert Row(first, m) + "" == Row(first, m);
    } else {
      RowsJoin(first, m, n - 1);
      assert Row(first, m) + (Row(first + m, n - 1) + [(first + m + n - 1) as char]) ==
             (Row(first, m) + Row(first + m, n - 1)) + [(first + m + n - 1) as char];
    }
  }

  lemma UpperHalves()
    ensures Row(65, 13) == "ABCDEFGHIJKLM" && Row(78, 13) == "NOPQRSTUVWXYZ"
  {
    assert Row(65, 13) == "ABCDEFGHIJKLM";
  }

  lemma LowerHalves()
    ensures Row(97, 13) == "abcdefghijklm" && Row(110, 13) == "nopqrstuvwxyz"
  {
    assert Row(97, 13) == "abcdefghijklm";
  }

  lemma RowsAre()
    ensures UPPER == Row(65, 26) && LOWER == Row(97, 26) && DIGITS == Row(48, 10)
  {
    UpperHalves();
    LowerHalves();
    RowsJoin(65, 13, 13);
    RowsJoin(97, 13, 13);
    DigitRow();
  }

  lemma DigitRow()
    ensures DIGITS == Row(48, 10)
  {
  }

  lemma InRow(first: nat, n: nat, c: char)
    requires first + n < 128
    ensures c in Row(first, n) <==> first <= c as int < first + n
  {
    if c in Row(first, n) {
      var x :| 0 <= x < n && Row(first, n)[x] == c;
      RowAt(first, n, x);
    }
    if first <= c as int < first + n {
      RowAt(first, n, c as int - first);
    }
  }

  /** The ranges are the letters and the digits. */
  lemma RangesAreLetters(c: char)
    ensures 'A' <= c <= 'Z' <==> c in UPPER
    ensures 'a' <= c <= 'z' <==> c in LOWER
    ensures '0' <= c <= '9' <==> c in DIGITS
  {
    RowsAre();
    InRow(65, 26, c);
    InRow(97, 26, c);
    InRow(48, 10, c);
  }
}
