/** The two digit tables of the codec, and the proof that each undoes the other. */
module Base58Alphabet {

  // b58digits_ordered, eight digits to the row.
  const ORDERED: seq<string> := [
    "12345678", "9ABCDEFG", "HJKLMNPQ", "RSTUVWXY", "Zabcdefg", "hijkmnop", "qrstuvwx", "yz"]

  // b58digits_map, eight 7-bit characters to the row; -1 for characters outside the alphabet.
  const MAP: seq<seq<int>> := [
    [-1, -1, -1, -1, -1, -1, -1, -1], [-1, -1, -1, -1, -1, -1, -1, -1],
    [-1, -1, -1, -1, -1, -1, -1, -1], [-1, -1, -1, -1, -1, -1, -1, -1],
    [-1, -1, -1, -1, -1, -1, -1, -1], [-1, -1, -1, -1, -1, -1, -1, -1],
    [-1,  0,  1,  2,  3,  4,  5,  6], [ 7,  8, -1, -1, -1, -1, -1, -1],
    [-1,  9, 10, 11, 12, 13, 14, 15], [16, -1, 17, 18, 19, 20, 21, -1],
    [22, 23, 24, 25, 26, 27, 28, 29], [30, 31, 32, -1, -1, -1, -1, -1],
    [-1, 33, 34, 35, 36, 37, 38, 39], [40, 41, 42, 43, -1, 44, 45, 46],
    [47, 48, 49, 50, 51, 52, 53, 54], [55, 56, 57, -1, -1, -1, -1, -1]]

  /** The character of digit `d`: the digits and letters without 0, I, O and l. */
  function CharOf(d: nat): char
    requires d < 58
  {
    if d < 9 then '1' + d as char
    else if d < 17 then 'A' + (d - 9) as char
    else if d < 22 then 'J' + (d - 17) as char
    else if d < 33 then 'P' + (d - 22) as char
    else if d < 44 then 'a' + (d - 33) as char
    else 'm' + (d - 44) as char
  }

  /** The digit of `c`, or -1 outside the alphabet. */
  function DigitOf(c: char): int
  {
    if '1' <= c <= '9' then c as int - '1' as int
    else if 'A' <= c <= 'H' then c as int - 'A' as int + 9
    else if 'J' <= c <= 'N' then c as int - 'J' as int + 17
    else if 'P' <= c <= 'Z' then c as int - 'P' as int + 22
    else if 'a' <= c <= 'k' then c as int - 'a' as int + 33
    else if 'm' <= c <= 'z' then c as int - 'm' as int + 44
    else -1
  }

  lemma OrderedIsCharOf(d: nat)
    requires d < 58
    ensures ORDERED[d / 8][d % 8] == CharOf(d)
  {
  }

  /** A character with the high bit set is outside both the table and the alphabet. */
  lemma MapIsDigitOf(c: char)
    ensures DigitOf(c) == if c as int < 128 then MAP[c as int / 8][c as int % 8] else -1
  {
  }

  lemma TablesAreInverse(d: nat, c: char)
    ensures d < 58 ==> DigitOf(CharOf(d)) == d
    ensures -1 <= DigitOf(c) < 58
    ensures DigitOf(c) != -1 ==> CharOf(DigitOf(c)) == c
  {
  }
}
