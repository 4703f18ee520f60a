/** The `data` record that flows from the mappers through the bounded buffers
    to the reducers, the all-empty end-of-input sentinel, the reducer's filter,
    and the decimal rendering of line numbers that the mapper stores. */
module Records {

  datatype Option<T> = None | Some(value: T)

  /** One occurrence of a line: every field is a string, as in the source's
      `struct data`. */
  datatype Data = Data(fileName: string, lineNum: string, word: string)

  /** The record the last mapper sends to every buffer so that reducers
      blocked on an empty buffer wake up: all three fields empty. */
  const SENTINEL: Data := Data("", "", "")

  /** The reducer's test before inserting a record into the index: all three
      fields must be non-empty. */
  predicate IsRecord(d: Data): (accepted: bool)
    ensures accepted ==> d != SENTINEL
    ensures d.word == "" ==> !accepted
    ensures d.fileName == "" ==> !accepted
    ensures d.lineNum == "" ==> !accepted
  {
    d.word != "" && d.fileName != "" && d.lineNum != ""
  }

  /** Decimal digit of value `d`. */
  function DigitChar(d: nat): (c: char)
    requires d < 10
    ensures '0' <= c <= '9'
  {
    (48 + d) as char
  }

  function DigitValue(c: char): (d: nat)
    requires '0' <= c <= '9'
    ensures d < 10
  {
    c as int - 48
  }

  predicate IsDecimal(s: string) {
    forall i :: 0 <= i < |s| ==> '0' <= s[i] <= '9'
  }

  /** What `stringstream << int` produces for a non-negative number: its
      decimal digits, without leading zeros. */
  function NatToString(n: nat): (s: string)
    ensures |s| >= 1
    ensures IsDecimal(s)
    ensures s[0] == '0' ==> n == 0
    decreases n
  {
    if n < 10 then [DigitChar(n)] else NatToString(n / 10) + [DigitChar(n % 10)]
  }

  /** The number a string of decimal digits denotes. */
  function DecimalValue(s: string): nat
    requires IsDecimal(s)
    decreases |s|
  {
    if s == [] then 0 else DecimalValue(s[..|s| - 1]) * 10 + DigitValue(s[|s| - 1])
  }

  /** Reading back a rendered line number gives the number. */
  lemma {:induction false} DecimalRoundTrip(n: nat)
    ensures DecimalValue(NatToString(n)) == n
    decreases n
  {
    var s := NatToString(n);
    if n >= 10 {
      DecimalRoundTrip(n / 10);
      assert s[..|s| - 1] == NatToString(n / 10);
    }
  }

  /** Distinct line numbers are rendered as distinct strings. */
  lemma NatToStringInjective(m: nat, n: nat)
    requires NatToString(m) == NatToString(n)
    ensures m == n
  {
    DecimalRoundTrip(m);
    DecimalRoundTrip(n);
  }
}
