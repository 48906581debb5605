/** Bytes as hexadecimal text: `bytes.hex` writes lowercase, `bytes.fromhex` also reads uppercase and skips whitespace. */
module HexText {
  import opened Digits
  import opened Wrappers

  predicate IsLower(c: char) {
    '0' <= c <= '9' || 'a' <= c <= 'f'
  }

  function DigitChar(n: nat): char
    requires n < 16
  {
    if n < 10 then ('0' as int + n) as char else ('a' as int + n - 10) as char
  }

  /** The value of a hexadecimal digit. */
  function DigitValue(c: char): Option<int> {
    if '0' <= c <= '9' then Some(c as int - '0' as int)
    else if 'a' <= c <= 'f' then Some(c as int - 'a' as int + 10)
    else if 'A' <= c <= 'F' then Some(c as int - 'A' as int + 10)
    else None
  }

  predicate IsSpace(c: char) {
    c == ' ' || c == '\t' || c == '\n' || c == '\r' || c as int == 0x0B || c as int == 0x0C
  }

  function ToHex(data: bytes): (text: string)
    ensures |text| == 2 * |data|
  {
    if data == [] then "" else [DigitChar(data[0] / 16), DigitChar(data[0] % 16)] + ToHex(data[1..])
  }

  /** Pairs of digits, with whitespace between the pairs. */
  function FromHex(text: string): Option<bytes> {
    if text == [] then Some([])
    else if IsSpace(text[0]) then FromHex(text[1..])
    else if |text| == 1 || DigitValue(text[0]).None? || DigitValue(text[1]).None? then None
    else
      match FromHex(text[2..])
      case None => None
      case Some(rest) => Some([16 * DigitValue(text[0]).value + DigitValue(text[1]).value] + rest)
  }

  /** The digits below ten start at character 48, '0'; the others at 65, 'A', and at 97, 'a'. */
  lemma HexDigits(c: char, i: int)
    requires 0 <= i < 16
    ensures DigitValue(c) == Some(i) <==>
            if i < 10 then c as int == 48 + i else c as int == 65 + (i - 10) || c as int == 97 + (i - 10)
    ensures DigitValue(c).Some? ==> 0 <= DigitValue(c).value < 16
  {
  }

  /** Between pairs the six ASCII whitespace characters are skipped, and text that starts with anything else but a digit is
      refused. */
  lemma OnlySpaceSkipped(c: char, rest: string)
    ensures c as int in [9, 10, 11, 12, 13, 32] ==> FromHex([c] + rest) == FromHex(rest)
    ensures c as int !in [9, 10, 11, 12, 13, 32] && DigitValue(c).None? ==> FromHex([c] + rest).None?
  {
    assert ([c] + rest)[0] == c && ([c] + rest)[1..] == rest;
  }

  lemma DigitOf(n: nat)
    requires n < 16
    ensures IsLower(DigitChar(n)) && DigitValue(DigitChar(n)) == Some(n)
  {
  }

  lemma LowerDigit(c: char)
    requires IsLower(c)
    ensures DigitValue(c).Some? && 0 <= DigitValue(c).value < 16 && DigitChar(DigitValue(c).value) == c && !IsSpace(c)
  {
  }

  predicate AllLower(text: string) {
    forall i :: 0 <= i < |text| ==> IsLower(text[i])
  }

  function Pair(a: char, b: char, rest: Option<bytes>): Option<bytes>
    requires DigitValue(a).Some? && DigitValue(b).Some?
  {
    match rest
    case None => None
    case Some(data) => Some([16 * DigitValue(a).value + DigitValue(b).value] + data)
  }

  lemma FromHexPair(a: char, b: char, rest: string)
    requires DigitValue(a).Some? && DigitValue(b).Some?
    ensures FromHex([a, b] + rest) == Pair(a, b, FromHex(rest))
  {
    var text := [a, b] + rest;
    assert text[0] == a && text[1] == b && text[2..] == rest;
  }

  lemma Nibbles(high: int, low: int)
    requires 0 <= high < 16 && 0 <= low < 16
    ensures (16 * high + low) / 16 == high && (16 * high + low) % 16 == low
  {
  }

  /** A byte is written as its two nibbles. */
  lemma ToHexByte(d: byte, high: nat, low: nat, rest: bytes)
    requires high < 16 && low < 16 && d == 16 * high + low
    ensures ToHex([d] + rest) == [DigitChar(high), DigitChar(low)] + ToHex(rest)
  {
    Nibbles(high, low);
    assert ([d] + rest)[1..] == rest;
  }

  /** Reading undoes writing, and what is written is lowercase. */
  lemma {:induction false} FromHexOfToHex(data: bytes)
    ensures FromHex(ToHex(data)) == Some(data) && AllLower(ToHex(data))
  {
    if data != [] {
      var (d, rest) := (data[0], data[1..]);
      var (high, low) := (d / 16, d % 16);
      assert data == [d] + rest;
      FromHexOfToHex(rest);
      ToHexByte(d, high, low, rest);
      DigitOf(high);
      DigitOf(low);
      FromHexPair(DigitChar(high), DigitChar(low), ToHex(rest));
    }
  }

  /** A pair of lowercase digits is what its byte is written as. */
  lemma PairWritten(a: char, b: char, rest: bytes)
    requires IsLower(a) && IsLower(b) && DigitValue(a).Some? && DigitValue(b).Some?
    ensures ToHex(Pair(a, b, Some(rest)).value) == [a, b] + ToHex(rest)
  {
    var (high, low) := (DigitValue(a).value, DigitValue(b).value);
    LowerDigit(a);
    LowerDigit(b);
    ToHexByte(16 * high + low, high, low, rest);
  }

  /** Text that reads and starts with a digit is a pair of digits and text that reads. */
  lemma FirstPair(text: string)
    requires text != [] && DigitValue(text[0]).Some? && FromHex(text).Some?
    ensures |text| >= 2 && DigitValue(text[1]).Some? && FromHex(text[2..]).Some?
    ensures FromHex(text) == Pair(text[0], text[1], FromHex(text[2..]))
  {
  }

  /** Text of lowercase digits only is read pair by pair, so writing gives it back. */
  lemma {:induction false} LowerWrittenBack(text: string)
    requires AllLower(text) && FromHex(text).Some?
    ensures ToHex(FromHex(text).value) == text
    decreases |text|
  {
    if text != [] {
      LowerDigit(text[0]);
      FirstPair(text);
      PairWritten(text[0], text[1], FromHex(text[2..]).value);
      LowerWrittenBack(text[2..]);
      assert text == [text[0], text[1]] + text[2..];
    }
  }

  /** Writing undoes reading exactly for text of lowercase digits and nothing else. */
  lemma ToHexOfFromHex(text: string)
    requires FromHex(text).Some?
    ensures ToHex(FromHex(text).value) == text <==> AllLower(text)
  {
    if ToHex(FromHex(text).value) == text { FromHexOfToHex(FromHex(text).value); }
    if AllLower(text) { LowerWrittenBack(text); }
  }

  function Uppercase(n: nat): (text: string)
    ensures |text| == 2 * n
  {
    if n == 0 then "" else "AA" + Uppercase(n - 1)
  }

  /** Uppercase text is read too, whatever its length. */
  lemma {:induction false} UppercaseReads(n: nat)
    ensures FromHex(Uppercase(n)).Some? && |FromHex(Uppercase(n)).value| == n && (n > 0 ==> !AllLower(Uppercase(n)))
  {
    if n > 0 {
      UppercaseReads(n - 1);
      FromHexPair('A', 'A', Uppercase(n - 1));
      assert !IsLower(Uppercase(n)[0]);
    }
  }
}
