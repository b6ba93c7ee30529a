/** getReadMinutes: the number of minutes a card's read-time text announces, taken as the first
    run of decimal digits in the text (the regular expression /(\d+)/ and parseInt), or 0. */
module ReadTime {
  import opened Text

  /** The longest prefix of s made of digits. */
  function DigitRun(s: string): (r: string)
    ensures |r| <= |s| && r == s[..|r|] && AllDigits(r)
    ensures |r| < |s| ==> !IsDigit(s[|r|])
  {
    if s != [] && IsDigit(s[0]) then [s[0]] + DigitRun(s[1..]) else []
  }

  /** getReadMinutes. A text without a digit reads as 0 minutes; ReadMinutesFirstRun says which
      number a text with digits reads as. */
  function ReadMinutes(text: string): (r: nat)
    ensures NoDigits(text) ==> r == 0
  {
    if text == [] then 0
    else if IsDigit(text[0]) then DecimalValue(DigitRun(text))
    else ReadMinutes(text[1..])
  }

  /** DigitRun stops exactly at the end of the first run: a maximal run of digits at the
      front of s is what it returns. */
  lemma {:induction false} DigitRunIs(s: string, j: nat)
    requires j <= |s| && AllDigits(s[..j])
    requires j == |s| || !IsDigit(s[j])
    ensures DigitRun(s) == s[..j]
    decreases j
  {
    if j > 0 {
      assert IsDigit(s[..j][0]);
      var tail := s[1..];
      forall k | 0 <= k < j - 1 ensures IsDigit(tail[k]) {
        assert tail[k] == s[..j][k + 1];
      }
      assert j - 1 == |tail| || tail[j - 1] == s[j];
      DigitRunIs(tail, j - 1);
      assert s[..j] == [s[0]] + tail[..j - 1];
    }
  }

  /** The value read is that of the first maximal run of digits s[i..j]: nothing before i is
      a digit, s[i..j] is all digits, and s[j] (if any) is not one. */
  lemma {:induction false} ReadMinutesFirstRun(text: string, i: nat, j: nat)
    requires i < j <= |text|
    requires NoDigits(text[..i])
    requires AllDigits(text[i..j])
    requires j == |text| || !IsDigit(text[j])
    ensures ReadMinutes(text) == DecimalValue(text[i..j])
    decreases i
  {
    if i == 0 {
      assert IsDigit(text[0..j][0]);
      DigitRunIs(text, j);
      assert text[..j] == text[i..j];
    } else {
      assert !IsDigit(text[..i][0]);
      var tail := text[1..];
      assert NoDigits(tail[..i - 1]) by {
        forall k | 0 <= k < i - 1 ensures !IsDigit(tail[k]) {
          assert tail[k] == text[..i][k + 1];
        }
      }
      assert tail[i - 1..j - 1] == text[i..j];
      ReadMinutesFirstRun(tail, i - 1, j - 1);
    }
  }

  /** A number written in decimal after a digit-free prefix is read back: "8 min" gives 8. */
  lemma ReadMinutesOfNumber(prefix: string, n: nat, suffix: string)
    requires NoDigits(prefix)
    requires suffix == [] || !IsDigit(suffix[0])
    ensures ReadMinutes(prefix + DecimalString(n) + suffix) == n
  {
    var d := DecimalString(n);
    var text := prefix + d + suffix;
    var i, j := |prefix|, |prefix| + |d|;
    assert text[..i] == prefix;
    assert text[i..j] == d;
    assert j < |text| ==> text[j] == suffix[0];
    ReadMinutesFirstRun(text, i, j);
  }

  /** The example the source comments on: "8 phút đọc" reads as 8 minutes. */
  lemma ReadMinutesExample()
    ensures ReadMinutes("8 phút đọc") == 8
  {
    var text := "8 phút đọc";
    DigitRunIs(text, 1);
    assert text[..1] == "8" && "8"[..0] == "";
  }
}
