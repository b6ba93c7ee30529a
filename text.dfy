/** The string primitives the card controller relies on: decimal digits, the white space that
    String.prototype.trim removes, splitting on a separator, lower-casing and substring search. */
module Text {

  // ---------------------------------------------------------------- decimal digits

  /** The class \d of a regular expression without the u flag: ASCII 0-9 only. */
  predicate IsDigit(ch: char) {
    '0' <= ch <= '9'
  }

  predicate AllDigits(s: string) {
    forall k :: 0 <= k < |s| ==> IsDigit(s[k])
  }

  predicate NoDigits(s: string) {
    forall k :: 0 <= k < |s| ==> !IsDigit(s[k])
  }

  function DigitValue(ch: char): (d: nat)
    requires IsDigit(ch)
    ensures d < 10
  {
    ch as int - '0' as int
  }

  function DigitChar(d: nat): (ch: char)
    requires d < 10
    ensures IsDigit(ch) && DigitValue(ch) == d
  {
    ('0' as int + d) as char
  }

  /** The value of a run of decimal digits, most significant first (parseInt with radix 10). */
  function DecimalValue(s: string): (r: nat)
    requires AllDigits(s)
    ensures r == 0 <==> forall k :: 0 <= k < |s| ==> s[k] == '0'
  {
    if s == [] then 0 else 10 * DecimalValue(s[..|s| - 1]) + DigitValue(s[|s| - 1])
  }

  /** The shortest decimal numeral of n. */
  function DecimalString(n: nat): (s: string)
    ensures |s| > 0 && AllDigits(s)
    ensures DecimalValue(s) == n
  {
    if n < 10 then [DigitChar(n)]
    else
      var s := DecimalString(n / 10) + [DigitChar(n % 10)];
      assert s[..|s| - 1] == DecimalString(n / 10);
      s
  }

  /** Leading zeros do not change a decimal value ("05" reads as 5). */
  lemma {:induction false} DecimalValueLeadingZero(s: string)
    requires AllDigits(s)
    ensures AllDigits("0" + s) && DecimalValue("0" + s) == DecimalValue(s)
  {
    if s != [] {
      var t := "0" + s;
      assert t[..|t| - 1] == "0" + s[..|s| - 1];
      DecimalValueLeadingZero(s[..|s| - 1]);
    }
  }

  // ---------------------------------------------------------------- white space and trim

  /** WhiteSpace and LineTerminator of ECMA-262: the characters trim() and Number() strip. */
  predicate IsWhiteSpace(ch: char) {
    var c := ch as int;
    c == 0x09 || c == 0x0A || c == 0x0B || c == 0x0C || c == 0x0D || c == 0x20 || c == 0xA0
    || c == 0x1680 || (0x2000 <= c <= 0x200A) || c == 0x2028 || c == 0x2029 || c == 0x202F
    || c == 0x205F || c == 0x3000 || c == 0xFEFF
  }

  function TrimStart(s: string): (r: string)
    ensures |r| <= |s| && r == s[|s| - |r|..]
  {
    if s != [] && IsWhiteSpace(s[0]) then TrimStart(s[1..]) else s
  }

  function TrimEnd(s: string): (r: string)
    ensures |r| <= |s| && r == s[..|r|]
  {
    if s != [] && IsWhiteSpace(s[|s| - 1]) then TrimEnd(s[..|s| - 1]) else s
  }

  /** String.prototype.trim. */
  function Trim(s: string): (r: string)
    ensures |r| <= |s| && forall c :: c in r ==> c in s
    ensures r != [] ==> !IsWhiteSpace(r[0]) && !IsWhiteSpace(r[|r| - 1])
    ensures (forall k :: 0 <= k < |s| ==> !IsWhiteSpace(s[k])) ==> r == s
  {
    TrimStartStrips(s);
    TrimEndStrips(TrimStart(s));
    TrimEnd(TrimStart(s))
  }

  /** TrimStart removes exactly the leading white space: what it drops is white space and what
      it keeps does not start with white space. */
  lemma {:induction false} TrimStartStrips(s: string)
    ensures forall k :: 0 <= k < |s| - |TrimStart(s)| ==> IsWhiteSpace(s[k])
    ensures TrimStart(s) != [] ==> !IsWhiteSpace(TrimStart(s)[0])
    decreases |s|
  {
    if s != [] && IsWhiteSpace(s[0]) {
      TrimStartStrips(s[1..]);
      forall k | 1 <= k < |s| - |TrimStart(s)| ensures IsWhiteSpace(s[k]) {
        assert s[k] == s[1..][k - 1];
      }
    }
  }

  /** TrimEnd removes exactly the trailing white space. */
  lemma {:induction false} TrimEndStrips(s: string)
    ensures forall k :: |TrimEnd(s)| <= k < |s| ==> IsWhiteSpace(s[k])
    ensures TrimEnd(s) != [] ==> !IsWhiteSpace(TrimEnd(s)[|TrimEnd(s)| - 1])
    decreases |s|
  {
    if s != [] && IsWhiteSpace(s[|s| - 1]) {
      TrimEndStrips(s[..|s| - 1]);
      forall k | |TrimEnd(s)| <= k < |s| - 1 ensures IsWhiteSpace(s[k]) {
        assert s[k] == s[..|s| - 1][k];
      }
    }
  }

  /** A numeral has nothing to trim. */
  lemma TrimDigits(s: string)
    requires AllDigits(s)
    ensures Trim(s) == s
  {
    if s != [] {
      assert !IsWhiteSpace(s[0]) && !IsWhiteSpace(s[|s| - 1]);
    }
  }

  // ---------------------------------------------------------------- split and join

  function Count(s: string, ch: char): nat {
    if s == [] then 0 else (if s[0] == ch then 1 else 0) + Count(s[1..], ch)
  }

  /** Count over a concatenation. */
  lemma {:induction false} CountAppend(a: string, b: string, ch: char)
    ensures Count(a + b, ch) == Count(a, ch) + Count(b, ch)
    decreases |a|
  {
    if a == [] {
      assert a + b == b;
    } else {
      assert (a + b)[1..] == a[1..] + b;
      CountAppend(a[1..], b, ch);
    }
  }

  lemma {:induction false} CountTrimStart(s: string, ch: char)
    requires !IsWhiteSpace(ch)
    ensures Count(TrimStart(s), ch) == Count(s, ch)
    decreases |s|
  {
    if s != [] && IsWhiteSpace(s[0]) {
      CountTrimStart(s[1..], ch);
    }
  }

  lemma {:induction false} CountTrimEnd(s: string, ch: char)
    requires !IsWhiteSpace(ch)
    ensures Count(TrimEnd(s), ch) == Count(s, ch)
    decreases |s|
  {
    if s != [] && IsWhiteSpace(s[|s| - 1]) {
      var init := s[..|s| - 1];
      assert s == init + [s[|s| - 1]];
      CountAppend(init, [s[|s| - 1]], ch);
      CountTrimEnd(init, ch);
    }
  }

  /** trim never removes a character that is not white space, so it keeps every '/'. */
  lemma CountTrim(s: string, ch: char)
    requires !IsWhiteSpace(ch)
    ensures Count(Trim(s), ch) == Count(s, ch)
  {
    CountTrimStart(s, ch);
    CountTrimEnd(TrimStart(s), ch);
  }

  /** Array.prototype.join with a one-character separator. */
  function Join(parts: seq<string>, sep: char): string
    requires |parts| > 0
  {
    if |parts| == 1 then parts[0] else parts[0] + [sep] + Join(parts[1..], sep)
  }

  /** String.prototype.split with a one-character separator: the pieces between separators,
      one more than there are separators ("" gives [""]). */
  function Split(s: string, sep: char): (parts: seq<string>)
    ensures |parts| == Count(s, sep) + 1
    ensures forall k :: 0 <= k < |parts| ==> sep !in parts[k]
    ensures Join(parts, sep) == s
  {
    if s == [] then [[]]
    else
      var rest := Split(s[1..], sep);
      if s[0] == sep then
        var parts := [[]] + rest;
        assert parts[1..] == rest;
        parts
      else
        var parts := [[s[0]] + rest[0]] + rest[1..];
        assert |rest| > 1 ==> parts[1..] == rest[1..];
        parts
  }

  lemma {:induction false} SplitPrefix(p: string, t: string, sep: char)
    requires sep !in p
    ensures Split(p + t, sep) == [p + Split(t, sep)[0]] + Split(t, sep)[1..]
  {
    if p != [] {
      assert (p + t)[1..] == p[1..] + t;
      assert (p + t)[0] == p[0] != sep;
      SplitPrefix(p[1..], t, sep);
      var rest := Split(p[1..] + t, sep);
      assert rest[0] == p[1..] + Split(t, sep)[0];
      assert rest[1..] == Split(t, sep)[1..];
      assert Split(p + t, sep) == [[p[0]] + rest[0]] + rest[1..];
      assert [p[0]] + (p[1..] + Split(t, sep)[0]) == p + Split(t, sep)[0];
    } else {
      var parts := Split(t, sep);
      assert p + t == t && p + parts[0] == parts[0];
      assert parts == [parts[0]] + parts[1..];
    }
  }

  lemma SplitAtSep(t: string, sep: char)
    ensures Split([sep] + t, sep) == [[]] + Split(t, sep)
  {
    assert ([sep] + t)[1..] == t;
  }

  /** One separator after a piece without separators: the piece comes off the front. */
  lemma {:induction false} SplitAfterPiece(p: string, rest: string, sep: char)
    requires sep !in p
    ensures Split(p + [sep] + rest, sep) == [p] + Split(rest, sep)
  {
    SplitAtSep(rest, sep);
    SplitPrefix(p, [sep] + rest, sep);
    assert p + [sep] + rest == p + ([sep] + rest);
    assert p + [] == p;
  }

  /** Splitting undoes joining pieces that contain no separator. */
  lemma {:induction false} SplitJoin(parts: seq<string>, sep: char)
    requires |parts| > 0
    requires forall k :: 0 <= k < |parts| ==> sep !in parts[k]
    ensures Split(Join(parts, sep), sep) == parts
  {
    if |parts| == 1 {
      SplitPrefix(parts[0], [], sep);
      assert parts[0] + [] == parts[0];
    } else {
      SplitJoin(parts[1..], sep);
      SplitAfterPiece(parts[0], Join(parts[1..], sep), sep);
      assert parts == [parts[0]] + parts[1..];
    }
  }

  // ---------------------------------------------------------------- case and search

  function LowerChar(ch: char): char {
    if 'A' <= ch <= 'Z' then (ch as int + 32) as char else ch
  }

  /** String.prototype.toLowerCase on the ASCII letters. */
  function Lower(s: string): (r: string)
    ensures |r| == |s|
    ensures forall k :: 0 <= k < |s| && 'A' <= s[k] <= 'Z' ==> r[k] as int == s[k] as int + 32
    ensures forall k :: 0 <= k < |r| ==> !('A' <= r[k] <= 'Z')
    ensures forall k :: 0 <= k < |s| && !('A' <= s[k] <= 'Z') ==> r[k] == s[k]
  {
    seq(|s|, k requires 0 <= k < |s| => LowerChar(s[k]))
  }

  /** Lower-casing twice is lower-casing once: a lower-cased term is its own lower case. */
  lemma LowerIdempotent(s: string)
    ensures Lower(Lower(s)) == Lower(s)
  {
  }

  /** Two characters that are equal or differ only in ASCII case. */
  predicate SameIgnoringCase(a: char, b: char) {
    a == b || ('A' <= a <= 'Z' && b as int == a as int + 32) || ('A' <= b <= 'Z' && a as int == b as int + 32)
  }

  /** Texts that differ only in ASCII case have the same lower case, so the search finds "Dafny"
      in a title whether the input was "DAFNY", "dafny" or "Dafny". */
  lemma LowerIgnoresCase(s: string, t: string)
    requires |s| == |t| && forall k :: 0 <= k < |s| ==> SameIgnoringCase(s[k], t[k])
    ensures Lower(s) == Lower(t)
  {
    forall k | 0 <= k < |s| ensures Lower(s)[k] == Lower(t)[k] {
      assert SameIgnoringCase(s[k], t[k]);
    }
  }

  /** String.prototype.includes: t occurs in s (the empty string occurs everywhere). */
  predicate Contains(s: string, t: string)
    ensures Contains(s, t) ==> |t| <= |s|
    decreases |s|
  {
    (|t| <= |s| && s[..|t|] == t) || (s != [] && Contains(s[1..], t))
  }

  /** t occurs in s starting at index i. */
  predicate OccursAt(s: string, t: string, i: int) {
    0 <= i <= |s| - |t| && s[i..i + |t|] == t
  }

  /** Contains agrees with "t occurs at some index of s". */
  lemma ContainsAt(s: string, t: string)
    ensures Contains(s, t) <==> exists i :: OccursAt(s, t, i)
  {
    if Contains(s, t) {
      var i := ContainsWitness(s, t);
    }
    if i :| OccursAt(s, t, i) {
      OccursContains(s, t, i);
    }
  }

  lemma {:induction false} ContainsWitness(s: string, t: string) returns (i: int)
    requires Contains(s, t)
    ensures OccursAt(s, t, i)
    decreases |s|
  {
    if |t| <= |s| && s[..|t|] == t {
      i := 0;
      assert s[0..0 + |t|] == s[..|t|];
    } else {
      var j := ContainsWitness(s[1..], t);
      i := j + 1;
      assert s[1..][j..j + |t|] == s[i..i + |t|];
    }
  }

  lemma {:induction false} OccursContains(s: string, t: string, i: int)
    requires OccursAt(s, t, i)
    ensures Contains(s, t)
    decreases i
  {
    if i == 0 {
      assert s[..|t|] == s[0..0 + |t|];
    } else {
      assert s[1..][i - 1..i - 1 + |t|] == s[i..i + |t|];
      OccursContains(s[1..], t, i - 1);
    }
  }

  lemma ContainsEmpty(s: string)
    ensures Contains(s, [])
  {
    assert s[..0] == [];
  }
}
