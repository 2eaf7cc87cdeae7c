/** Trimming, case folding and decimal numerals of the text the session handles. */
module Text {
  import opened Wrappers

  /** Unicode White_Space. */
  predicate IsWhite(c: char) {
    var n := c as int;
    || 0x09 <= n <= 0x0D || n == 0x20 || n == 0x85 || n == 0xA0 || n == 0x1680
    || 0x2000 <= n <= 0x200A || n == 0x2028 || n == 0x2029 || n == 0x202F || n == 0x205F || n == 0x3000
  }

  predicate AllWhite(s: string) {
    forall i :: 0 <= i < |s| ==> IsWhite(s[i])
  }

  function TrimStart(s: string): string {
    if s != [] && IsWhite(s[0]) then TrimStart(s[1..]) else s
  }

  function TrimEnd(s: string): string {
    if s != [] && IsWhite(s[|s| - 1]) then TrimEnd(s[..|s| - 1]) else s
  }

  function Trim(s: string): string {
    TrimEnd(TrimStart(s))
  }

  /** No white space at either end. */
  predicate Trimmed(s: string) {
    s == [] || (!IsWhite(s[0]) && !IsWhite(s[|s| - 1]))
  }

  lemma {:induction false} TrimStartSplits(s: string)
    ensures var t := TrimStart(s);
            |t| <= |s| && AllWhite(s[..|s| - |t|]) && s == s[..|s| - |t|] + t && (t == [] || !IsWhite(t[0]))
    decreases |s|
  {
    if s != [] && IsWhite(s[0]) {
      TrimStartSplits(s[1..]);
      var n := |s| - |TrimStart(s)|;
      assert s[..n] == [s[0]] + s[1..][..n - 1];
    }
  }

  lemma {:induction false} TrimEndSplits(s: string)
    ensures var t := TrimEnd(s);
            |t| <= |s| && AllWhite(s[|t|..]) && t == s[..|t|] && (t == [] || !IsWhite(t[|t| - 1]))
    decreases |s|
  {
    if s != [] && IsWhite(s[|s| - 1]) {
      var u := s[..|s| - 1];
      TrimEndSplits(u);
      var n := |TrimEnd(s)|;
      assert s[n..] == u[n..] + [s[|s| - 1]];
    }
  }

  /** Trimming yields a trimmed text. */
  lemma TrimIsTrimmed(s: string)
    ensures Trimmed(Trim(s))
  {
    TrimStartSplits(s);
    TrimEndSplits(TrimStart(s));
  }

  lemma {:induction false} TrimStartOf(left: string, s: string)
    requires AllWhite(left) && (s == [] || !IsWhite(s[0]))
    ensures TrimStart(left + s) == s
    decreases |left|
  {
    if left == [] {
      assert left + s == s;
    } else {
      assert (left + s)[1..] == left[1..] + s;
      TrimStartOf(left[1..], s);
    }
  }

  lemma {:induction false} TrimEndOf(s: string, right: string)
    requires AllWhite(right) && (s == [] || !IsWhite(s[|s| - 1]))
    ensures TrimEnd(s + right) == s
    decreases |right|
  {
    var t := s + right;
    if right == [] {
      assert t == s;
    } else {
      assert t[..|t| - 1] == s + right[..|right| - 1];
      TrimEndOf(s, right[..|right| - 1]);
    }
  }

  /** Any white space around a nonempty trimmed text is taken off again, and no more. */
  lemma TrimRemovesPadding(left: string, core: string, right: string)
    requires AllWhite(left) && AllWhite(right) && Trimmed(core) && core != []
    ensures Trim(left + core + right) == core
  {
    assert left + core + right == left + (core + right);
    TrimStartOf(left, core + right);
    TrimEndOf(core, right);
  }

  lemma TrimIsIdempotent(s: string)
    requires Trimmed(s)
    ensures Trim(s) == s
  {
    if s != [] {
      TrimRemovesPadding([], s, []);
      assert [] + s + [] == s;
    }
  }

  /** The 25 white-space code points, one by one: exactly these come off at either end. */
  lemma WhiteSpaceTable(c: char, s: string)
    ensures var white := (c as int) in {0x09, 0x0A, 0x0B, 0x0C, 0x0D, 0x20, 0x85, 0xA0, 0x1680, 0x2000, 0x2001, 0x2002, 0x2003,
                                        0x2004, 0x2005, 0x2006, 0x2007, 0x2008, 0x2009, 0x200A, 0x2028, 0x2029, 0x202F,
                                        0x205F, 0x3000};
            && TrimStart([c] + s) == (if white then TrimStart(s) else [c] + s)
            && TrimEnd(s + [c]) == (if white then TrimEnd(s) else s + [c])
  {
    assert ([c] + s)[1..] == s;
    assert (s + [c])[..|s|] == s;
  }

  function LowerChar(c: char): char {
    if 'A' <= c <= 'Z' then (c as int + 32) as char else c
  }

  function Lower(s: string): string {
    seq(|s|, i requires 0 <= i < |s| => LowerChar(s[i]))
  }

  /** The same text, save that letters of `s` may be capitals. */
  predicate SameButCase(s: string, word: string) {
    |s| == |word| && forall i :: 0 <= i < |s| ==> s[i] == word[i] || ('A' <= s[i] <= 'Z' && s[i] as int + 32 == word[i] as int)
  }

  /** Lower case makes a text a given word in small letters exactly when it is that word but for case. */
  lemma LowerIsSmall(s: string, word: string)
    requires forall i :: 0 <= i < |word| ==> 'a' <= word[i] <= 'z'
    ensures Lower(s) == word <==> SameButCase(s, word)
  {
    if SameButCase(s, word) {
      assert forall i :: 0 <= i < |s| ==> Lower(s)[i] == LowerChar(s[i]) == word[i];
    }
  }

  // ---------- Decimal numerals ----------

  const USIZE_MAX: nat := 0xFFFF_FFFF_FFFF_FFFF

  predicate IsDigit(c: char) {
    '0' <= c <= '9'
  }

  predicate AllDigits(s: string) {
    forall i :: 0 <= i < |s| ==> IsDigit(s[i])
  }

  function DigitValue(c: char): nat
    requires IsDigit(c)
  {
    c as int - '0' as int
  }

  function DigitChar(d: nat): char
    requires d < 10
  {
    ('0' as int + d) as char
  }

  /** The decimal numeral of `n`, without leading zeros. */
  function Print(n: nat): (s: string)
    ensures s != [] && AllDigits(s)
  {
    if n < 10 then [DigitChar(n)] else Print(n / 10) + [DigitChar(n % 10)]
  }

  function Value(s: string): nat
    requires AllDigits(s)
  {
    if s == [] then 0 else 10 * Value(s[..|s| - 1]) + DigitValue(s[|s| - 1])
  }

  /** Parsing an unsigned machine word: an optional plus sign, at least one digit, no overflow. */
  function ParseUsize(s: string): Option<nat> {
    var digits := if s != [] && s[0] == '+' then s[1..] else s;
    if digits == [] || !AllDigits(digits) || Value(digits) > USIZE_MAX then None
    else Some(Value(digits))
  }

  lemma {:induction false} ValueOfPrint(n: nat)
    ensures Value(Print(n)) == n
    decreases n
  {
    if n >= 10 {
      ValueOfPrint(n / 10);
      var s := Print(n);
      assert s[..|s| - 1] == Print(n / 10);
    } else {
      var s := Print(n);
      assert s[..|s| - 1] == [];
    }
  }

  /** Printing and parsing are inverse over every machine word, and every larger number is refused. */
  lemma ParseOfPrint(n: nat)
    ensures ParseUsize(Print(n)) == if n <= USIZE_MAX then Some(n) else None
  {
    ValueOfPrint(n);
    var s := Print(n);
    assert IsDigit(s[0]);
  }

  const DIGITS: string := "0123456789"

  /** Numerals are decimal and positional. */
  lemma PrintIsDecimal(q: nat, d: nat)
    requires d < 10
    ensures Print(d) == [DIGITS[d]]
    ensures q > 0 ==> Print(10 * q + d) == Print(q) + [DIGITS[d]]
  {
    assert DIGITS[d] == DigitChar(d);
  }

  lemma {:induction false} LeadingZeros(k: nat, s: string)
    requires AllDigits(s)
    ensures AllDigits(seq(k, _ => '0') + s) && Value(seq(k, _ => '0') + s) == Value(s)
    decreases |s|
  {
    var zeros := seq(k, _ => '0');
    if s == [] {
      assert zeros + s == zeros;
      ZerosAreZero(k);
    } else {
      assert (zeros + s)[..k + |s| - 1] == zeros + s[..|s| - 1];
      LeadingZeros(k, s[..|s| - 1]);
    }
  }

  lemma {:induction false} ZerosAreZero(k: nat)
    ensures Value(seq(k, _ => '0')) == 0
  {
    if k > 0 {
      assert seq(k, _ => '0')[..k - 1] == seq(k - 1, _ => '0');
      ZerosAreZero(k - 1);
    }
  }

  /**
    Which texts are numbers: an optional plus sign, any leading zeros and a decimal numeral
    below 2^64. A text without digits, or with anything else in it, is none.
   */
  lemma ParseTable(n: nat, k: nat, s: string)
    ensures var numeral := seq(k, _ => '0') + Print(n);
            var result := if n < 0x1_0000_0000_0000_0000 then Some(n) else None;
            ParseUsize(numeral) == result && ParseUsize("+" + numeral) == result
    ensures (exists i :: 0 <= i < |s| && !('0' <= s[i] <= '9') && !(i == 0 && s[i] == '+')) ==> ParseUsize(s) == None
    ensures ParseUsize("") == None && ParseUsize("+") == None
  {
    ParseNumeral(seq(k, _ => '0') + Print(n), n, k);
    if i :| 0 <= i < |s| && !('0' <= s[i] <= '9') && !(i == 0 && s[i] == '+') {
      NotANumeral(s, i);
    }
    assert "+"[1..] == [];
  }

  lemma ParseNumeral(numeral: string, n: nat, k: nat)
    requires numeral == seq(k, _ => '0') + Print(n)
    ensures var result := if n < 0x1_0000_0000_0000_0000 then Some(n) else None;
            ParseUsize(numeral) == result && ParseUsize("+" + numeral) == result
  {
    ValueOfPrint(n);
    LeadingZeros(k, Print(n));
    assert IsDigit(numeral[0]);
    assert ("+" + numeral)[1..] == numeral;
  }

  lemma NotANumeral(s: string, i: nat)
    requires i < |s| && !('0' <= s[i] <= '9') && !(i == 0 && s[i] == '+')
    ensures ParseUsize(s) == None
  {
    if s[0] == '+' {
      assert s[1..][i - 1] == s[i];
    }
  }

  lemma NumeralIsTrimmed(n: nat)
    ensures Trimmed(Print(n))
  {
    var s := Print(n);
    assert IsDigit(s[0]) && IsDigit(s[|s| - 1]);
  }
}
