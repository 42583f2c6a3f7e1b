/**
  Reading numbers and words out of text: decimal digit strings, Python's
  `int()` on a token, and Python's argument-less `str.split()`.
 */
module Text {
  import opened Wrappers

  predicate IsDigit(ch: char)
  {
    '0' <= ch <= '9'
  }

  predicate AllDigits(s: string)
  {
    forall i :: 0 <= i < |s| ==> IsDigit(s[i])
  }

  /** The value of a string of decimal digits, most significant first. */
  function DigitsValue(s: string): nat
    requires AllDigits(s)
  {
    if s == [] then 0
    else DigitsValue(s[..|s| - 1]) * 10 + (s[|s| - 1] as int - '0' as int)
  }

  /** The decimal spelling of `n`, without sign or leading zeros. */
  function Decimal(n: nat): (s: string)
    ensures |s| > 0 && AllDigits(s)
  {
    var d := ['0' + (n % 10) as char];
    if n < 10 then d else Decimal(n / 10) + d
  }

  /** Reading back the decimal spelling of a number gives the number. */
  lemma {:induction false} DecimalValue(n: nat)
    ensures DigitsValue(Decimal(n)) == n
  {
    var s := Decimal(n);
    if n >= 10 {
      DecimalValue(n / 10);
      assert s[..|s| - 1] == Decimal(n / 10);
    }
  }

  /** The spelling of an integer that Python's `int()` reads back: a minus
      sign for negative values, then the decimal digits. */
  function Signed(n: int): (s: string)
  {
    if n < 0 then "-" + Decimal(-n) else Decimal(n)
  }

  /** Python's `int(tok)` on a token free of whitespace: an optional sign and
      one or more ASCII digits; anything else raises ValueError (None). */
  function ParseInt(tok: string): (r: Option<int>)
    ensures r.Some? <==> (|tok| > 0 && AllDigits(tok)) ||
                         (|tok| > 1 && (tok[0] == '+' || tok[0] == '-') && AllDigits(tok[1..]))
  {
    if |tok| > 0 && (tok[0] == '+' || tok[0] == '-') then
      var digits := tok[1..];
      if |digits| > 0 && AllDigits(digits) then
        Some(if tok[0] == '-' then 0 - DigitsValue(digits) else DigitsValue(digits))
      else None
    else if |tok| > 0 && AllDigits(tok) then Some(DigitsValue(tok))
    else None
  }

  /** `int()` reads back every integer's spelling. */
  lemma ParseIntSigned(n: int)
    ensures ParseInt(Signed(n)) == Some(n)
  {
    if n < 0 {
      DecimalValue(-n);
      assert Signed(n)[1..] == Decimal(-n);
    } else {
      DecimalValue(n);
    }
  }

  /** The characters Python's `str.isspace()` holds of, where `str.split()`
      breaks a line. */
  predicate IsPySpace(ch: char)
  {
    ch == ' ' || ('\t' <= ch <= '\r') || ('\U{1C}' <= ch <= '\U{1F}') ||
    ch == '\U{85}' || ch == '\U{A0}' || ch == '\U{1680}' || ('\U{2000}' <= ch <= '\U{200A}') ||
    ch == '\U{2028}' || ch == '\U{2029}' || ch == '\U{202F}' || ch == '\U{205F}' || ch == '\U{3000}'
  }

  /** The length of the longest prefix of `s` with no whitespace. */
  function WordLength(s: string): (n: nat)
    ensures n <= |s|
    ensures forall i :: 0 <= i < n ==> !IsPySpace(s[i])
    ensures n == |s| || IsPySpace(s[n])
  {
    if s == [] || IsPySpace(s[0]) then 0 else 1 + WordLength(s[1..])
  }

  /** Python's `s.split()`: the maximal runs of non-whitespace, in order. */
  function Split(s: string): (words: seq<string>)
    decreases |s|
  {
    if s == [] then []
    else if IsPySpace(s[0]) then Split(s[1..])
    else
      var n := WordLength(s);
      [s[..n]] + Split(s[n..])
  }

  /** A word: non-empty and free of whitespace. */
  predicate IsWord(w: string)
  {
    |w| > 0 && forall i :: 0 <= i < |w| ==> !IsPySpace(w[i])
  }

  /** Every piece `split()` returns is a word. */
  lemma {:induction false} SplitGivesWords(s: string)
    ensures forall k :: 0 <= k < |Split(s)| ==> IsWord(Split(s)[k])
    decreases |s|
  {
    if s != [] {
      if IsPySpace(s[0]) {
        SplitGivesWords(s[1..]);
      } else {
        SplitGivesWords(s[WordLength(s)..]);
      }
    }
  }

  /** Words joined by single spaces. */
  function Unwords(words: seq<string>): string
  {
    if words == [] then []
    else if |words| == 1 then words[0]
    else words[0] + " " + Unwords(words[1..])
  }

  lemma WordLengthOfWordThen(w: string, rest: string)
    requires IsWord(w)
    requires rest == [] || IsPySpace(rest[0])
    ensures WordLength(w + rest) == |w|
    decreases |w|
  {
    if |w| > 1 {
      assert (w + rest)[1..] == w[1..] + rest;
      WordLengthOfWordThen(w[1..], rest);
    }
  }

  /** A word followed by whitespace or nothing is split off whole. */
  lemma SplitWordThen(w: string, rest: string)
    requires IsWord(w)
    requires rest == [] || IsPySpace(rest[0])
    ensures Split(w + rest) == [w] + Split(rest)
  {
    var s := w + rest;
    WordLengthOfWordThen(w, rest);
    assert s[..|w|] == w && s[|w|..] == rest;
  }

  /** `split()` takes words joined by spaces apart again. */
  lemma {:induction false} SplitUnwords(words: seq<string>)
    requires forall k :: 0 <= k < |words| ==> IsWord(words[k])
    ensures Split(Unwords(words)) == words
  {
    if words != [] {
      var w := words[0];
      var rest := if |words| == 1 then [] else " " + Unwords(words[1..]);
      assert Unwords(words) == w + rest;
      SplitWordThen(w, rest);
      if |words| > 1 {
        SplitUnwords(words[1..]);
        assert rest[1..] == Unwords(words[1..]);
      }
    }
  }

  lemma WordLengthThenSpace(s: string, ch: char)
    requires IsPySpace(ch)
    ensures WordLength(s + [ch]) == WordLength(s)
    decreases |s|
  {
    if s != [] && !IsPySpace(s[0]) {
      assert (s + [ch])[1..] == s[1..] + [ch];
      WordLengthThenSpace(s[1..], ch);
    }
  }

  /** Trailing whitespace, such as a line's newline, adds no word. */
  lemma {:induction false} SplitThenSpace(s: string, ch: char)
    requires IsPySpace(ch)
    ensures Split(s + [ch]) == Split(s)
    decreases |s|
  {
    if s == [] {
      assert Split([ch]) == Split([]);
    } else if IsPySpace(s[0]) {
      assert (s + [ch])[1..] == s[1..] + [ch];
      SplitThenSpace(s[1..], ch);
    } else {
      var n := WordLength(s);
      WordLengthThenSpace(s, ch);
      assert (s + [ch])[..n] == s[..n];
      assert (s + [ch])[n..] == s[n..] + [ch];
      SplitThenSpace(s[n..], ch);
    }
  }
}
