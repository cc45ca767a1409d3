/** Values shared by the other modules: the Option type that stands for SQL
    NULL, Python None and a missing JavaScript property, and the character
    helpers behind the form checks and the text formatters. */
module Common {

  datatype Option<+T> = None | Some(value: T)

  /** Whitespace as Python's str.strip() and JavaScript's String.prototype.trim()
      remove it, restricted to the ASCII whitespace characters. */
  predicate IsSpace(c: char) {
    c == ' ' || c == '\t' || c == '\n' || c == '\r' || c == '\U{B}' || c == '\U{C}'
  }

  /** A string that is empty once its whitespace is stripped. */
  predicate IsBlank(s: string) {
    forall i | 0 <= i < |s| :: IsSpace(s[i])
  }

  /** Drops the leading whitespace: the result is the suffix of `s` that
      follows its longest all-whitespace prefix. */
  function TrimStart(s: string): (r: string)
    ensures |r| <= |s| && r == s[|s| - |r|..]
    ensures IsBlank(s[..|s| - |r|])
    ensures r == [] || !IsSpace(r[0])
  {
    if s != [] && IsSpace(s[0]) then
      var r := TrimStart(s[1..]);
      var pre := s[..|s| - |r|];
      assert IsBlank(pre) by {
        forall j | 0 <= j < |pre| ensures IsSpace(pre[j]) {
          if j > 0 {
            assert pre[j] == s[1..][..|s[1..]| - |r|][j - 1];
          }
        }
      }
      r
    else s
  }

  /** Drops the trailing whitespace: the result is the prefix of `s` that
      precedes its longest all-whitespace suffix. */
  function TrimEnd(s: string): (r: string)
    ensures |r| <= |s| && r == s[..|r|]
    ensures IsBlank(s[|r|..])
    ensures r == [] || !IsSpace(r[|r| - 1])
  {
    if s != [] && IsSpace(s[|s| - 1]) then
      var r := TrimEnd(s[..|s| - 1]);
      assert IsBlank(s[|r|..]) by {
        forall j | 0 <= j < |s| - |r| ensures IsSpace(s[|r|..][j]) {
          if j < |s| - 1 - |r| {
            assert s[|r|..][j] == s[..|s| - 1][|r|..][j];
          }
        }
      }
      r
    else s
  }

  /** Python's strip() / JavaScript's trim() on ASCII whitespace. */
  function Trim(s: string): string {
    TrimEnd(TrimStart(s))
  }

  /** A string trims to nothing exactly when every character is whitespace. */
  lemma TrimEmptyIffBlank(s: string)
    ensures Trim(s) == [] <==> IsBlank(s)
  {
    var t := TrimStart(s);
    if Trim(s) == [] {
      assert IsBlank(t) by { assert t[0..] == t; }
      assert t == [];
      forall i | 0 <= i < |s| ensures IsSpace(s[i]) {
        assert s[i] == s[..|s| - |t|][i];
      }
    }
  }

  /** A trimmed string that is not empty starts and ends with a non-space. */
  lemma TrimmedHasNoOuterSpace(s: string)
    requires Trim(s) != []
    ensures !IsSpace(Trim(s)[0]) && !IsSpace(Trim(s)[|Trim(s)| - 1])
  {
    var t := TrimStart(s);
    var r := Trim(s);
    assert r == t[..|r|];
    assert r[0] == t[0];
  }

  predicate IsDigit(c: char) {
    '0' <= c <= '9'
  }

  /** A non-empty run of ASCII decimal digits. */
  predicate IsDigits(s: string) {
    |s| > 0 && forall i | 0 <= i < |s| :: IsDigit(s[i])
  }

  function DigitValue(c: char): (d: nat)
    requires IsDigit(c)
    ensures d < 10
  {
    c as int - '0' as int
  }

  function DigitChar(d: nat): (c: char)
    requires d < 10
    ensures IsDigit(c) && DigitValue(c) == d
  {
    ('0' as int + d) as char
  }

  /** The value of a run of decimal digits, most significant first (Python int()). */
  function DigitsValue(s: string): nat
    requires IsDigits(s)
    decreases |s|
  {
    if |s| == 1 then DigitValue(s[0])
    else 10 * DigitsValue(s[..|s| - 1]) + DigitValue(s[|s| - 1])
  }

  /** The decimal text of a natural number, as Python str() and JavaScript
      template literals print it. */
  function NatToString(n: nat): (s: string)
    ensures IsDigits(s)
    ensures |s| == 1 || s[0] != '0'
    decreases n
  {
    if n < 10 then [DigitChar(n)] else NatToString(n / 10) + [DigitChar(n % 10)]
  }

  /** Reading back the printed number gives the number. */
  lemma {:induction false} NatToStringRoundTrip(n: nat)
    ensures DigitsValue(NatToString(n)) == n
    decreases n
  {
    if n >= 10 {
      var s := NatToString(n);
      NatToStringRoundTrip(n / 10);
      assert s[..|s| - 1] == NatToString(n / 10);
    }
  }
}
