/** Friend-code display formatting and validation (utils/helpers.ts), and the
    whitespace stripping that validation and the profile form share. */
module FriendCode {
  import opened Types

  /** The class `[a-zA-Z]`. */
  predicate IsAsciiLetter(c: char)
  {
    ('a' <= c <= 'z') || ('A' <= c <= 'Z')
  }

  /** The class `\d`: the ten ASCII decimal digits. */
  predicate IsDigit(c: char)
  {
    '0' <= c <= '9'
  }

  /** The class `\s` of JavaScript regular expressions. */
  predicate IsWhitespace(c: char)
  {
    || c == '\t' || c == '\n' || c == '\U{000B}' || c == '\U{000C}' || c == '\r'
    || c == ' ' || c == '\U{00A0}' || c == '\U{1680}'
    || ('\U{2000}' <= c <= '\U{200A}')
    || c == '\U{2028}' || c == '\U{2029}' || c == '\U{202F}' || c == '\U{205F}'
    || c == '\U{3000}' || c == '\U{FEFF}'
  }

  predicate HasLetter(s: string)
  {
    exists i :: 0 <= i < |s| && IsAsciiLetter(s[i])
  }

  predicate AllDigits(s: string)
  {
    forall i :: 0 <= i < |s| ==> IsDigit(s[i])
  }

  /** `s.replace(/\D/g, '')`: the digits of `s`, in order. */
  function DigitsOf(s: string): (r: string)
    ensures AllDigits(r)
    ensures |r| <= |s|
  {
    if s == [] then []
    else (if IsDigit(s[0]) then [s[0]] else []) + DigitsOf(s[1..])
  }

  /** `s.replace(/\s/g, '')`: `s` without its whitespace, in order. */
  function StripWhitespace(s: string): (r: string)
    ensures forall i :: 0 <= i < |r| ==> !IsWhitespace(r[i])
    ensures |r| <= |s|
  {
    if s == [] then []
    else (if IsWhitespace(s[0]) then [] else [s[0]]) + StripWhitespace(s[1..])
  }

  /** The display form of a friend code: lettered input is left alone;
      otherwise the digits, in three groups of four when there are twelve. */
  function Format(code: string): string
  {
    if HasLetter(code) then code
    else
      var cleaned := DigitsOf(code);
      if |cleaned| == 12 then Grouped(cleaned) else cleaned
  }

  /** `dddd dddd dddd` for a twelve-character `d`. */
  function Grouped(d: string): (r: string)
    requires |d| == 12
    ensures |r| == 14 && r[4] == ' ' && r[9] == ' '
    ensures r[..4] + r[5..9] + r[10..] == d
  {
    var r := d[..4] + " " + d[4..8] + " " + d[8..];
    assert r[..4] == d[..4] && r[5..9] == d[4..8] && r[10..] == d[8..];
    assert d[..4] + d[4..8] + d[8..] == d;
    r
  }

  /** Whether a friend code is accepted: the master code or twelve digits,
      once whitespace is removed. */
  predicate IsValid(code: string)
  {
    var cleaned := StripWhitespace(code);
    cleaned == MASTER_ADMIN_CODE || (|cleaned| == 12 && AllDigits(cleaned))
  }

  lemma {:induction false} DigitsOfConcat(a: string, b: string)
    ensures DigitsOf(a + b) == DigitsOf(a) + DigitsOf(b)
  {
    if a != [] {
      assert (a + b)[1..] == a[1..] + b;
      DigitsOfConcat(a[1..], b);
    } else {
      assert a + b == b;
    }
  }

  /** The digit filter keeps every digit of `s`, as many times as it occurs,
      in its original order, and nothing else. */
  lemma {:induction false} DigitsOfKeepsDigits(s: string)
    ensures forall c :: multiset(DigitsOf(s))[c] == if IsDigit(c) then multiset(s)[c] else 0
    ensures IsSubsequence(DigitsOf(s), s)
  {
    if s != [] {
      DigitsOfKeepsDigits(s[1..]);
      var rest := DigitsOf(s[1..]);
      assert s == [s[0]] + s[1..];
      if IsDigit(s[0]) {
        assert DigitsOf(s) == [s[0]] + rest;
        assert ([s[0]] + rest)[1..] == rest;
      } else {
        assert DigitsOf(s) == rest;
        assert rest != [] ==> IsDigit(rest[0]);
      }
    }
  }

  /** Stripping keeps every character of `s` that is not whitespace, as many
      times as it occurs, in its original order, and nothing else. */
  lemma {:induction false} StripWhitespaceKeepsOthers(s: string)
    ensures forall c :: multiset(StripWhitespace(s))[c] == if IsWhitespace(c) then 0 else multiset(s)[c]
    ensures IsSubsequence(StripWhitespace(s), s)
  {
    if s != [] {
      StripWhitespaceKeepsOthers(s[1..]);
      var rest := StripWhitespace(s[1..]);
      assert s == [s[0]] + s[1..];
      if IsWhitespace(s[0]) {
        assert StripWhitespace(s) == rest;
        assert rest != [] ==> !IsWhitespace(rest[0]);
      } else {
        assert StripWhitespace(s) == [s[0]] + rest;
        assert ([s[0]] + rest)[1..] == rest;
      }
    }
  }

  /** The digit filter is the identity on a string of digits. */
  lemma {:induction false} DigitsOfDigits(d: string)
    requires AllDigits(d)
    ensures DigitsOf(d) == d
  {
    if d != [] {
      DigitsOfDigits(d[1..]);
    }
  }

  lemma {:induction false} StripWhitespaceConcat(a: string, b: string)
    ensures StripWhitespace(a + b) == StripWhitespace(a) + StripWhitespace(b)
  {
    if a != [] {
      assert (a + b)[1..] == a[1..] + b;
      StripWhitespaceConcat(a[1..], b);
    } else {
      assert a + b == b;
    }
  }

  /** Stripping whitespace is the identity on a string of digits. */
  lemma {:induction false} StripWhitespaceDigits(d: string)
    requires AllDigits(d)
    ensures StripWhitespace(d) == d
  {
    if d != [] {
      StripWhitespaceDigits(d[1..]);
    }
  }

  /** A string that has no letter of its own has none after filtering. */
  lemma {:induction false} DigitsHaveNoLetter(d: string)
    requires AllDigits(d)
    ensures !HasLetter(d)
  {
    forall i | 0 <= i < |d| ensures !IsAsciiLetter(d[i]) {
      assert IsDigit(d[i]);
    }
  }

  /** The grouped form of twelve digits keeps exactly those digits. */
  lemma GroupedDigits(d: string)
    requires |d| == 12 && AllDigits(d)
    ensures !HasLetter(Grouped(d))
    ensures DigitsOf(Grouped(d)) == d
    ensures StripWhitespace(Grouped(d)) == d
  {
    GroupedHasNoLetter(d);
    DigitsOfGrouped(d);
    StripGrouped(d);
  }

  lemma GroupedHasNoLetter(d: string)
    requires |d| == 12 && AllDigits(d)
    ensures !HasLetter(Grouped(d))
  {
    var g := Grouped(d);
    assert g == d[..4] + " " + d[4..8] + " " + d[8..];
    forall i | 0 <= i < |g| ensures !IsAsciiLetter(g[i]) {
      if i != 4 && i != 9 {
        assert g[i] in d;
      }
    }
  }

  lemma DigitsOfGrouped(d: string)
    requires |d| == 12 && AllDigits(d)
    ensures DigitsOf(Grouped(d)) == d
  {
    var p, q, t := d[..4], d[4..8], d[8..];
    assert Grouped(d) == (p + " " + q) + " " + t;
    DigitsOfSpaced(p, q);
    DigitsOfSpaced(p + " " + q, t);
    DigitsOfDigits(p);
    assert p + q + t == d;
  }

  /** Two blocks joined by a space: the digit filter drops the space. */
  lemma DigitsOfSpaced(a: string, b: string)
    requires AllDigits(b)
    ensures DigitsOf(a + " " + b) == DigitsOf(a) + b
  {
    var sp := " ";
    assert DigitsOf(sp) == [] by {
      assert !IsDigit(sp[0]) && sp[1..] == [];
    }
    DigitsOfConcat(a, sp);
    assert DigitsOf(a + sp) == DigitsOf(a);
    DigitsOfConcat(a + sp, b);
    DigitsOfDigits(b);
  }

  lemma StripGrouped(d: string)
    requires |d| == 12 && AllDigits(d)
    ensures StripWhitespace(Grouped(d)) == d
  {
    var p, q, t := d[..4], d[4..8], d[8..];
    assert Grouped(d) == (p + " " + q) + " " + t;
    StripSpaced(p, q);
    StripSpaced(p + " " + q, t);
    StripWhitespaceDigits(p);
    assert p + q + t == d;
  }

  /** Two blocks joined by a space: stripping drops the space. */
  lemma StripSpaced(a: string, b: string)
    requires AllDigits(b)
    ensures StripWhitespace(a + " " + b) == StripWhitespace(a) + b
  {
    var sp := " ";
    assert StripWhitespace(sp) == [] by {
      assert IsWhitespace(sp[0]) && sp[1..] == [];
    }
    StripWhitespaceConcat(a, sp);
    assert StripWhitespace(a + sp) == StripWhitespace(a);
    StripWhitespaceConcat(a + sp, b);
    StripWhitespaceDigits(b);
  }

  /** The three cases of the display form: lettered input comes back as it is;
      otherwise the result holds exactly the input's digits, in order, with a
      single space after the fourth and the eighth when there are twelve. */
  lemma FormatCases(code: string)
    ensures HasLetter(code) ==> Format(code) == code
    ensures !HasLetter(code) && |DigitsOf(code)| == 12 ==>
      var r := Format(code);
      |r| == 14 && r[4] == ' ' && r[9] == ' ' && r[..4] + r[5..9] + r[10..] == DigitsOf(code)
    ensures !HasLetter(code) && |DigitsOf(code)| != 12 ==> Format(code) == DigitsOf(code)
  {
  }

  /** Formatting an already formatted code changes nothing. */
  lemma FormatIdempotent(code: string)
    ensures Format(Format(code)) == Format(code)
  {
    if !HasLetter(code) {
      var cleaned := DigitsOf(code);
      if |cleaned| == 12 {
        GroupedDigits(cleaned);
      } else {
        DigitsHaveNoLetter(cleaned);
        DigitsOfDigits(cleaned);
      }
    }
  }

  /** The display form of twelve digits is accepted, and stripping its spaces
      gives the digits back. */
  lemma FormattedCodeValid(d: string)
    requires |d| == 12 && AllDigits(d)
    ensures IsValid(Format(d))
    ensures StripWhitespace(Format(d)) == d
  {
    DigitsHaveNoLetter(d);
    DigitsOfDigits(d);
    GroupedDigits(d);
  }

  /** Stripping whitespace keeps exactly the characters that are not whitespace,
      so when those are all digits it agrees with the digit filter. */
  lemma {:induction false} StripAgreesWithDigits(s: string)
    requires AllDigits(StripWhitespace(s))
    ensures DigitsOf(s) == StripWhitespace(s)
  {
    if s != [] {
      var rest := StripWhitespace(s[1..]);
      if IsWhitespace(s[0]) {
        assert StripWhitespace(s) == rest;
        assert !IsDigit(s[0]);
        StripAgreesWithDigits(s[1..]);
      } else {
        var t := StripWhitespace(s);
        assert t == [s[0]] + rest;
        assert IsDigit(t[0]);
        forall i | 0 <= i < |rest| ensures IsDigit(rest[i]) {
          assert rest[i] == t[i + 1];
        }
        StripAgreesWithDigits(s[1..]);
      }
    }
  }

  /** An accepted code without letters is shown as three groups of four of the
      digits it holds once whitespace is removed. */
  lemma ValidCodeDisplaysGrouped(code: string)
    requires IsValid(code) && !HasLetter(code)
    ensures |StripWhitespace(code)| == 12 && Format(code) == Grouped(StripWhitespace(code))
  {
    var cleaned := StripWhitespace(code);
    if cleaned == MASTER_ADMIN_CODE {
      assert IsAsciiLetter(cleaned[0]);
      StripKeepsLetters(code, 0);
      assert false;
    }
    StripAgreesWithDigits(code);
  }

  /** A letter in the stripped string is a letter of the original. */
  lemma {:induction false} StripKeepsLetters(s: string, i: int)
    requires 0 <= i < |StripWhitespace(s)| && IsAsciiLetter(StripWhitespace(s)[i])
    ensures HasLetter(s)
  {
    if IsWhitespace(s[0]) {
      StripKeepsLetters(s[1..], i);
      var j :| 0 <= j < |s[1..]| && IsAsciiLetter(s[1..][j]);
      assert IsAsciiLetter(s[j + 1]);
    } else if i == 0 {
      assert IsAsciiLetter(s[0]);
    } else {
      StripKeepsLetters(s[1..], i - 1);
      var j :| 0 <= j < |s[1..]| && IsAsciiLetter(s[1..][j]);
      assert IsAsciiLetter(s[j + 1]);
    }
  }
}
