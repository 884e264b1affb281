/** The few pieces of Ruby's String behaviour the modelled code relies on:
    `split` on a one-character separator, `join`, `Integer#to_s`, `String#to_i`,
    `strip`, and case mapping (ASCII only). */
module RubyText {

  // ---------------------------------------------------------------------------
  // split and join
  // ---------------------------------------------------------------------------

  /** Every field between separators, empty ones included: always at least one
      field, and no field holds the separator. */
  function Fields<T(==)>(s: seq<T>, sep: T): (r: seq<seq<T>>)
    ensures |r| >= 1
    ensures forall i :: 0 <= i < |r| ==> sep !in r[i]
    decreases |s|
  {
    if |s| == 0 then [[]]
    else
      var rest := Fields(s[1..], sep);
      if s[0] == sep then [[]] + rest
      else [[s[0]] + rest[0]] + rest[1..]
  }

  /** Ruby's `split` with its default limit throws away trailing empty fields. */
  function DropTrailingEmpty<T>(parts: seq<seq<T>>): (r: seq<seq<T>>)
    ensures |r| <= |parts| && r == parts[..|r|]
    ensures r == [] || r[|r| - 1] != []
    ensures forall i :: |r| <= i < |parts| ==> parts[i] == []
  {
    if |parts| == 0 then []
    else if parts[|parts| - 1] == [] then DropTrailingEmpty(parts[..|parts| - 1])
    else parts
  }

  /** `s.split(sep)` for a one-character separator other than a space. */
  function Split<T(==)>(s: seq<T>, sep: T): seq<seq<T>>
  {
    DropTrailingEmpty(Fields(s, sep))
  }

  /** `parts.join(sep)`. */
  function Join<T>(parts: seq<seq<T>>, sep: T): seq<T>
  {
    if |parts| == 0 then []
    else if |parts| == 1 then parts[0]
    else parts[0] + [sep] + Join(parts[1..], sep)
  }

  /** Joining the fields of a split gives the string back. */
  lemma {:induction false} JoinFields<T>(s: seq<T>, sep: T)
    ensures Join(Fields(s, sep), sep) == s
    decreases |s|
  {
    if |s| > 0 {
      var rest := Fields(s[1..], sep);
      JoinFields(s[1..], sep);
      if s[0] == sep {
        assert Fields(s, sep) == [[]] + rest;
        assert ([[]] + rest)[1..] == rest;
      } else {
        var parts := Fields(s, sep);
        assert parts == [[s[0]] + rest[0]] + rest[1..];
        if |rest| > 1 {
          assert parts[1..] == rest[1..];
          assert Join(rest, sep) == rest[0] + [sep] + Join(rest[1..], sep);
        }
        assert s == [s[0]] + s[1..];
      }
    }
  }

  /** A string without the separator is one field. */
  lemma {:induction false} FieldsWithoutSep<T>(s: seq<T>, sep: T)
    requires sep !in s
    ensures Fields(s, sep) == [s]
    decreases |s|
  {
    if |s| > 0 {
      assert sep !in s[1..] by {
        forall i | 0 <= i < |s[1..]| ensures s[1..][i] != sep { assert s[1..][i] == s[i + 1]; }
      }
      FieldsWithoutSep(s[1..], sep);
      assert s == [s[0]] + s[1..];
    }
  }

  /** A separator-free head is split off as the first field. */
  lemma {:induction false} FieldsAfterHead<T>(a: seq<T>, sep: T, t: seq<T>)
    requires sep !in a
    ensures Fields(a + [sep] + t, sep) == [a] + Fields(t, sep)
    decreases |a|
  {
    var s := a + [sep] + t;
    if |a| == 0 {
      assert s[1..] == t;
    } else {
      assert s[1..] == a[1..] + [sep] + t;
      assert sep !in a[1..] by {
        forall i | 0 <= i < |a[1..]| ensures a[1..][i] != sep { assert a[1..][i] == a[i + 1]; }
      }
      FieldsAfterHead(a[1..], sep, t);
      assert a == [a[0]] + a[1..];
    }
  }

  /** When the string holds the separator, the first field is a strictly
      shorter prefix of it. */
  lemma {:induction false} FirstFieldIsShorterPrefix<T>(s: seq<T>, sep: T)
    requires sep in s
    ensures |Fields(s, sep)| >= 2
    ensures |Fields(s, sep)[0]| < |s| && Fields(s, sep)[0] == s[..|Fields(s, sep)[0]|]
    decreases |s|
  {
    var rest := Fields(s[1..], sep);
    if s[0] != sep {
      assert sep in s[1..] by {
        var i :| 0 <= i < |s| && s[i] == sep;
        assert s[1..][i - 1] == sep;
      }
      FirstFieldIsShorterPrefix(s[1..], sep);
    }
  }

  /** The pair round trip of `[a, b].join(sep).split(sep)`: exact when neither
      part holds the separator and the second part is not empty. */
  lemma SplitJoinedPair<T>(a: seq<T>, b: seq<T>, sep: T)
    requires sep !in a && sep !in b && b != []
    ensures Join([a, b], sep) == a + [sep] + b
    ensures Split(a + [sep] + b, sep) == [a, b]
  {
    FieldsAfterHead(a, sep, b);
    FieldsWithoutSep(b, sep);
    assert Fields(a + [sep] + b, sep) == [a, b];
  }

  /** A separator inside the first part: the first field read back is not it. */
  lemma SplitMisreadsFirst<T>(a: seq<T>, b: seq<T>, sep: T)
    requires sep in a
    ensures var parts := Split(a + [sep] + b, sep); parts == [] || parts[0] != a
  {
    var s := a + [sep] + b;
    assert sep in s by { var i :| 0 <= i < |a| && a[i] == sep; assert s[i] == sep; }
    FirstFieldIsShorterPrefix(s, sep);
  }

  /** A separator inside the second part (the first part being clean): the
      second field read back is not it, or there is no second field at all. */
  lemma SplitMisreadsSecond<T>(a: seq<T>, b: seq<T>, sep: T)
    requires sep !in a && sep in b
    ensures var parts := Split(a + [sep] + b, sep); |parts| < 2 || parts[1] != b
  {
    FieldsAfterHead(a, sep, b);
    FirstFieldIsShorterPrefix(b, sep);
  }

  // ---------------------------------------------------------------------------
  // Integer#to_s and String#to_i (base 10)
  // ---------------------------------------------------------------------------

  predicate IsDigit(c: char) { '0' <= c <= '9' }

  function DigitValue(c: char): (d: nat)
    requires IsDigit(c)
    ensures d < 10
  {
    c as int - '0' as int
  }

  function DigitChar(d: nat): (c: char)
    requires d < 10
    ensures IsDigit(c) && DigitValue(c) == d
  {
    (d + '0' as int) as char
  }

  /** Decimal digits of a natural number, without leading zeros. */
  function Digits(n: nat): (r: string)
    ensures 1 <= |r| && forall i :: 0 <= i < |r| ==> IsDigit(r[i])
  {
    if n < 10 then [DigitChar(n)] else Digits(n / 10) + [DigitChar(n % 10)]
  }

  /** `Integer#to_s`. */
  function IntToS(n: int): string
  {
    if n < 0 then "-" + Digits(-n) else Digits(n)
  }

  /** Value of a run of decimal digits. */
  function DigitsValue(ds: string): nat
    requires forall i :: 0 <= i < |ds| ==> IsDigit(ds[i])
  {
    if |ds| == 0 then 0
    else DigitsValue(ds[..|ds| - 1]) * 10 + DigitValue(ds[|ds| - 1])
  }

  /** The digits `to_i` consumes from the front of `s`: a digit, then digits,
      where a single `_` between two digits is skipped. */
  function LeadingDigits(s: string): (r: string)
    ensures |r| <= |s|
    ensures forall i :: 0 <= i < |r| ==> IsDigit(r[i])
  {
    if |s| == 0 || !IsDigit(s[0]) then []
    else if |s| >= 3 && s[1] == '_' && IsDigit(s[2]) then [s[0]] + LeadingDigits(s[2..])
    else [s[0]] + LeadingDigits(s[1..])
  }

  /** The whitespace `to_i` skips at the front. */
  predicate IsSpace(c: char)
  {
    c == ' ' || c == '\t' || c == '\n' || c == '\U{000B}' || c == '\U{000C}' || c == '\r'
  }

  function SkipSpace(s: string): (r: string)
    ensures |r| <= |s|
    ensures r == [] || !IsSpace(r[0])
  {
    if |s| > 0 && IsSpace(s[0]) then SkipSpace(s[1..]) else s
  }

  /** The base-10 prefix `0d` (or `0D`) that `to_i` skips after the sign. */
  predicate HasDecimalPrefix(t: string)
  {
    |t| >= 2 && t[0] == '0' && (t[1] == 'd' || t[1] == 'D')
  }

  /** What `to_i` reads digits from once the sign is taken: the text without
      its `0d` prefix. */
  function DecimalBody(t: string): (r: string)
    ensures HasDecimalPrefix(t) ==> r == t[2..]
    ensures !HasDecimalPrefix(t) ==> r == t
  {
    if HasDecimalPrefix(t) then t[2..] else t
  }

  /** `String#to_i`: leading whitespace, an optional sign, an optional `0d`
      prefix, then digits; anything that does not parse reads as 0. */
  function ToI(s: string): int
  {
    var t := SkipSpace(s);
    if |t| > 0 && t[0] == '-' then -(DigitsValue(LeadingDigits(DecimalBody(t[1..]))) as int)
    else if |t| > 0 && t[0] == '+' then DigitsValue(LeadingDigits(DecimalBody(t[1..])))
    else DigitsValue(LeadingDigits(DecimalBody(t)))
  }

  function Pow10(k: nat): (r: nat)
    ensures r >= 1
  {
    if k == 0 then 1 else 10 * Pow10(k - 1)
  }

  lemma {:induction false} DigitsValueBound(ds: string)
    requires forall i :: 0 <= i < |ds| ==> IsDigit(ds[i])
    ensures DigitsValue(ds) < Pow10(|ds|)
  {
    if |ds| > 0 {
      DigitsValueBound(ds[..|ds| - 1]);
    }
  }

  /** A field of at most two characters reads as a number below 100 (and above
      -10), whatever it holds. */
  lemma ToIOfTwoChars(s: string)
    requires |s| <= 2
    ensures -10 < ToI(s) < 100
  {
    var t := SkipSpace(s);
    if |t| > 0 && (t[0] == '-' || t[0] == '+') {
      DigitsValueBound(LeadingDigits(t[1..]));
      assert Pow10(|LeadingDigits(t[1..])|) <= 10;
    } else {
      DigitsValueBound(LeadingDigits(t));
      assert Pow10(|LeadingDigits(t)|) <= 100;
    }
  }

  lemma {:induction false} LeadingDigitsOfDigits(s: string)
    requires forall i :: 0 <= i < |s| ==> IsDigit(s[i])
    ensures LeadingDigits(s) == s
  {
    if |s| > 0 {
      LeadingDigitsOfDigits(s[1..]);
      assert s == [s[0]] + s[1..];
    }
  }

  lemma {:induction false} DigitsValueOfDigits(n: nat)
    ensures DigitsValue(Digits(n)) == n
  {
    if n >= 10 {
      DigitsValueOfDigits(n / 10);
      var ds := Digits(n);
      assert ds[..|ds| - 1] == Digits(n / 10);
    }
  }

  /** Text that does not start with whitespace has none to skip. */
  lemma SkipNoSpace(s: string)
    requires |s| > 0 && !IsSpace(s[0])
    ensures SkipSpace(s) == s
  {
  }

  /** A run of digits reads back as its value. */
  lemma ToIOfDigitRun(ds: string)
    requires |ds| >= 1 && forall i :: 0 <= i < |ds| ==> IsDigit(ds[i])
    ensures ToI(ds) == DigitsValue(ds)
  {
    assert IsDigit(ds[0]);
    assert !HasDecimalPrefix(ds) by { assert |ds| >= 2 ==> IsDigit(ds[1]); }
    SkipNoSpace(ds);
    LeadingDigitsOfDigits(ds);
  }

  /** Two characters starting with a digit: `to_i` reads both when the
      second is a digit too, and the first alone otherwise. */
  lemma ToIOfDigitPair(c0: char, c1: char)
    requires IsDigit(c0)
    ensures IsDigit(c1) ==> ToI([c0, c1]) == 10 * DigitValue(c0) + DigitValue(c1)
    ensures !IsDigit(c1) ==> ToI([c0, c1]) == DigitValue(c0)
  {
    var t := [c0, c1];
    SkipNoSpace(t);
    assert t[1..] == [c1];
    assert [c1][1..] == [];
    assert t[..1] == [c0] && [c0][..0] == [];
    assert DigitsValue([c0]) == DigitValue(c0);
    if IsDigit(c1) {
      assert LeadingDigits(t) == t;
      assert DigitsValue(t) == DigitsValue([c0]) * 10 + DigitValue(c1);
    } else {
      assert LeadingDigits(t) == [c0];
    }
  }

  /** A run of digits behind a minus sign reads back as its value negated. */
  lemma ToIOfNegatedRun(ds: string)
    requires |ds| >= 1 && forall i :: 0 <= i < |ds| ==> IsDigit(ds[i])
    ensures ToI("-" + ds) == -(DigitsValue(ds) as int)
  {
    var neg := "-" + ds;
    SkipNoSpace(neg);
    assert neg[1..] == ds;
    assert !HasDecimalPrefix(ds) by { assert |ds| >= 2 ==> IsDigit(ds[1]); }
    LeadingDigitsOfDigits(ds);
  }

  /** The base-10 prefix is skipped, behind a sign or not: `"0d12".to_i`
      is 12 and `"-0D7".to_i` is -7. */
  lemma ToIOfDecimalPrefix(ds: string)
    requires |ds| >= 1 && forall i :: 0 <= i < |ds| ==> IsDigit(ds[i])
    ensures ToI("0d" + ds) == DigitsValue(ds)
    ensures ToI("-0D" + ds) == -(DigitsValue(ds) as int)
  {
    PositivePrefix(ds);
    NegativePrefix(ds);
  }

  /** `"0d" + ds` reads as the digits `ds`. */
  lemma PositivePrefix(ds: string)
    requires |ds| >= 1 && forall i :: 0 <= i < |ds| ==> IsDigit(ds[i])
    ensures ToI("0d" + ds) == DigitsValue(ds)
  {
    var pos := "0d" + ds;
    assert pos[0] == '0';
    UnsignedToI(pos);
    PrefixedBody("0d", ds);
    LeadingDigitsOfDigits(ds);
  }

  /** `"-0D" + ds` reads as the digits `ds`, negated. */
  lemma NegativePrefix(ds: string)
    requires |ds| >= 1 && forall i :: 0 <= i < |ds| ==> IsDigit(ds[i])
    ensures ToI("-0D" + ds) == -(DigitsValue(ds) as int)
  {
    var neg := "-0D" + ds;
    assert neg[0] == '-' && neg[1..] == "0D" + ds;
    NegativeToI(neg);
    PrefixedBody("0D", ds);
    LeadingDigitsOfDigits(ds);
  }

  /** `to_i` of a text that starts with neither whitespace nor a sign. */
  lemma UnsignedToI(t: string)
    requires |t| > 0 && !IsSpace(t[0]) && t[0] != '-' && t[0] != '+'
    ensures ToI(t) == DigitsValue(LeadingDigits(DecimalBody(t)))
  {
    SkipNoSpace(t);
  }

  /** `to_i` of a text that starts with a minus sign. */
  lemma NegativeToI(t: string)
    requires |t| > 0 && t[0] == '-'
    ensures ToI(t) == -(DigitsValue(LeadingDigits(DecimalBody(t[1..]))) as int)
  {
    SkipNoSpace(t);
  }

  /** Behind its `0d` prefix, a text's body is what follows the prefix. */
  lemma PrefixedBody(prefix: string, ds: string)
    requires prefix == "0d" || prefix == "0D"
    ensures SkipSpace(prefix + ds) == prefix + ds
    ensures DecimalBody(prefix + ds) == ds
  {
    var t := prefix + ds;
    assert t[0] == '0' && t[1] == prefix[1];
    SkipNoSpace(t);
    assert t[2..] == ds;
  }

  /** The decimal text of `m` reads back as `m`, and with a minus sign as
      `-m`. */
  lemma ToIOfDigits(m: nat)
    ensures ToI(Digits(m)) == m
    ensures ToI("-" + Digits(m)) == -(m as int)
  {
    ToIOfDigitRun(Digits(m));
    ToIOfNegatedRun(Digits(m));
    DigitsValueOfDigits(m);
  }

  /** `n.to_s.to_i == n` for every integer. */
  lemma IntToSRoundTrip(n: int)
    ensures ToI(IntToS(n)) == n
  {
    var m: nat := if n < 0 then -n else n;
    ToIOfDigits(m);
    var s := IntToS(n);
    if n < 0 {
      assert s == "-" + Digits(m);
    } else {
      assert s == Digits(m);
    }
  }

  /** A number of two decimal digits prints as exactly two characters. */
  lemma TwoDigitText(n: int)
    requires 10 <= n <= 99
    ensures |IntToS(n)| == 2
  {
    assert Digits(n) == Digits(n / 10) + [DigitChar(n % 10)];
  }

  /** A natural number prints without sign: its length grows with its size. */
  lemma {:induction false} DigitsLength(n: nat)
    ensures n < 10 <==> |Digits(n)| == 1
    ensures n >= 100 ==> |Digits(n)| >= 3
  {
    if n >= 10 {
      DigitsLength(n / 10);
    }
  }

  // ---------------------------------------------------------------------------
  // strip
  // ---------------------------------------------------------------------------

  /** Characters `strip` removes at either end: NUL and ASCII whitespace. */
  predicate IsStripped(c: char)
  {
    c == '\0' || IsSpace(c)
  }

  /** How many stripped characters `s` starts with. */
  function LeadCut(s: string): (k: nat)
    ensures k <= |s|
  {
    if |s| > 0 && IsStripped(s[0]) then 1 + LeadCut(s[1..]) else 0
  }

  /** The leading run `LeadCut` counts is all stripped, and it is the whole
      run: the character after it is not stripped. */
  lemma {:induction false} LeadCutSpec(s: string)
    ensures forall i :: 0 <= i < LeadCut(s) ==> IsStripped(s[i])
    ensures LeadCut(s) == |s| || !IsStripped(s[LeadCut(s)])
  {
    if |s| > 0 && IsStripped(s[0]) {
      var t := s[1..];
      LeadCutSpec(t);
      assert LeadCut(s) == 1 + LeadCut(t);
      forall i | 1 <= i < LeadCut(s) ensures IsStripped(s[i]) {
        assert s[i] == t[i - 1];
      }
      if LeadCut(s) < |s| {
        assert s[LeadCut(s)] == t[LeadCut(t)];
      }
    }
  }

  /** How many characters of `s` come before its trailing stripped run. */
  function TailKeep(s: string): (n: nat)
    ensures n <= |s|
  {
    if |s| > 0 && IsStripped(s[|s| - 1]) then TailKeep(s[..|s| - 1]) else |s|
  }

  /** Everything after the first `TailKeep` characters is stripped, and the
      last character kept is not. */
  lemma {:induction false} TailKeepSpec(s: string)
    ensures forall i :: TailKeep(s) <= i < |s| ==> IsStripped(s[i])
    ensures TailKeep(s) == 0 || !IsStripped(s[TailKeep(s) - 1])
  {
    if |s| > 0 && IsStripped(s[|s| - 1]) {
      var t := s[..|s| - 1];
      TailKeepSpec(t);
      assert TailKeep(s) == TailKeep(t);
      forall i | TailKeep(s) <= i < |s| - 1 ensures IsStripped(s[i]) {
        assert s[i] == t[i];
      }
      if TailKeep(s) > 0 {
        assert s[TailKeep(s) - 1] == t[TailKeep(t) - 1];
      }
    }
  }

  /** `lstrip`. */
  function LStrip(s: string): string
  {
    s[LeadCut(s)..]
  }

  /** `rstrip`. */
  function RStrip(s: string): string
  {
    s[..TailKeep(s)]
  }

  /** `String#strip`. */
  function Strip(s: string): string
  {
    RStrip(LStrip(s))
  }

  /** `strip` keeps a contiguous piece of `s` and removes only stripped
      characters, the ones before it and the ones after it. */
  lemma StripSpec(s: string)
    ensures var r, k := Strip(s), LeadCut(s);
      k + |r| <= |s| && s[k..k + |r|] == r
    ensures forall i :: 0 <= i < LeadCut(s) ==> IsStripped(s[i])
    ensures forall i :: LeadCut(s) + |Strip(s)| <= i < |s| ==> IsStripped(s[i])
  {
    LeadCutSpec(s);
    TrailingCut(s, LeadCut(s));
  }

  /** What `rstrip` cuts from a suffix of `s` is stripped in `s`. */
  lemma TrailingCut(s: string, k: nat)
    requires k <= |s|
    ensures forall i :: k + TailKeep(s[k..]) <= i < |s| ==> IsStripped(s[i])
  {
    var l := s[k..];
    TailKeepSpec(l);
    forall i | k + TailKeep(l) <= i < |s| ensures IsStripped(s[i]) {
      assert s[i] == l[i - k];
    }
  }

  /** `strip` leaves no stripped character at either end. */
  lemma StripEnds(s: string)
    ensures var r := Strip(s); r == [] || (!IsStripped(r[0]) && !IsStripped(r[|r| - 1]))
  {
    var k := LeadCut(s);
    var l := s[k..];
    var n := TailKeep(l);
    LeadCutSpec(s);
    TailKeepSpec(l);
    if n > 0 {
      assert Strip(s)[0] == s[k];
      assert Strip(s)[n - 1] == l[n - 1];
    }
  }

  // ---------------------------------------------------------------------------
  // case mapping (ASCII letters only)
  // ---------------------------------------------------------------------------

  predicate IsUpper(c: char) { 'A' <= c <= 'Z' }
  predicate IsLower(c: char) { 'a' <= c <= 'z' }

  function DowncaseChar(c: char): (d: char)
    ensures !IsUpper(d)
    ensures IsUpper(c) ==> IsLower(d) && d as int == c as int + 32
    ensures !IsUpper(c) ==> d == c
  {
    if IsUpper(c) then (c as int + 32) as char else c
  }

  function UpcaseChar(c: char): (u: char)
    ensures !IsLower(u)
    ensures IsLower(c) ==> IsUpper(u) && u as int == c as int - 32
    ensures !IsLower(c) ==> u == c
  {
    if IsLower(c) then (c as int - 32) as char else c
  }

  /** `String#downcase`. */
  function Downcase(s: string): (r: string)
    ensures |r| == |s| && forall i :: 0 <= i < |s| ==> r[i] == DowncaseChar(s[i])
  {
    seq(|s|, i requires 0 <= i < |s| => DowncaseChar(s[i]))
  }

  /** `String#capitalize`: the first character upper-case, the rest lower-case. */
  function Capitalize(s: string): (r: string)
    ensures |r| == |s|
    ensures |s| > 0 ==> r[0] == UpcaseChar(s[0]) && r[1..] == Downcase(s[1..])
  {
    if |s| == 0 then [] else [UpcaseChar(s[0])] + Downcase(s[1..])
  }
}
