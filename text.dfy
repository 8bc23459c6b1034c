/**
 * Text encodings used by the compact token form: cutting a string at a
 * separator, decimal integers, and an escaping of arbitrary strings that
 * leaves no separator character in its output.
 *
 * They stand in for the base64url and JSON encodings of the JWT library.
 * What the token layer needs from them is proved here: every decoder undoes
 * its encoder, and every decoder accepts nothing but encoder output.
 */
module Text {
  import opened Wrappers

  // ---------------------------------------------------------------------
  // Splitting and joining at a separator
  // ---------------------------------------------------------------------

  /** The pieces of `s` between the occurrences of `sep`, as Go's strings.Split. */
  function Split(s: string, sep: char): (parts: seq<string>)
    ensures |parts| >= 1
  {
    if s == [] then [[]]
    else
      var rest := Split(s[1..], sep);
      if s[0] == sep then [[]] + rest
      else [[s[0]] + rest[0]] + rest[1..]
  }

  /** The pieces glued back together with `sep` between neighbours. */
  function Join(parts: seq<string>, sep: char): string
    requires |parts| >= 1
  {
    if |parts| == 1 then parts[0] else parts[0] + [sep] + Join(parts[1..], sep)
  }

  /** A string without the separator is a single piece. */
  lemma {:induction false} SplitWithout(s: string, sep: char)
    requires sep !in s
    ensures Split(s, sep) == [s]
  {
    if s != [] {
      assert sep !in s[1..];
      SplitWithout(s[1..], sep);
      assert [s[0]] + s[1..] == s;
    }
  }

  /** Cutting at one occurrence of the separator cuts the two sides apart. */
  lemma {:induction false} SplitAround(a: string, b: string, sep: char)
    ensures Split(a + [sep] + b, sep) == Split(a, sep) + Split(b, sep)
  {
    if a == [] {
      assert a + [sep] + b == [sep] + b;
      assert ([sep] + b)[1..] == b;
    } else {
      assert (a + [sep] + b)[1..] == a[1..] + [sep] + b;
      SplitAround(a[1..], b, sep);
    }
  }

  /** Joining the pieces gives back the string that was split. */
  lemma {:induction false} JoinSplit(s: string, sep: char)
    ensures Join(Split(s, sep), sep) == s
  {
    if s != [] {
      JoinSplit(s[1..], sep);
      var rest := Split(s[1..], sep);
      if s[0] == sep {
        assert ([[]] + rest)[1..] == rest;
      } else {
        var parts := [[s[0]] + rest[0]] + rest[1..];
        assert Split(s, sep) == parts;
        if |rest| > 1 {
          assert parts[1..] == rest[1..];
        }
      }
    }
  }

  /** Three separator-free fields joined by the separator split back into themselves. */
  lemma SplitThree(a: string, b: string, c: string, sep: char)
    requires sep !in a && sep !in b && sep !in c
    ensures Split(a + [sep] + b + [sep] + c, sep) == [a, b, c]
  {
    SplitAround(a + [sep] + b, c, sep);
    SplitAround(a, b, sep);
    SplitWithout(a, sep);
    SplitWithout(b, sep);
    SplitWithout(c, sep);
  }

  /** The same for four fields. */
  lemma SplitFour(a: string, b: string, c: string, d: string, sep: char)
    requires sep !in a && sep !in b && sep !in c && sep !in d
    ensures Split(a + [sep] + b + [sep] + c + [sep] + d, sep) == [a, b, c, d]
  {
    SplitAround(a + [sep] + b + [sep] + c, d, sep);
    SplitThree(a, b, c, sep);
    SplitWithout(d, sep);
  }

  /** Joining three pieces writes the separator twice. */
  lemma JoinThree(p: seq<string>, sep: char)
    requires |p| == 3
    ensures Join(p, sep) == p[0] + [sep] + p[1] + [sep] + p[2]
  {
    assert p[1..][1..] == [p[2]];
    assert Join(p[1..], sep) == p[1] + [sep] + p[2];
    assert p[0] + [sep] + (p[1] + [sep] + p[2]) == p[0] + [sep] + p[1] + [sep] + p[2];
  }

  /** Joining four pieces writes the separator three times. */
  lemma JoinFour(p: seq<string>, sep: char)
    requires |p| == 4
    ensures Join(p, sep) == p[0] + [sep] + p[1] + [sep] + p[2] + [sep] + p[3]
  {
    JoinThree(p[1..], sep);
    var q := p[1..];
    assert p[0] + [sep] + (q[0] + [sep] + q[1] + [sep] + q[2]) == p[0] + [sep] + p[1] + [sep] + p[2] + [sep] + p[3];
  }

  // ---------------------------------------------------------------------
  // Decimal integers
  // ---------------------------------------------------------------------

  predicate IsDigit(c: char) { '0' <= c <= '9' }

  function DigitChar(d: nat): (c: char)
    requires d < 10
    ensures IsDigit(c)
  {
    ('0' as int + d) as char
  }

  function DigitValue(c: char): (d: nat)
    requires IsDigit(c)
    ensures d < 10
  {
    c as int - '0' as int
  }

  predicate AllDigits(s: string) { forall i :: 0 <= i < |s| ==> IsDigit(s[i]) }

  /** The value of a string of decimal digits, most significant first. */
  function DigitsValue(s: string): nat
    requires AllDigits(s)
  {
    if s == [] then 0 else 10 * DigitsValue(s[..|s| - 1]) + DigitValue(s[|s| - 1])
  }

  /** The shortest decimal form of `n`. */
  function NatText(n: nat): string
  {
    if n < 10 then [DigitChar(n)] else NatText(n / 10) + [DigitChar(n % 10)]
  }

  /** Decimal digits with no superfluous leading zero: exactly the strings NatText writes. */
  predicate IsCanonicalNat(s: string)
  {
    s != [] && AllDigits(s) && (s[0] == '0' ==> |s| == 1)
  }

  function ParseNat(s: string): Option<nat>
  {
    if IsCanonicalNat(s) then Some(DigitsValue(s)) else None
  }

  /** Decimal form of an integer, with a leading '-' when it is negative. */
  function IntText(n: int): string
  {
    if n < 0 then "-" + NatText(-n) else NatText(n)
  }

  /** Reads what IntText writes and refuses everything else ("-0", "007", "", "+1"). */
  function ParseInt(s: string): Option<int>
  {
    if s != [] && s[0] == '-' then
      var m := ParseNat(s[1..]);
      if m.Some? && m.value > 0 then Some(-(m.value as int)) else None
    else
      var m := ParseNat(s);
      if m.Some? then Some(m.value) else None
  }

  lemma DigitRoundTrip(d: nat, c: char)
    requires d < 10 && IsDigit(c)
    ensures DigitValue(DigitChar(d)) == d
    ensures DigitChar(DigitValue(c)) == c
  {
  }

  /** What NatText writes is canonical and denotes `n`. */
  lemma {:induction false} NatTextCanonical(n: nat)
    ensures IsCanonicalNat(NatText(n)) && DigitsValue(NatText(n)) == n
  {
    if n < 10 {
      DigitRoundTrip(n, '0');
    } else {
      NatTextCanonical(n / 10);
      var p := NatText(n / 10);
      var s := p + [DigitChar(n % 10)];
      assert s[..|s| - 1] == p;
      DigitRoundTrip(n % 10, '0');
      if |p| == 1 {
        assert p[..0] == [];
      }
    }
  }

  /** A nonempty digit string that does not start with '0' denotes a positive number. */
  lemma {:induction false} LeadingDigitPositive(s: string)
    requires s != [] && AllDigits(s) && s[0] != '0'
    ensures DigitsValue(s) > 0
  {
    if |s| == 1 {
      assert s[..0] == [];
    } else {
      LeadingDigitPositive(s[..|s| - 1]);
    }
  }

  /** A canonical digit string is the text of the number it denotes. */
  lemma {:induction false} CanonicalNatText(s: string)
    requires IsCanonicalNat(s)
    ensures NatText(DigitsValue(s)) == s
  {
    var last := s[|s| - 1];
    DigitRoundTrip(0, last);
    if |s| == 1 {
      assert s[..0] == [];
      assert s == [last];
    } else {
      var p := s[..|s| - 1];
      assert p[0] == s[0];
      CanonicalNatText(p);
      LeadingDigitPositive(p);
      var v, d := DigitsValue(p), DigitValue(last);
      assert (10 * v + d) / 10 == v && (10 * v + d) % 10 == d;
      assert s == p + [last];
    }
  }

  lemma ParseNatText(n: nat)
    ensures ParseNat(NatText(n)) == Some(n)
  {
    NatTextCanonical(n);
  }

  /** ParseInt undoes IntText. */
  lemma ParseIntText(n: int)
    ensures ParseInt(IntText(n)) == Some(n)
  {
    if n < 0 {
      var s := "-" + NatText(-n);
      assert s[1..] == NatText(-n);
      ParseNatText(-n);
    } else {
      NatTextCanonical(n);
    }
  }

  /** ParseInt accepts only what IntText writes. */
  lemma IntTextParsed(s: string, n: int)
    requires ParseInt(s) == Some(n)
    ensures IntText(n) == s
  {
    if s != [] && s[0] == '-' {
      CanonicalNatText(s[1..]);
      assert s == "-" + s[1..];
    } else {
      CanonicalNatText(s);
    }
  }

  /** Decimal text holds no '.' and no ','. */
  lemma IntTextSeparatorFree(n: int)
    ensures '.' !in IntText(n) && ',' !in IntText(n)
  {
    var m: nat := if n < 0 then -n else n;
    NatTextCanonical(m);
    var t := NatText(m);
    assert forall i :: 0 <= i < |t| ==> t[i] != '.' && t[i] != ',' by {
      forall i | 0 <= i < |t| ensures t[i] != '.' && t[i] != ',' {
        assert IsDigit(t[i]);
      }
    }
    if n < 0 {
      assert IntText(n) == "-" + t;
      assert forall i :: 1 <= i < |IntText(n)| ==> IntText(n)[i] == t[i - 1];
    }
  }

  // ---------------------------------------------------------------------
  // Escaping
  // ---------------------------------------------------------------------

  /** The escape of one character: '%', '.' and ',' become "%0", "%1" and "%2". */
  function EscapeChar(c: char): string
  {
    if c == '%' then "%0" else if c == '.' then "%1" else if c == ',' then "%2" else [c]
  }

  function Escape(s: string): string
  {
    if s == [] then [] else EscapeChar(s[0]) + Escape(s[1..])
  }

  /** The character that an escape code after '%' stands for. */
  function EscapedBy(code: char): char
  {
    if code == '0' then '%' else if code == '1' then '.' else ','
  }

  /** Reads what Escape writes and refuses everything else. */
  function Unescape(s: string): Option<string>
    decreases |s|
  {
    if s == [] then Some([])
    else if s[0] == '%' then
      if |s| < 2 || !(s[1] == '0' || s[1] == '1' || s[1] == '2') then None
      else
        var rest := Unescape(s[2..]);
        if rest.Some? then Some([EscapedBy(s[1])] + rest.value) else None
    else if s[0] == '.' || s[0] == ',' then None
    else
      var rest := Unescape(s[1..]);
      if rest.Some? then Some([s[0]] + rest.value) else None
  }

  /** Unescape undoes Escape. */
  lemma {:induction false} UnescapeEscape(s: string)
    ensures Unescape(Escape(s)) == Some(s)
  {
    if s != [] {
      UnescapeEscape(s[1..]);
      var c, e := s[0], Escape(s[1..]);
      assert Escape(s) == EscapeChar(c) + e;
      if c == '%' || c == '.' || c == ',' {
        assert (EscapeChar(c) + e)[2..] == e;
      } else {
        assert ([c] + e)[1..] == e;
      }
      assert s == [s[0]] + s[1..];
    }
  }

  /** Unescape accepts only what Escape writes. */
  lemma {:induction false} EscapeUnescape(s: string, t: string)
    requires Unescape(s) == Some(t)
    ensures Escape(t) == s
    decreases |s|
  {
    if s != [] {
      if s[0] == '%' {
        var rest := Unescape(s[2..]).value;
        EscapeUnescape(s[2..], rest);
        assert t == [EscapedBy(s[1])] + rest;
        assert t[1..] == rest;
        assert s == s[..2] + s[2..];
      } else {
        var rest := Unescape(s[1..]).value;
        EscapeUnescape(s[1..], rest);
        assert t == [s[0]] + rest;
        assert t[1..] == rest;
        assert s == [s[0]] + s[1..];
      }
    }
  }

  /** Escaped text holds no '.' and no ','. */
  lemma {:induction false} EscapeSeparatorFree(s: string)
    ensures '.' !in Escape(s) && ',' !in Escape(s)
  {
    if s != [] {
      EscapeSeparatorFree(s[1..]);
      assert Escape(s) == EscapeChar(s[0]) + Escape(s[1..]);
    }
  }

  /** Escape is one-to-one. */
  lemma EscapeInjective(s: string, t: string)
    requires Escape(s) == Escape(t)
    ensures s == t
  {
    UnescapeEscape(s);
    UnescapeEscape(t);
  }
}
