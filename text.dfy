/** The few Python string operations the scripts rely on: `str.strip`,
    `str.split`, `str.join`, `str()` of a non-negative int and `str.zfill`. */
module Text {

  /** The characters for which Python's `str.isspace()` holds, which are the
      ones `str.strip()` removes when it is called without arguments. */
  predicate IsSpace(c: char) {
    var n := c as int;
    (0x09 <= n <= 0x0D) || (0x1C <= n <= 0x20) || n == 0x85 || n == 0xA0 || n == 0x1680
    || (0x2000 <= n <= 0x200A) || n == 0x2028 || n == 0x2029 || n == 0x202F
    || n == 0x205F || n == 0x3000
  }

  /** The character sets the scripts strip: whitespace (`strip()`) and the
      hyphen (`strip("-")`). */
  datatype CharClass = Whitespace | Hyphen

  predicate Drops(cls: CharClass, c: char) {
    match cls
    case Whitespace => IsSpace(c)
    case Hyphen => c == '-'
  }

  predicate AllDropped(s: string, cls: CharClass) {
    forall i :: 0 <= i < |s| ==> Drops(cls, s[i])
  }

  /** Neither end of `s` is a character of class `cls`. */
  predicate IsTrimmed(s: string, cls: CharClass) {
    s == [] || (!Drops(cls, s[0]) && !Drops(cls, s[|s| - 1]))
  }

  function TrimLeft(s: string, cls: CharClass): string
  {
    if s == [] || !Drops(cls, s[0]) then s else TrimLeft(s[1..], cls)
  }

  function TrimRight(s: string, cls: CharClass): string
  {
    if s == [] || !Drops(cls, s[|s| - 1]) then s else TrimRight(s[..|s| - 1], cls)
  }

  /** `TrimLeft` removes a prefix of class `cls` and stops at the first other character. */
  lemma {:induction false} TrimLeftSpec(s: string, cls: CharClass)
    ensures var r := TrimLeft(s, cls);
      |r| <= |s| && r == s[|s| - |r|..] && AllDropped(s[..|s| - |r|], cls)
      && (r == [] || !Drops(cls, r[0]))
  {
    if s != [] && Drops(cls, s[0]) {
      TrimLeftSpec(s[1..], cls);
      var r := TrimLeft(s[1..], cls);
      assert s[..|s| - |r|] == [s[0]] + s[1..][..|s| - 1 - |r|];
    }
  }

  /** `TrimRight` removes a suffix of class `cls` and stops at the last other character. */
  lemma {:induction false} TrimRightSpec(s: string, cls: CharClass)
    ensures var r := TrimRight(s, cls);
      |r| <= |s| && r == s[..|r|] && AllDropped(s[|r|..], cls)
      && (r == [] || !Drops(cls, r[|r| - 1]))
  {
    if s != [] && Drops(cls, s[|s| - 1]) {
      TrimRightSpec(s[..|s| - 1], cls);
      var r := TrimRight(s[..|s| - 1], cls);
      assert s[|r|..] == s[..|s| - 1][|r|..] + [s[|s| - 1]];
    }
  }

  /** Python's `s.strip(chars)`: removes the longest prefix and the longest
      suffix made only of characters of class `cls`. */
  function Trim(s: string, cls: CharClass): string
  {
    TrimRight(TrimLeft(s, cls), cls)
  }

  /** Neither end of a trimmed string is of the trimmed class. */
  lemma TrimIsTrimmed(s: string, cls: CharClass)
    ensures IsTrimmed(Trim(s, cls), cls)
  {
    TrimLeftSpec(s, cls);
    TrimRightSpec(TrimLeft(s, cls), cls);
  }

  /** Python's `s.strip()` with no argument. */
  function Strip(s: string): (r: string)
    ensures IsTrimmed(r, Whitespace)
  {
    TrimIsTrimmed(s, Whitespace);
    Trim(s, Whitespace)
  }

  lemma {:induction false} TrimLeftPast(a: string, t: string, cls: CharClass)
    requires AllDropped(a, cls)
    requires t == [] || !Drops(cls, t[0])
    ensures TrimLeft(a + t, cls) == t
  {
    if a != [] {
      assert (a + t)[1..] == a[1..] + t;
      TrimLeftPast(a[1..], t, cls);
    } else {
      assert a + t == t;
    }
  }

  lemma {:induction false} TrimRightPast(t: string, b: string, cls: CharClass)
    requires AllDropped(b, cls)
    requires t == [] || !Drops(cls, t[|t| - 1])
    ensures TrimRight(t + b, cls) == t
  {
    if b != [] {
      assert (t + b)[..|t + b| - 1] == t + b[..|b| - 1];
      TrimRightPast(t, b[..|b| - 1], cls);
    } else {
      assert t + b == t;
    }
  }

  /** Trimming removes exactly the selected characters around a trimmed core:
      together with `IsTrimmed` this characterises `Trim` completely. */
  lemma TrimExact(a: string, m: string, b: string, cls: CharClass)
    requires AllDropped(a, cls) && AllDropped(b, cls)
    requires IsTrimmed(m, cls)
    ensures Trim(a + m + b, cls) == m
  {
    if m == [] {
      assert a + m + b == (a + b) + [];
      assert AllDropped(a + b, cls) by {
        forall i | 0 <= i < |a + b| ensures Drops(cls, (a + b)[i]) {
          if i >= |a| { assert (a + b)[i] == b[i - |a|]; }
        }
      }
      TrimLeftPast(a + b, [], cls);
    } else {
      assert a + m + b == a + (m + b);
      TrimLeftPast(a, m + b, cls);
      TrimRightPast(m, b, cls);
    }
  }

  /** A string that is already trimmed is left unchanged by `Strip`. */
  lemma StripTrimmed(s: string)
    requires IsTrimmed(s, Whitespace)
    ensures Strip(s) == s
  {
    assert s == [] + s + [];
    TrimExact([], s, [], Whitespace);
  }

  /** Python's `s.split(sep)` for a one-character separator: always at least
      one field, and no field contains the separator. */
  function Split(s: string, sep: char): (r: seq<string>)
    ensures |r| >= 1
    ensures forall i :: 0 <= i < |r| ==> sep !in r[i]
  {
    if s == [] then [[]]
    else
      var rest := Split(s[1..], sep);
      if s[0] == sep then [[]] + rest
      else [[s[0]] + rest[0]] + rest[1..]
  }

  /** Python's `sep.join(xs)`: the result starts with the first field. */
  function Join(xs: seq<string>, sep: char): (r: string)
    ensures |xs| >= 1 ==> xs[0] <= r
  {
    if |xs| == 0 then []
    else if |xs| == 1 then xs[0]
    else xs[0] + [sep] + Join(xs[1..], sep)
  }

  /** Joining the fields of a split gives back the string. */
  lemma {:induction false} JoinSplit(s: string, sep: char)
    ensures Join(Split(s, sep), sep) == s
  {
    if s != [] {
      var rest := Split(s[1..], sep);
      JoinSplit(s[1..], sep);
      if s[0] == sep {
        assert ([[]] + rest)[1..] == rest;
      } else if |rest| > 1 {
        var r := [[s[0]] + rest[0]] + rest[1..];
        assert r[1..] == rest[1..];
      }
    }
  }

  lemma {:induction false} SplitNoSeparator(s: string, sep: char)
    requires sep !in s
    ensures Split(s, sep) == [s]
  {
    if s != [] {
      SplitNoSeparator(s[1..], sep);
      assert [s[0]] + s[1..] == s;
    }
  }

  lemma {:induction false} SplitAfter(a: string, b: string, sep: char)
    requires sep !in a
    ensures Split(a + [sep] + b, sep) == [a] + Split(b, sep)
  {
    if a == [] {
      assert (a + [sep] + b)[1..] == b;
    } else {
      assert (a + [sep] + b)[1..] == a[1..] + [sep] + b;
      SplitAfter(a[1..], b, sep);
      assert [a[0]] + a[1..] == a;
    }
  }

  /** Splitting a join of separator-free fields gives back the fields. */
  lemma {:induction false} SplitJoin(xs: seq<string>, sep: char)
    requires |xs| >= 1
    requires forall i :: 0 <= i < |xs| ==> sep !in xs[i]
    ensures Split(Join(xs, sep), sep) == xs
  {
    if |xs| == 1 {
      SplitNoSeparator(xs[0], sep);
    } else {
      SplitAfter(xs[0], Join(xs[1..], sep), sep);
      SplitJoin(xs[1..], sep);
    }
  }

  /** A string with the separator in it splits into at least two fields. */
  lemma {:induction false} SplitSeparator(s: string, sep: char)
    requires sep in s
    ensures |Split(s, sep)| >= 2
  {
    if s[0] != sep {
      assert sep in s[1..] by {
        var i :| 0 <= i < |s| && s[i] == sep;
        assert s[1..][i - 1] == sep;
      }
      SplitSeparator(s[1..], sep);
    }
  }

  /** Joining all fields is joining all but the last and then appending it. */
  lemma {:induction false} JoinInit(xs: seq<string>, sep: char)
    requires |xs| >= 2
    ensures Join(xs, sep) == Join(xs[..|xs| - 1], sep) + [sep] + xs[|xs| - 1]
  {
    if |xs| > 2 {
      JoinInit(xs[1..], sep);
      assert xs[..|xs| - 1][1..] == xs[1..][..|xs| - 2];
    }
  }

  /** Joining a concatenation of two non-empty lists puts one separator between their joins. */
  lemma {:induction false} JoinAppend(xs: seq<string>, ys: seq<string>, sep: char)
    requires |xs| >= 1 && |ys| >= 1
    ensures Join(xs + ys, sep) == Join(xs, sep) + [sep] + Join(ys, sep)
    decreases |xs|
  {
    if |xs| == 1 {
      assert (xs + ys)[1..] == ys;
    } else {
      assert (xs + ys)[1..] == xs[1..] + ys;
      JoinAppend(xs[1..], ys, sep);
    }
  }

  /** The join of non-empty fields begins with the first field's first
      character and ends with the last field's last one. */
  lemma {:induction false} JoinEnds(xs: seq<string>, sep: char)
    requires |xs| >= 1 && forall i :: 0 <= i < |xs| ==> xs[i] != []
    ensures Join(xs, sep) != []
    ensures Join(xs, sep)[0] == xs[0][0]
    ensures Join(xs, sep)[|Join(xs, sep)| - 1] == xs[|xs| - 1][|xs[|xs| - 1]| - 1]
    decreases |xs|
  {
    if |xs| > 1 {
      assert forall i :: 0 <= i < |xs[1..]| ==> xs[1..][i] == xs[i + 1];
      JoinEnds(xs[1..], sep);
    }
  }

  /** The decimal digit character for 0 <= d <= 9. */
  function DigitChar(d: nat): (c: char)
    requires d < 10
    ensures '0' <= c <= '9'
    ensures (c == '0') <==> d == 0
  {
    ('0' as int + d) as char
  }

  /** Python's `str(n)` for a non-negative int: its decimal digits, most
      significant first, without leading zeros. */
  function DecimalString(n: nat): (r: string)
    ensures |r| >= 1
    ensures forall i :: 0 <= i < |r| ==> '0' <= r[i] <= '9'
    ensures (r[0] == '0') <==> n == 0
    decreases n
  {
    if n < 10 then [DigitChar(n)] else DecimalString(n / 10) + [DigitChar(n % 10)]
  }

  /** The number a string of decimal digits denotes. */
  function DecimalValue(s: string): nat
  {
    if s == [] then 0
    else
      var d := s[|s| - 1] as int - '0' as int;
      DecimalValue(s[..|s| - 1]) * 10 + (if 0 <= d then d else 0)
  }

  /** `str(n)` denotes `n`; hence `str` is injective on non-negative ints. */
  lemma {:induction false} DecimalRoundTrip(n: nat)
    ensures DecimalValue(DecimalString(n)) == n
    decreases n
  {
    if n >= 10 {
      var s := DecimalString(n);
      assert s[..|s| - 1] == DecimalString(n / 10);
      DecimalRoundTrip(n / 10);
    }
  }

  function Zeros(k: nat): (r: string)
    ensures |r| == k
    ensures forall i :: 0 <= i < k ==> r[i] == '0'
  {
    seq(k, _ => '0')
  }

  /** Python's `s.zfill(width)` for a string without a sign: pads on the left
      with '0' up to `width` characters. */
  function ZFill(s: string, width: nat): (r: string)
    ensures |r| == if |s| < width then width else |s|
    ensures r[|r| - |s|..] == s
    ensures forall i :: 0 <= i < |r| - |s| ==> r[i] == '0'
  {
    if |s| < width then Zeros(width - |s|) + s else s
  }

  lemma {:induction false} LeadingZeros(k: nat, s: string)
    ensures DecimalValue(Zeros(k) + s) == DecimalValue(s)
    decreases |s|, k
  {
    if s == [] {
      assert Zeros(k) + s == Zeros(k);
      if k > 0 {
        assert Zeros(k)[..k - 1] == Zeros(k - 1);
        LeadingZeros(k - 1, []);
        assert Zeros(k - 1) + [] == Zeros(k - 1);
      }
    } else {
      assert (Zeros(k) + s)[..|Zeros(k) + s| - 1] == Zeros(k) + s[..|s| - 1];
      LeadingZeros(k, s[..|s| - 1]);
    }
  }

  function Pow10(k: nat): (r: nat)
    ensures r >= 1
  {
    if k == 0 then 1 else 10 * Pow10(k - 1)
  }

  lemma {:induction false} DecimalLength(n: nat, k: nat)
    requires 1 <= k && n < Pow10(k)
    ensures |DecimalString(n)| <= k
    decreases n
  {
    if n >= 10 {
      assert Pow10(1) == 10;
      assert n / 10 < Pow10(k - 1);
      DecimalLength(n / 10, k - 1);
    }
  }

  /** `str(n).zfill(width)` has exactly `width` characters and still denotes
      `n` whenever `n` has at most `width` digits. */
  lemma ZFillDecimal(n: nat, width: nat)
    requires 1 <= width && n < Pow10(width)
    ensures |ZFill(DecimalString(n), width)| == width
    ensures DecimalValue(ZFill(DecimalString(n), width)) == n
  {
    DecimalLength(n, width);
    DecimalRoundTrip(n);
    var s := DecimalString(n);
    if |s| < width {
      LeadingZeros(width - |s|, s);
    }
  }
}
