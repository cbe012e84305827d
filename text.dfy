/** The few string operations the scripts rely on: Python's decimal `str(int)` and
    `int(str)`, `str.capitalize()` on ASCII letters, `str.replace` of one
    character, and the `{:,.2f}` thousands grouping. */
module Text {
  import opened Wrappers

  predicate IsDigit(c: char) { '0' <= c <= '9' }

  predicate AllDigits(s: string) { forall i :: 0 <= i < |s| ==> IsDigit(s[i]) }

  function DigitChar(d: int): (c: char)
    requires 0 <= d < 10
    ensures IsDigit(c)
  {
    ('0' as int + d) as char
  }

  function DigitValue(c: char): int
    requires IsDigit(c)
  {
    c as int - '0' as int
  }

  // ---------------------------------------------------------------------------
  // str(n) and int(s)
  // ---------------------------------------------------------------------------

  /** Python `str(n)` for a non-negative integer: decimal digits, no leading zero. */
  function NatToString(n: nat): (s: string)
    ensures |s| >= 1 && AllDigits(s)
    ensures n >= 10 ==> s[0] != '0'
  {
    if n < 10 then [DigitChar(n)] else NatToString(n / 10) + [DigitChar(n % 10)]
  }

  /** Python `str(n)` for any integer. */
  function IntToString(n: int): string {
    if n < 0 then "-" + NatToString(-n) else NatToString(n)
  }

  function DigitsValue(s: string): nat
    requires AllDigits(s)
  {
    if s == [] then 0 else DigitsValue(s[..|s| - 1]) * 10 + DigitValue(s[|s| - 1])
  }

  /** Python `int(s)` on a plain decimal literal with an optional leading minus;
      None stands for the ValueError raised on anything else. Python also accepts
      surrounding whitespace, a leading '+' and '_' between digits; this model
      rejects those (the strings it is applied to never contain them). */
  function ParseInt(s: string): (r: Option<int>)
    ensures r.Some? && |s| > 0 && s[0] != '-' ==> r.value >= 0
  {
    if |s| > 1 && s[0] == '-' && AllDigits(s[1..]) then Some(-(DigitsValue(s[1..]) as int))
    else if |s| > 0 && AllDigits(s) then Some(DigitsValue(s))
    else None
  }

  lemma {:induction false} DigitsValueOfNat(n: nat)
    ensures DigitsValue(NatToString(n)) == n
  {
    if n >= 10 {
      DigitsValueOfNat(n / 10);
      var s := NatToString(n);
      assert s[..|s| - 1] == NatToString(n / 10);
    }
  }

  /** Round trip: `int(str(n)) == n` for every integer. */
  lemma ParseIntToString(n: int)
    ensures ParseInt(IntToString(n)) == Some(n)
  {
    if n < 0 {
      DigitsValueOfNat(-n);
      assert IntToString(n)[1..] == NatToString(-n);
    } else {
      DigitsValueOfNat(n);
    }
  }

  /** A four-digit year prints as exactly four characters. */
  lemma NatToStringLength4(n: nat)
    requires 1000 <= n <= 9999
    ensures |NatToString(n)| == 4
  {
    var a, b, c := n / 10, n / 10 / 10, n / 10 / 10 / 10;
    assert 100 <= a < 1000 && 10 <= b < 100 && 1 <= c < 10;
    assert |NatToString(c)| == 1;
    assert |NatToString(b)| == |NatToString(c)| + 1;
    assert |NatToString(a)| == |NatToString(b)| + 1;
    assert |NatToString(n)| == |NatToString(a)| + 1;
  }

  /** Two-digit, zero-padded rendering of 0..99 (as in "01".."12"). */
  function TwoDigits(n: int): (s: string)
    requires 0 <= n < 100
    ensures |s| == 2 && AllDigits(s)
  {
    [DigitChar(n / 10), DigitChar(n % 10)]
  }

  lemma TwoDigitsInjective(a: int, b: int)
    requires 0 <= a < 100 && 0 <= b < 100 && TwoDigits(a) == TwoDigits(b)
    ensures a == b
  {
    assert TwoDigits(a)[0] == TwoDigits(b)[0] && TwoDigits(a)[1] == TwoDigits(b)[1];
    assert a / 10 == b / 10 && a % 10 == b % 10;
  }

  // ---------------------------------------------------------------------------
  // str.capitalize() on ASCII text
  // ---------------------------------------------------------------------------

  function Upper(c: char): char {
    if 'a' <= c <= 'z' then (c as int - 32) as char else c
  }

  function Lower(c: char): char {
    if 'A' <= c <= 'Z' then (c as int + 32) as char else c
  }

  /** First character upper-cased, all the others lower-cased. */
  function Capitalize(s: string): (r: string)
    ensures |r| == |s|
    ensures s != [] ==> r[0] == Upper(s[0])
    ensures forall i :: 0 < i < |s| ==> r[i] == Lower(s[i])
  {
    if s == [] then [] else [Upper(s[0])] + seq(|s| - 1, i requires 0 <= i < |s| - 1 => Lower(s[i + 1]))
  }

  predicate SameIgnoringCase(s: string, t: string) {
    |s| == |t| && forall i :: 0 <= i < |s| ==> Lower(s[i]) == Lower(t[i])
  }

  lemma UpperOfLower(c: char, d: char)
    requires Lower(c) == Lower(d)
    ensures Upper(c) == Upper(d)
  {
  }

  /** `capitalize` ignores the case of its input, so "jan", "JAN" and "Jan" all
      become "Jan" ... */
  lemma CapitalizeIgnoresCase(s: string, t: string)
    requires SameIgnoringCase(s, t)
    ensures Capitalize(s) == Capitalize(t)
  {
    if s != [] {
      UpperOfLower(s[0], t[0]);
    }
  }

  /** ... and is idempotent. */
  lemma CapitalizeIdempotent(s: string)
    ensures Capitalize(Capitalize(s)) == Capitalize(s)
  {
  }

  // ---------------------------------------------------------------------------
  // Separator swap: .replace(",", "X").replace(".", ",").replace("X", ".")
  // ---------------------------------------------------------------------------

  /** `s.replace(a, b)` for single characters a and b. */
  function ReplaceChar(s: string, a: char, b: char): (r: string)
    ensures |r| == |s|
    ensures forall i :: 0 <= i < |s| ==> r[i] == (if s[i] == a then b else s[i])
  {
    seq(|s|, i requires 0 <= i < |s| => if s[i] == a then b else s[i])
  }

  /** Turns "1,234.56" (English grouping) into "1.234,56" (Brazilian) through
      the placeholder 'X'. */
  function SwapSeparators(s: string): (r: string)
    ensures |r| == |s|
  {
    ReplaceChar(ReplaceChar(ReplaceChar(s, ',', 'X'), '.', ','), 'X', '.')
  }

  function SwapChar(c: char): char {
    if c == ',' then '.' else if c == '.' then ',' else c
  }

  /** On text without the placeholder, the chain swaps ',' and '.' and leaves every
      other character alone. */
  lemma SwapSeparatorsPointwise(s: string)
    requires 'X' !in s
    ensures forall i :: 0 <= i < |s| ==> SwapSeparators(s)[i] == SwapChar(s[i])
  {
    forall i | 0 <= i < |s| ensures SwapSeparators(s)[i] == SwapChar(s[i]) {
      assert s[i] != 'X';
    }
  }

  /** Applying the swap twice restores placeholder-free text. */
  lemma SwapSeparatorsInvolution(s: string)
    requires 'X' !in s
    ensures SwapSeparators(SwapSeparators(s)) == s
  {
    SwapSeparatorsPointwise(s);
    var t := SwapSeparators(s);
    assert forall i :: 0 <= i < |t| ==> t[i] != 'X';
    SwapSeparatorsPointwise(t);
  }

  /** A placeholder already present in the input is not preserved: it comes out as
      a '.', which is why the chain relies on 'X' being absent. */
  lemma SwapSeparatorsEatsPlaceholder()
    ensures SwapSeparators("1X5") == "1.5"
  {
    assert ReplaceChar("1X5", ',', 'X') == "1X5";
    assert ReplaceChar("1X5", '.', ',') == "1X5";
    assert ReplaceChar("1X5", 'X', '.') == "1.5";
  }

  // ---------------------------------------------------------------------------
  // f"{x:,.2f}" for an amount already rounded to whole cents
  // ---------------------------------------------------------------------------

  /** Inserts a ',' before every group of three digits, counting from the right. */
  function GroupThousands(d: string): (r: string)
    requires AllDigits(d)
    ensures forall i :: 0 <= i < |r| ==> IsDigit(r[i]) || r[i] == ','
    ensures |d| > 0 ==> |r| > 0
    decreases |d|
  {
    if |d| <= 3 then d
    else GroupThousands(d[..|d| - 3]) + [','] + d[|d| - 3..]
  }

  /** A character of `r` is a ',' exactly when a multiple of four characters
      stand from it to the end. */
  predicate CommasEveryFourth(r: string) {
    forall i :: 0 <= i < |r| ==> (r[i] == ',' <==> (|r| - i) % 4 == 0)
  }

  /** The digits stand in groups of three: a character is a ',' exactly when a
      multiple of four characters (three digits and their ',') stand from it to
      the end, so the text never starts with a ',' and every ',' is followed by
      three digits. */
  lemma {:induction false} GroupThousandsGroups(d: string)
    requires AllDigits(d)
    ensures CommasEveryFourth(GroupThousands(d))
    decreases |d|
  {
    if |d| > 3 {
      var h := d[..|d| - 3];
      GroupThousandsGroups(h);
      var g := GroupThousands(h);
      CommaPositionsAppend(g, d[|d| - 3..]);
    }
  }

  /** A ',' and three more digits keep the separators at every fourth place from
      the end. */
  lemma CommaPositionsAppend(g: string, t: string)
    requires CommasEveryFourth(g)
    requires |t| == 3 && AllDigits(t)
    ensures CommasEveryFourth(g + [','] + t)
  {
    var r := g + [','] + t;
    forall i | 0 <= i < |r|
      ensures r[i] == ',' <==> (|r| - i) % 4 == 0
    {
      if i < |g| {
        assert r[i] == g[i];
        assert |r| - i == (|g| - i) + 4;
      } else if i > |g| {
        assert r[i] == t[i - |g| - 1];
        assert 1 <= |r| - i <= 3;
      }
    }
  }

  /** The text with every ',' removed. */
  function RemoveCommas(s: string): (r: string)
    ensures |r| <= |s| && ',' !in r
  {
    if s == [] then [] else (if s[0] == ',' then [] else [s[0]]) + RemoveCommas(s[1..])
  }

  lemma {:induction false} RemoveCommasAppend(a: string, b: string)
    ensures RemoveCommas(a + b) == RemoveCommas(a) + RemoveCommas(b)
  {
    if a == [] {
      assert a + b == b;
    } else {
      var h := if a[0] == ',' then [] else [a[0]];
      assert (a + b)[0] == a[0];
      assert (a + b)[1..] == a[1..] + b;
      RemoveCommasAppend(a[1..], b);
      calc {
        RemoveCommas(a + b);
        h + RemoveCommas(a[1..] + b);
        h + (RemoveCommas(a[1..]) + RemoveCommas(b));
        (h + RemoveCommas(a[1..])) + RemoveCommas(b);
      }
    }
  }

  lemma {:induction false} RemoveCommasOfDigits(d: string)
    requires AllDigits(d)
    ensures RemoveCommas(d) == d
  {
    if d != [] {
      RemoveCommasOfDigits(d[1..]);
      assert [d[0]] + d[1..] == d;
    }
  }

  /** Removing the separators of a group after a ',' keeps the group. */
  lemma RemoveCommasGroup(g: string, t: string)
    requires AllDigits(t)
    ensures RemoveCommas(g + [','] + t) == RemoveCommas(g) + t
  {
    var a := g + [','];
    RemoveCommasAppend(a, t);
    RemoveCommasAppend(g, [',']);
    RemoveCommasOfDigits(t);
    assert [','][1..] == [];
    var c := RemoveCommas([',']);
    assert c == [];
    calc {
      RemoveCommas(a + t);
      RemoveCommas(a) + RemoveCommas(t);
      (RemoveCommas(g) + c) + t;
      { assert RemoveCommas(g) + c == RemoveCommas(g); }
      RemoveCommas(g) + t;
    }
  }

  /** Removing the separators gives the digits back. */
  lemma {:induction false} RemoveCommasGroupThousands(d: string)
    requires AllDigits(d)
    ensures RemoveCommas(GroupThousands(d)) == d
    decreases |d|
  {
    if |d| <= 3 {
      RemoveCommasOfDigits(d);
    } else {
      var h, t := d[..|d| - 3], d[|d| - 3..];
      assert AllDigits(h) && AllDigits(t);
      var g := GroupThousands(h);
      assert GroupThousands(d) == g + [','] + t;
      RemoveCommasGroupThousands(h);
      RemoveCommasGroup(g, t);
      assert h + t == d;
    }
  }

  /** `f"{cents / 100:,.2f}"`: optional sign, grouped integer part, '.', two decimals. */
  function FormatCents(cents: int): (s: string)
    ensures |s| >= 4
    ensures s[|s| - 3] == '.' && IsDigit(s[|s| - 2]) && IsDigit(s[|s| - 1])
    ensures forall i :: 0 <= i < |s| && i != |s| - 3 ==> s[i] != '.'
    ensures 'X' !in s
  {
    var a := if cents < 0 then -cents else cents;
    var sign := if cents < 0 then "-" else "";
    var s := sign + GroupThousands(NatToString(a / 100)) + "." + TwoDigits(a % 100);
    assert forall i :: 0 <= i < |s| ==> s[i] != 'X';
    s
  }

  lemma DigitsValueTwoDigits(n: int)
    requires 0 <= n < 100
    ensures DigitsValue(TwoDigits(n)) == n
  {
    var t := TwoDigits(n);
    assert DigitValue(t[0]) == n / 10 && DigitValue(t[1]) == n % 10;
    assert t[..1][..0] == [];
    assert DigitsValue(t[..1]) == n / 10;
    assert DigitsValue(t) == (n / 10) * 10 + n % 10;
  }

  /** `s` reads as an amount with the given sign, whole units and cents: a
      leading '-' exactly when negative, then the units' digits with their
      separators, '.', and two cent digits. */
  predicate ReadsAs(s: string, negative: bool, units: nat, cents: nat) {
    |s| >= 4 && (s[0] == '-' <==> negative)
    && var k := if negative then 1 else 0;
       k <= |s| - 3
       && AllDigits(RemoveCommas(s[k..|s| - 3])) && DigitsValue(RemoveCommas(s[k..|s| - 3])) == units
       && s[|s| - 3] == '.'
       && AllDigits(s[|s| - 2..]) && DigitsValue(s[|s| - 2..]) == cents
  }

  /** The text reads back as the amount: the sign, `|cents| / 100` whole units
      and `|cents| % 100` cents. */
  lemma FormatCentsValue(cents: int)
    ensures var a := if cents < 0 then -cents else cents;
            ReadsAs(FormatCents(cents), cents < 0, a / 100, a % 100)
  {
    var a := if cents < 0 then -cents else cents;
    var sign := if cents < 0 then "-" else "";
    assert FormatCents(cents) == sign + GroupThousands(NatToString(a / 100)) + "." + TwoDigits(a % 100);
    ReadBack(sign, a / 100, a % 100);
  }

  /** The pieces of `sign + GroupThousands(str(q)) + "." + TwoDigits(m)` come back out. */
  lemma ReadBack(sign: string, q: nat, m: nat)
    requires sign == "" || sign == "-"
    requires m < 100
    ensures ReadsAs(sign + GroupThousands(NatToString(q)) + "." + TwoDigits(m), sign == "-", q, m)
  {
    var n := NatToString(q);
    var g := GroupThousands(n);
    var t := TwoDigits(m);
    var s := sign + g + "." + t;
    ConcatSlices(sign, g, ".", t);
    var k := |sign|;
    assert |s| - 3 == k + |g|;
    assert s[k..|s| - 3] == g;
    assert s[|s| - 3] == '.';
    assert s[|s| - 2..] == t;
    assert g[0] != '-';
    assert s[0] == (if sign == "-" then '-' else g[0]);
    RemoveCommasGroupThousands(n);
    DigitsValueOfNat(q);
    DigitsValueTwoDigits(m);
  }

  /** The Brazilian rendering has exactly one decimal comma, in front of the
      two cent digits, and uses '.' only as a thousands separator. */
  lemma BrazilianFormat(cents: int)
    ensures var b := SwapSeparators(FormatCents(cents));
            |b| >= 4 && b[|b| - 3] == ','
            && (forall i :: 0 <= i < |b| && i != |b| - 3 ==> b[i] != ',')
            && IsDigit(b[|b| - 2]) && IsDigit(b[|b| - 1])
  {
    var s := FormatCents(cents);
    SwapSeparatorsPointwise(s);
    forall i | 0 <= i < |s| && i != |s| - 3
      ensures SwapSeparators(s)[i] != ','
    {
      assert s[i] != '.';
    }
  }

  /** Swapping the separators back gives text that reads as the amount. */
  lemma BrazilianFormatValue(cents: int)
    ensures var a := if cents < 0 then -cents else cents;
            ReadsAs(SwapSeparators(SwapSeparators(FormatCents(cents))), cents < 0, a / 100, a % 100)
  {
    SwapSeparatorsInvolution(FormatCents(cents));
    FormatCentsValue(cents);
  }

  // ---------------------------------------------------------------------------
  // str.split(sep) for a one-character separator
  // ---------------------------------------------------------------------------

  /** `s.split(sep)`: the pieces between the occurrences of `sep`. There is always
      at least one piece, one more than there are separators, and no piece
      contains the separator. */
  function Split(s: string, sep: char): (parts: seq<string>)
    ensures |parts| >= 1
    ensures forall i :: 0 <= i < |parts| ==> sep !in parts[i]
  {
    if s == [] then [[]]
    else
      var rest := Split(s[1..], sep);
      if s[0] == sep then [[]] + rest
      else [[s[0]] + rest[0]] + rest[1..]
  }

  /** `sep.join(parts)`. */
  function Join(parts: seq<string>, sep: char): string
    requires |parts| >= 1
  {
    if |parts| == 1 then parts[0] else parts[0] + [sep] + Join(parts[1..], sep)
  }

  /** Joining the pieces back with the separator gives the original text. */
  lemma {:induction false} JoinSplit(s: string, sep: char)
    ensures Join(Split(s, sep), sep) == s
  {
    if s != [] {
      JoinSplit(s[1..], sep);
      var rest := Split(s[1..], sep);
      if s[0] == sep {
        assert ([[]] + rest)[1..] == rest;
        assert s == [] + [sep] + s[1..];
      } else {
        var ps := [[s[0]] + rest[0]] + rest[1..];
        if |rest| > 1 {
          assert ps[1..] == rest[1..];
          assert Join(rest, sep) == rest[0] + [sep] + Join(rest[1..], sep);
        }
        assert s == [s[0]] + s[1..];
      }
    }
  }

  /** Text without the separator is a single piece. */
  lemma {:induction false} SplitWithoutSeparator(b: string, sep: char)
    requires sep !in b
    ensures Split(b, sep) == [b]
  {
    if b != [] {
      assert b[0] != sep;
      SplitWithoutSeparator(b[1..], sep);
      assert [b[0]] + b[1..] == b;
    }
  }

  /** Text with exactly one separator splits into the parts before and after it. */
  lemma {:induction false} SplitAtOnlySeparator(a: string, b: string, sep: char)
    requires sep !in a && sep !in b
    ensures Split(a + [sep] + b, sep) == [a, b]
  {
    var s := a + [sep] + b;
    if a == [] {
      assert s[1..] == b;
      SplitWithoutSeparator(b, sep);
    } else {
      assert a[0] != sep;
      assert s[1..] == a[1..] + [sep] + b;
      SplitAtOnlySeparator(a[1..], b, sep);
      assert [a[0]] + a[1..] == a;
    }
  }

  /** The middle pieces of a four-part concatenation are found at their offsets. */
  lemma ConcatSlices<T>(a: seq<T>, b: seq<T>, c: seq<T>, d: seq<T>)
    ensures (a + b + c + d)[|a|..|a| + |b|] == b
    ensures (a + b + c + d)[|a| + |b|..|a| + |b| + |c|] == c
  {
    var t := a + b + c + d;
    assert t == a + (b + (c + d));
    assert t[|a|..] == b + (c + d);
    assert t[|a|..][..|b|] == b;
    assert t[|a| + |b|..] == c + d;
    assert t[|a| + |b|..][..|c|] == c;
  }
}
