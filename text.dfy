/**
 * The three Java string primitives the codecs are built from:
 * `String.split` with a one-character separator, `Integer.toString`
 * and `Integer.parseInt`.
 */
module JavaText {
  import opened Wrappers

  const IntMin: int := -0x8000_0000
  const IntMax: int := 0x7FFF_FFFF

  /** A value a Java `int` can hold. */
  predicate IsInt32(n: int) {
    IntMin <= n <= IntMax
  }

  // ---------------------------------------------------------------- split

  /** Every piece between occurrences of `c`, empty pieces included:
      "a,,b" gives ["a", "", "b"] and "" gives [""]. */
  function Pieces(s: string, c: char): (r: seq<string>)
    ensures |r| >= 1
  {
    if |s| == 0 then [""]
    else
      var rest := Pieces(s[1..], c);
      if s[0] == c then [""] + rest
      else [[s[0]] + rest[0]] + rest[1..]
  }

  /** Drops the empty strings at the end of `ps`. */
  function DropTrailingEmpty(ps: seq<string>): (r: seq<string>)
    ensures |r| <= |ps| && r == ps[..|r|]
    ensures |r| > 0 ==> r[|r| - 1] != ""
    ensures forall i :: |r| <= i < |ps| ==> ps[i] == ""
  {
    if |ps| == 0 then []
    else if ps[|ps| - 1] == "" then DropTrailingEmpty(ps[..|ps| - 1])
    else ps
  }

  /** Java's `s.split(String.valueOf(c))` for a separator that is not a
      regular-expression metacharacter: when `c` does not occur the result is
      `[s]` (so "" splits to [""]); otherwise the pieces with every trailing
      empty piece removed (so "," splits to []). */
  function Split(s: string, c: char): seq<string>
  {
    if c !in s then [s] else DropTrailingEmpty(Pieces(s, c))
  }

  /** The fields joined with `c` between them. */
  function Join(fs: seq<string>, c: char): string
    requires |fs| >= 1
  {
    if |fs| == 1 then fs[0] else fs[0] + [c] + Join(fs[1..], c)
  }

  /** No field contains the separator. */
  predicate SeparatorFree(fs: seq<string>, c: char) {
    forall i :: 0 <= i < |fs| ==> c !in fs[i]
  }

  lemma {:induction false} PiecesOfFree(s: string, c: char)
    requires c !in s
    ensures Pieces(s, c) == [s]
  {
    if |s| > 0 {
      assert c !in s[1..];
      PiecesOfFree(s[1..], c);
      assert [s[0]] + s[1..] == s;
    }
  }

  lemma {:induction false} PiecesAfterField(a: string, c: char, b: string)
    requires c !in a
    ensures Pieces(a + [c] + b, c) == [a] + Pieces(b, c)
  {
    if |a| == 0 {
      assert a + [c] + b == [c] + b;
      assert ([c] + b)[1..] == b;
    } else {
      var s := a + [c] + b;
      assert s[0] == a[0] && s[1..] == a[1..] + [c] + b;
      assert c !in a[1..];
      PiecesAfterField(a[1..], c, b);
      assert [a[0]] + a[1..] == a;
    }
  }

  /** Splitting what `Join` produced gives the fields back. */
  lemma {:induction false} PiecesOfJoin(fs: seq<string>, c: char)
    requires |fs| >= 1 && SeparatorFree(fs, c)
    ensures Pieces(Join(fs, c), c) == fs
  {
    if |fs| == 1 {
      PiecesOfFree(fs[0], c);
    } else {
      assert c !in fs[0];
      PiecesAfterField(fs[0], c, Join(fs[1..], c));
      PiecesOfJoin(fs[1..], c);
      assert [fs[0]] + fs[1..] == fs;
    }
  }

  lemma {:induction false} SeparatorInJoin(fs: seq<string>, c: char)
    requires |fs| >= 2
    ensures c in Join(fs, c)
  {
    var j := Join(fs, c);
    assert j == fs[0] + [c] + Join(fs[1..], c);
    assert j[|fs[0]|] == c;
  }

  /** `Split` of two or more separator-free fields: the fields, minus the
      empty ones at the end (Java's trailing-empty rule). */
  lemma SplitJoin(fs: seq<string>, c: char)
    requires |fs| >= 2 && SeparatorFree(fs, c)
    ensures Split(Join(fs, c), c) == DropTrailingEmpty(fs)
  {
    SeparatorInJoin(fs, c);
    PiecesOfJoin(fs, c);
  }

  // ------------------------------------------------------- integer text

  function DigitChar(d: nat): char
    requires d < 10
  {
    "0123456789"[d]
  }

  predicate IsDigit(ch: char) {
    '0' <= ch <= '9'
  }

  function DigitValue(ch: char): nat
    requires IsDigit(ch)
  {
    (ch - '0') as nat
  }

  predicate AllDigits(s: string) {
    forall i :: 0 <= i < |s| ==> IsDigit(s[i])
  }

  /** Decimal digits of `n`, most significant first, no leading zeros. */
  function NatToString(n: nat): (r: string)
    ensures |r| >= 1 && AllDigits(r)
  {
    if n < 10 then [DigitChar(n)] else NatToString(n / 10) + [DigitChar(n % 10)]
  }

  /** The number a string of decimal digits denotes. */
  function DigitsValue(s: string): nat
    requires AllDigits(s)
  {
    if |s| == 0 then 0 else DigitsValue(s[..|s| - 1]) * 10 + DigitValue(s[|s| - 1])
  }

  lemma {:induction false} DigitsValueOfNat(n: nat)
    ensures DigitsValue(NatToString(n)) == n
  {
    var s := NatToString(n);
    if n < 10 {
      assert DigitValue(DigitChar(n)) == n;
    } else {
      DigitsValueOfNat(n / 10);
      assert s[..|s| - 1] == NatToString(n / 10);
      assert DigitValue(DigitChar(n % 10)) == n % 10;
    }
  }

  /** `Integer.toString(n)`: a minus sign for negative values, then the digits. */
  function IntToString(n: int): (r: string)
    ensures |r| >= 1
    ensures forall i :: 0 <= i < |r| ==> r[i] == '-' || IsDigit(r[i])
  {
    if n < 0 then "-" + NatToString(-n) else NatToString(n)
  }

  /** `Integer.parseInt(s)`: an optional `+` or `-`, then one or more ASCII
      digits, denoting a value a Java `int` holds; `None` stands for the
      `NumberFormatException` thrown otherwise. */
  function ParseInt(s: string): (r: Option<int>)
    ensures r.Some? ==> IsInt32(r.value)
  {
    if |s| == 0 then None
    else if s[0] == '-' || s[0] == '+' then
      var digits := s[1..];
      if |digits| == 0 || !AllDigits(digits) then None
      else
        var v: int := if s[0] == '-' then 0 - (DigitsValue(digits) as int) else DigitsValue(digits);
        if IsInt32(v) then Some(v) else None
    else if !AllDigits(s) then None
    else if IsInt32(DigitsValue(s)) then Some(DigitsValue(s))
    else None
  }

  /** Every Java `int` survives `Integer.toString` followed by
      `Integer.parseInt`; the text of any other integer is refused. */
  lemma ParseIntToString(n: int)
    ensures ParseInt(IntToString(n)) == if IsInt32(n) then Some(n) else None
  {
    var s := IntToString(n);
    if n < 0 {
      assert s[1..] == NatToString(-n);
      DigitsValueOfNat(-n);
    } else {
      DigitsValueOfNat(n);
    }
  }

  /** The text of an integer never holds a given non-digit, non-minus character. */
  lemma IntToStringAvoids(n: int, c: char)
    requires c != '-' && !IsDigit(c)
    ensures c !in IntToString(n)
  {
  }

  lemma ParseIntExamples()
    ensures ParseInt("") == None
    ensures ParseInt("-") == None
    ensures ParseInt("+7") == Some(7)
    ensures ParseInt("12a") == None
  {
    assert !AllDigits("12a") by { assert !IsDigit("12a"[2]); }
    assert "+7"[1..] == "7";
  }
}
