/** Decimal text as `strconv.Atoi` reads it and as `fmt.Sprintf("%08d", i)`
    writes it: the two halves of the block-name convention (xva2qcow2.go:71, :93). */
module Numbers {
  import opened Wrappers

  /** Go's `int` on the 64-bit platforms the tool targets. */
  const MaxInt64: int := 0x7fff_ffff_ffff_ffff
  const MinInt64: int := -0x8000_0000_0000_0000

  /** Width of the zero padding in the block-file names. */
  const BlockNameWidth: nat := 8

  predicate IsDigit(c: char) { '0' <= c <= '9' }

  predicate AllDigits(s: string) { forall k :: 0 <= k < |s| ==> IsDigit(s[k]) }

  function DigitValue(c: char): nat
    requires IsDigit(c)
  {
    c as int - '0' as int
  }

  function DigitChar(d: nat): (c: char)
    requires d < 10
    ensures IsDigit(c) && DigitValue(c) == d
  {
    ('0' as int + d) as char
  }

  /** The value of a string of decimal digits, most significant first. */
  function DecValue(s: string): nat
    requires AllDigits(s)
  {
    if |s| == 0 then 0 else 10 * DecValue(s[..|s| - 1]) + DigitValue(s[|s| - 1])
  }

  /** `strconv.Atoi`: an optional `+` or `-`, at least one decimal digit and
      nothing else, with a value that fits in a 64-bit `int`; anything else is
      a syntax or range error (`None`). */
  function Atoi(s: string): Option<int>
  {
    if |s| == 0 then None
    else
      var signed := s[0] == '+' || s[0] == '-';
      var digits := if signed then s[1..] else s;
      if |digits| == 0 || !AllDigits(digits) then None
      else
        var v: int := DecValue(digits);
        var n := if s[0] == '-' then -v else v;
        if MinInt64 <= n <= MaxInt64 then Some(n) else None
  }

  /** The shortest decimal representation of `n` (`strconv.Itoa` for n >= 0). */
  function Digits(n: nat): (s: string)
    ensures |s| >= 1 && AllDigits(s)
    ensures s[0] == '0' ==> n == 0
    decreases n
  {
    if n < 10 then [DigitChar(n)] else Digits(n / 10) + [DigitChar(n % 10)]
  }

  function Repeat(c: char, n: nat): (s: string)
    ensures |s| == n && forall k :: 0 <= k < n ==> s[k] == c
  {
    if n == 0 then [] else Repeat(c, n - 1) + [c]
  }

  /** `fmt.Sprintf("%08d", i)`: the digits of `i`, left-padded with `0` to
      eight characters; an index of nine or more digits is not padded. */
  function BlockName(i: nat): string
  {
    var d := Digits(i);
    if |d| < BlockNameWidth then Repeat('0', BlockNameWidth - |d|) + d else d
  }

  lemma {:induction false} DecValueOfDigits(n: nat)
    ensures DecValue(Digits(n)) == n
    decreases n
  {
    if n >= 10 {
      var d := Digits(n);
      assert d[..|d| - 1] == Digits(n / 10);
      DecValueOfDigits(n / 10);
    }
  }

  lemma {:induction false} DecValueLeadingZeros(z: nat, s: string)
    requires AllDigits(s)
    ensures AllDigits(Repeat('0', z) + s)
    ensures DecValue(Repeat('0', z) + s) == DecValue(s)
    decreases |s|
  {
    var t := Repeat('0', z) + s;
    if |s| == 0 {
      assert t == Repeat('0', z);
      AllZerosValue(z);
    } else {
      assert t[..|t| - 1] == Repeat('0', z) + s[..|s| - 1];
      DecValueLeadingZeros(z, s[..|s| - 1]);
    }
  }

  lemma {:induction false} AllZerosValue(z: nat)
    ensures DecValue(Repeat('0', z)) == 0
  {
    if z > 0 {
      assert Repeat('0', z)[..z - 1] == Repeat('0', z - 1);
      AllZerosValue(z - 1);
    }
  }

  /** A block name is all digits, at least eight of them, and reads back as
      its index: `Atoi` accepts every canonical name whose index fits in an
      `int`, and no other index has the same name. */
  lemma AtoiBlockName(i: nat)
    ensures |BlockName(i)| >= BlockNameWidth && AllDigits(BlockName(i))
    ensures Atoi(BlockName(i)) == if i <= MaxInt64 then Some(i) else None
  {
    var d := Digits(i);
    DecValueOfDigits(i);
    if |d| < BlockNameWidth {
      DecValueLeadingZeros(BlockNameWidth - |d|, d);
    }
    var s := BlockName(i);
    assert DecValue(s) == i;
    assert IsDigit(s[0]);
  }

  /** Two indices never share a block name. */
  lemma BlockNameInjective(i: nat, j: nat)
    requires BlockName(i) == BlockName(j)
    ensures i == j
  {
    var s := BlockName(i);
    DecValueOfDigits(i);
    DecValueOfDigits(j);
    var di, dj := Digits(i), Digits(j);
    if |di| < BlockNameWidth { DecValueLeadingZeros(BlockNameWidth - |di|, di); }
    if |dj| < BlockNameWidth { DecValueLeadingZeros(BlockNameWidth - |dj|, dj); }
  }

  /** A name that `Atoi` accepts is the block name of index `i` only when `i`
      is the value it parses to and the name is spelled exactly as `%08d`
      spells it: `5`, `+5` or `005` parse to 5 but are no block's name. */
  lemma ParsedNameIsReadOnlyAsItsOwnBlock(s: string, n: int, i: nat)
    requires Atoi(s) == Some(n)
    requires s == BlockName(i)
    ensures n == i && s == BlockName(n)
  {
    AtoiBlockName(i);
  }

  /** The three spellings of five that the block lookup never finds. */
  lemma NonCanonicalSpellings()
    ensures Atoi("5") == Some(5) && Atoi("+5") == Some(5) && Atoi("005") == Some(5)
    ensures BlockName(5) == "00000005"
    ensures forall i: nat :: BlockName(i) != "5" && BlockName(i) != "+5" && BlockName(i) != "005"
  {
    assert "5"[..0] == [];
    assert "005"[..2] == "00" && "00"[..1] == "0";
    assert Digits(5) == "5";
    assert Repeat('0', 7) == "0000000" by {
      assert Repeat('0', 1) == "0";
      assert Repeat('0', 2) == "00";
      assert Repeat('0', 3) == "000";
      assert Repeat('0', 4) == "0000";
      assert Repeat('0', 5) == "00000";
      assert Repeat('0', 6) == "000000";
    }
    forall i: nat ensures BlockName(i) != "5" && BlockName(i) != "+5" && BlockName(i) != "005" {
      AtoiBlockName(i);
    }
  }
}
