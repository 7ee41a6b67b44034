/**
 * The command line operands of sheet.c: the argument vector with the index
 * of the next argument to consume (arguments_t), and readInt, which turns
 * the next argument into an int through strtol, "-" standing for
 * DASH_NUMBER.
 */
module Operands {
  import opened SheetTypes

  // ---------------------------------------------------------------------
  // strtol in base 10, as the C library defines it

  /** isspace in the "C" locale. */
  predicate IsSpace(c: char)
  {
    c == ' ' || '\t' <= c <= '\r'
  }

  predicate IsDigit(c: char)
  {
    '0' <= c <= '9'
  }

  /** The digits of s, most significant first, appended to the value acc. */
  function Accumulate(s: seq<char>, acc: nat): (r: Option<nat>)
    ensures r.Some? ==> r.value >= acc
  {
    if s == [] then Some(acc)
    else if IsDigit(s[0]) then Accumulate(s[1..], 10 * acc + DigitOf(s[0]))
    else None
  }

  function DigitOf(c: char): (k: nat)
    requires IsDigit(c)
    ensures k < 10
  {
    c as int - '0' as int
  }

  const LONG_MIN: int := -0x8000_0000_0000_0000
  const LONG_MAX: int := 0x7fff_ffff_ffff_ffff

  /** strtol saturates at the bounds of a 64-bit long. */
  function ClampLong(x: int): (r: int)
    ensures LONG_MIN <= r <= LONG_MAX
    ensures LONG_MIN <= x <= LONG_MAX ==> r == x
  {
    if x < LONG_MIN then LONG_MIN else if x > LONG_MAX then LONG_MAX else x
  }

  /** Storing a long into an int keeps its low 32 bits, as two's complement. */
  function WrapInt(x: int): (r: int)
    ensures -0x8000_0000 <= r < 0x8000_0000
    ensures (r - x) % 0x1_0000_0000 == 0
    ensures -0x8000_0000 <= x < 0x8000_0000 ==> r == x
  {
    (x + 0x8000_0000) % 0x1_0000_0000 - 0x8000_0000
  }

  /**
   * strtol(s, &end, 10) together with the test *end == '\0': the value
   * when the number takes up the whole argument, None when something
   * follows it. With no digits at all, end is s itself, so only the empty
   * argument passes, with value 0.
   */
  function StrToLong(s: seq<char>): (r: Option<int>)
    ensures r.Some? ==> LONG_MIN <= r.value <= LONG_MAX
  {
    if s == [] then Some(0) else AfterSpaces(s)
  }

  /** strtol past the leading white space of a non-empty argument. */
  function AfterSpaces(s: seq<char>): (r: Option<int>)
    ensures r.Some? ==> LONG_MIN <= r.value <= LONG_MAX
  {
    if s != [] && IsSpace(s[0]) then AfterSpaces(s[1..]) else Signed(s)
  }

  /** strtol from the optional sign on; at least one digit must follow it. */
  function Signed(s: seq<char>): (r: Option<int>)
    ensures r.Some? ==> LONG_MIN <= r.value <= LONG_MAX
  {
    var negative := s != [] && s[0] == '-';
    var u := if s != [] && (s[0] == '+' || s[0] == '-') then s[1..] else s;
    if u == [] || !IsDigit(u[0]) then None
    else
      match Accumulate(u, 0)
      case None => None
      case Some(v) => Some(ClampLong(if negative then -(v as int) else v))
  }

  /** What readInt stores for one argument, None when it refuses it. */
  function IntArg(s: seq<char>): (r: Option<int>)
    ensures s == "-" ==> r == Some(DASH_NUMBER)
    ensures r.Some? ==> -0x8000_0000 <= r.value < 0x8000_0000
  {
    if s == "-" then Some(DASH_NUMBER)
    else
      match StrToLong(s)
      case None => None
      case Some(v) => Some(WrapInt(v))
  }

  // ---------------------------------------------------------------------
  // Decimal rendering, the partner of IntArg

  function DigitChar(k: nat): (c: char)
    requires k < 10
    ensures IsDigit(c) && DigitOf(c) == k
  {
    ('0' as int + k) as char
  }

  /** The decimal digits of n, most significant first. */
  function Decimal(n: nat): (s: seq<char>)
    ensures s != [] && IsDigit(s[0])
  {
    if n < 10 then [DigitChar(n)] else Decimal(n / 10) + [DigitChar(n % 10)]
  }

  /** The decimal rendering of an int, with a '-' for negative values. */
  function Show(n: int): seq<char>
  {
    if n < 0 then "-" + Decimal(-n) else Decimal(n)
  }

  /** One more digit at the end multiplies the accumulated value by ten and adds it. */
  lemma {:induction false} AccumulateSnoc(s: seq<char>, c: char, acc: nat)
    requires IsDigit(c) && Accumulate(s, acc).Some?
    ensures Accumulate(s + [c], acc) == Some(10 * Accumulate(s, acc).value + DigitOf(c))
  {
    if s != [] {
      assert (s + [c])[1..] == s[1..] + [c];
      AccumulateSnoc(s[1..], c, 10 * acc + DigitOf(s[0]));
    }
  }

  lemma {:induction false} DecimalValue(n: nat)
    ensures Accumulate(Decimal(n), 0) == Some(n)
  {
    if n >= 10 {
      DecimalValue(n / 10);
      AccumulateSnoc(Decimal(n / 10), DigitChar(n % 10), 0);
    }
  }

  /** strtol reads the decimal digits of n as n. */
  lemma {:induction false} ShownNatural(n: int)
    requires 0 <= n <= LONG_MAX
    ensures StrToLong(Show(n)) == Some(n) && Show(n) != "-"
  {
    DecimalValue(n);
    var s := Decimal(n);
    assert AfterSpaces(s) == Signed(s);
  }

  /** strtol reads '-' and the decimal digits of -n as n. */
  lemma {:induction false} ShownNegative(n: int)
    requires LONG_MIN < n < 0
    ensures StrToLong(Show(n)) == Some(n) && Show(n) != "-"
  {
    DecimalValue(-n);
    var s := "-" + Decimal(-n);
    assert AfterSpaces(s) == Signed(s);
    assert s[1..] == Decimal(-n);
    assert |s| >= 2;
  }

  /**
   * readInt gives back every long written out in decimal, cut to its low
   * 32 bits: every int comes back as itself.
   */
  lemma {:induction false} ReadShown(n: int)
    requires LONG_MIN < n <= LONG_MAX
    ensures IntArg(Show(n)) == Some(WrapInt(n))
    ensures -0x8000_0000 <= n < 0x8000_0000 ==> IntArg(Show(n)) == Some(n)
  {
    if n < 0 {
      ShownNegative(n);
    } else {
      ShownNatural(n);
    }
  }

  /**
   * "-" and "-1" are the same operand, and so is 4294967295, which wraps
   * to -1 on its way into an int.
   */
  lemma DashAliases()
    ensures IntArg("-") == IntArg(Show(-1)) == IntArg(Show(0xFFFF_FFFF)) == Some(DASH_NUMBER)
  {
    ReadShown(-1);
    ReadShown(0xFFFF_FFFF);
    assert WrapInt(0xFFFF_FFFF) == -1;
  }

  /** An argument with anything after the number is refused, and "" reads as 0. */
  lemma LenientEdges()
    ensures IntArg("") == Some(0)
    ensures IntArg(" +7") == Some(7)
    ensures IntArg("7x") == None && IntArg(" ") == None && IntArg("+") == None
  {
    assert " +7"[1..] == "+7";
    assert "+7"[1..] == "7";
    assert AfterSpaces(" +7") == Signed("+7");
    assert Accumulate("7", 0) == Accumulate([], 7);
    assert "7x"[1..] == "x";
    assert Accumulate("7x", 0) == Accumulate("x", 7);
    assert " "[1..] == [];
  }

  // ---------------------------------------------------------------------
  // arguments_t

  /** The argument vector and the index of the next argument to consume. */
  class Arguments {
    const argv: seq<seq<char>>
    var index: nat

    constructor (argv: seq<seq<char>>, index: nat)
      ensures this.argv == argv && this.index == index
    {
      this.argv := argv;
      this.index := index;
    }

    /**
     * readInt: the next argument as an int. On success the index moves past
     * it; when there is no argument left or it is not a whole number, the
     * index stays and false is returned.
     */
    method ReadInt() returns (ok: bool, n: int)
      modifies this
      ensures ok <==> old(index) < |argv| && IntArg(argv[old(index)]).Some?
      ensures ok ==> n == IntArg(argv[old(index)]).value && index == old(index) + 1
      ensures !ok ==> index == old(index)
    {
      if index >= |argv| {
        return false, 0;
      }
      var arg := argv[index];
      if arg == "-" {
        n := DASH_NUMBER;
        index := index + 1;
        return true, n;
      }
      var v := StrToLong(arg);
      if v.None? {
        return false, 0;
      }
      n := WrapInt(v.value);
      index := index + 1;
      ok := true;
    }
  }
}
