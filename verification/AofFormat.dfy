// The text form of the append only file: every command is an array header
// followed by its arguments, each with its length in front.
module AofFormat {

  newtype byte = b: int | 0 <= b < 256

  type Arg = seq<byte>
  type Argv = seq<Arg>

  const STAR: byte := 42
  const DOLLAR: byte := 36
  const ZERO: byte := 48
  const CRLF: seq<byte> := [13, 10]
  const LF: byte := 10

  // What the C types in the writer can hold.
  const INT_LIMIT: nat := 0x8000_0000
  const LONG_LIMIT: nat := 0x8000_0000_0000_0000

  // ---- printing ----

  // ll2string on a non-negative number
  function Digits(n: nat): seq<byte> {
    if n < 10 then [ZERO + n as byte] else Digits(n / 10) + [ZERO + (n % 10) as byte]
  }

  function Header(mark: byte, n: nat): seq<byte> { [mark] + Digits(n) + CRLF }

  function PrintArg(a: Arg): seq<byte> { Header(DOLLAR, |a|) + a + CRLF }

  function PrintArgs(argv: Argv): seq<byte> {
    if argv == [] then [] else PrintArg(argv[0]) + PrintArgs(argv[1..])
  }

  function PrintCommand(argv: Argv): seq<byte> { Header(STAR, |argv|) + PrintArgs(argv) }

  function PrintLog(cmds: seq<Argv>): seq<byte> {
    if cmds == [] then [] else PrintCommand(cmds[0]) + PrintLog(cmds[1..])
  }

  // Commands the server can hold: at least a name, sizes within the C types.
  predicate Printable(argv: Argv) {
    1 <= |argv| < INT_LIMIT && forall j :: 0 <= j < |argv| ==> |argv[j]| < LONG_LIMIT
  }

  predicate AllPrintable(cmds: seq<Argv>) { forall i :: 0 <= i < |cmds| ==> Printable(cmds[i]) }

  lemma {:induction false} PrintArgsSnoc(argv: Argv, a: Arg)
    ensures PrintArgs(argv + [a]) == PrintArgs(argv) + PrintArg(a)
    decreases |argv|
  {
    hide PrintArg;
    if argv == [] {
      assert (argv + [a])[1..] == [];
    } else {
      assert (argv + [a])[1..] == argv[1..] + [a];
      PrintArgsSnoc(argv[1..], a);
    }
  }

  lemma {:induction false} PrintLogConcat(xs: seq<Argv>, ys: seq<Argv>)
    ensures PrintLog(xs + ys) == PrintLog(xs) + PrintLog(ys)
    decreases |xs|
  {
    hide PrintCommand;
    if xs == [] {
      assert xs + ys == ys;
    } else {
      assert (xs + ys)[1..] == xs[1..] + ys;
      PrintLogConcat(xs[1..], ys);
    }
  }

  // catAppendOnlyGenericCommand
  method CatGenericCommand(dst: seq<byte>, argv: Argv) returns (out: seq<byte>)
    ensures out == dst + PrintCommand(argv)
  {
    hide PrintArgs, Digits;
    var buf := [STAR];
    buf := buf + Digits(|argv|);
    buf := buf + CRLF;
    out := dst + buf;
    NoArgs();
    assert argv[..0] == [];
    for j := 0 to |argv|
      invariant out == dst + Header(STAR, |argv|) + PrintArgs(argv[..j])
    {
      var o := argv[j];
      buf := [DOLLAR];
      buf := buf + Digits(|o|);
      buf := buf + CRLF;
      out := out + buf;
      out := out + o;
      out := out + CRLF;
      PrintArgsSnoc(argv[..j], o);
      assert argv[..j + 1] == argv[..j] + [o];
    }
    assert argv[..|argv|] == argv;
  }

  lemma NoArgs()
    ensures PrintArgs([]) == []
  {}

  // ---- numbers ----

  predicate IsDigit(b: byte) { ZERO <= b < ZERO + 10 }

  function DigitValue(b: byte): nat requires IsDigit(b) { b as nat - 48 }

  // The number a run of digits stands for.
  function Number(s: seq<byte>): nat
    requires forall i :: 0 <= i < |s| ==> IsDigit(s[i])
  {
    if s == [] then 0 else 10 * Number(s[..|s| - 1]) + DigitValue(s[|s| - 1])
  }

  // What strtol and atoi make of a string: spaces, a sign, then digits up to the first other byte.
  predicate IsSpace(b: byte) { b == 32 || 9 <= b <= 13 }

  function SkipSpaces(s: seq<byte>): seq<byte> { if s != [] && IsSpace(s[0]) then SkipSpaces(s[1..]) else s }

  function DigitRun(s: seq<byte>): (n: nat)
    ensures n <= |s| && forall i :: 0 <= i < n ==> IsDigit(s[i])
  {
    if s != [] && IsDigit(s[0]) then 1 + DigitRun(s[1..]) else 0
  }

  function Unsigned(s: seq<byte>): nat { Number(s[..DigitRun(s)]) }

  function Strtol(s: seq<byte>): int {
    var t := SkipSpaces(s);
    if t != [] && t[0] == 45 then -(Unsigned(t[1..]) as int)
    else if t != [] && t[0] == 43 then Unsigned(t[1..])
    else Unsigned(t)
  }

  lemma {:induction false} DigitsAreDigits(n: nat)
    ensures |Digits(n)| >= 1 && forall i :: 0 <= i < |Digits(n)| ==> IsDigit(Digits(n)[i])
    ensures n >= 1 ==> Digits(n)[0] != ZERO
    ensures Number(Digits(n)) == n
    decreases n
  {
    if n >= 10 {
      DigitsAreDigits(n / 10);
      var s := Digits(n);
      assert s[..|s| - 1] == Digits(n / 10);
    } else {
      assert Number([]) == 0;
      assert Digits(n)[..0] == [];
    }
  }

  function Ten(k: nat): nat { if k == 0 then 1 else 10 * Ten(k - 1) }

  lemma {:induction false} DigitCount(n: nat, k: nat)
    requires k >= 1 && n < Ten(k)
    ensures |Digits(n)| <= k
    decreases k
  {
    if n >= 10 { DigitCount(n / 10, k - 1); }
  }

  lemma LongDigits(n: nat)
    requires n < LONG_LIMIT
    ensures |Digits(n)| <= 20
  {
    hide Digits;
    assert Ten(5) == 100000;
    TenAdd(5, 5); TenAdd(10, 10);
    DigitCount(n, 20);
  }

  lemma {:induction false} TenAdd(a: nat, b: nat)
    ensures Ten(a + b) == Ten(a) * Ten(b)
    decreases b
  {
    if b != 0 { TenAdd(a, b - 1); }
  }

  lemma {:induction false} DigitRunOf(s: seq<byte>, t: seq<byte>)
    requires forall i :: 0 <= i < |s| ==> IsDigit(s[i])
    requires t == [] || !IsDigit(t[0])
    ensures DigitRun(s + t) == |s|
    decreases |s|
  {
    hide IsDigit;
    if s == [] {
      assert s + t == t;
    } else {
      assert (s + t)[1..] == s[1..] + t;
      DigitRunOf(s[1..], t);
    }
  }

  lemma StrtolDigits(s: seq<byte>, t: seq<byte>)
    requires forall i :: 0 <= i < |s| ==> IsDigit(s[i])
    requires t == [] || t[0] == CRLF[0]
    requires s != []
    ensures Strtol(s + t) == Number(s)
  {
    DigitRunOf(s, t);
    assert (s + t)[0] == s[0];
    assert SkipSpaces(s + t) == s + t;
    assert (s + t)[..|s|] == s;
  }

  lemma {:induction false} PositiveNumber(s: seq<byte>)
    requires s != [] && (forall i :: 0 <= i < |s| ==> IsDigit(s[i])) && s[0] != ZERO
    ensures Number(s) >= 1
    decreases |s|
  {
    if |s| > 1 { PositiveNumber(s[..|s| - 1]); }
  }
}
