// Loading the append only file, and recovery from a file cut anywhere.
module AofLoader {
  import opened AofFormat

  // ---- the stream reads, on the bytes still unread ----

  const LINE_BUFFER: nat := 128

  // How many bytes fgets takes: through the first line feed, the buffer or the end.
  function LineLength(s: seq<byte>, room: nat): (n: nat)
    ensures n <= |s| && n <= room
  {
    if s == [] || room == 0 then 0 else if s[0] == LF then 1 else 1 + LineLength(s[1..], room - 1)
  }

  function Line(s: seq<byte>): seq<byte> { s[..LineLength(s, LINE_BUFFER - 1)] }

  function AfterLine(s: seq<byte>): seq<byte> { s[LineLength(s, LINE_BUFFER - 1)..] }

  // Whether fgets ran into the end of the file (feof)
  predicate AtEnd(s: seq<byte>) {
    var n := LineLength(s, LINE_BUFFER - 1);
    n == |s| && n < LINE_BUFFER - 1 && (n > 0 ==> s[n - 1] != LF)
  }

  // Short: the file ended inside a command. Bad: it is not a log.
  datatype Read<T> = Got(value: T, rest: seq<byte>) | Short | Bad

  function ReadArg(s: seq<byte>): (r: Read<Arg>)
    ensures r.Got? ==> |r.rest| < |s| && s[|s| - |r.rest|..] == r.rest
  {
    if s == [] then Short
    else if Line(s)[0] != DOLLAR then Bad
    else
      var len, rest := Strtol(Line(s)[1..]), AfterLine(s);
      if len < 0 then Bad
      else if len > |rest| then Short
      else if |rest| - len < 2 then Short
      else Got(rest[..len], rest[len + 2..])
  }

  function ReadArgs(s: seq<byte>, n: nat): (r: Read<Argv>)
    ensures r.Got? ==> |r.rest| <= |s| && s[|s| - |r.rest|..] == r.rest && |r.value| == n
  {
    if n == 0 then Got([], s)
    else match ReadArg(s)
      case Short => Short
      case Bad => Bad
      case Got(a, rest) =>
        match ReadArgs(rest, n - 1)
        case Short => Short
        case Bad => Bad
        case Got(more, end) => Got([a] + more, end)
  }

  function ReadCommand(s: seq<byte>): (r: Read<Argv>)
    requires s != []
    ensures r.Got? ==> |r.rest| < |s| && s[|s| - |r.rest|..] == r.rest && |r.value| >= 1
  {
    var line := Line(s);
    if line[0] != STAR then Bad
    else if |line| == 1 || (line[1] == 0 && AtEnd(s)) then Short
    else
      var argc := Strtol(line[1..]);
      if argc < 1 then Bad else ReadArgs(AfterLine(s), argc)
  }

  // ---- reading back what was printed ----

  lemma {:induction false} LineOf(s: seq<byte>, t: seq<byte>, room: nat)
    requires |s| + 1 <= room && forall i :: 0 <= i < |s| ==> s[i] != LF
    ensures LineLength(s + [LF] + t, room) == |s| + 1
    decreases |s|
  {
    var u := s + [LF] + t;
    if s == [] {
      assert u[0] == LF;
    } else {
      assert u[0] == s[0] && u[1..] == s[1..] + [LF] + t;
      LineOf(s[1..], t, room - 1);
    }
  }

  lemma {:induction false} CutLine(s: seq<byte>, room: nat)
    requires |s| <= room && forall i :: 0 <= i < |s| ==> s[i] != LF
    ensures LineLength(s, room) == |s|
    decreases |s|
  {
    if s != [] { CutLine(s[1..], room - 1); }
  }

  // The line without its line feed.
  function Open(mark: byte, n: nat): seq<byte> { [mark] + Digits(n) + [13] }

  lemma OpenLine(mark: byte, n: nat)
    requires n < LONG_LIMIT && mark != LF
    ensures Header(mark, n) == Open(mark, n) + [LF]
    ensures |Header(mark, n)| <= 23
    ensures forall i :: 0 <= i < |Open(mark, n)| ==> Open(mark, n)[i] != LF
  {
    hide Digits;
    LongDigits(n);
    DigitsAreDigits(n);
  }

  // A whole header is read as one line holding its number.
  lemma WholeHeader(mark: byte, n: nat, t: seq<byte>)
    requires n < LONG_LIMIT && mark != LF
    ensures Line(Header(mark, n) + t) == Header(mark, n) && AfterLine(Header(mark, n) + t) == t
    ensures Strtol(Header(mark, n)[1..]) == n && |Header(mark, n)| >= 2
  {
    hide Digits, Strtol, Header, Open;
    OpenLine(mark, n);
    var s := Open(mark, n);
    assert Header(mark, n) + t == s + [LF] + t;
    LineOf(s, t, LINE_BUFFER - 1);
    HeaderNumber(mark, n);
  }

  lemma HeaderNumber(mark: byte, n: nat)
    ensures Strtol(Header(mark, n)[1..]) == n && |Header(mark, n)| >= 2
  {
    hide Digits, Strtol;
    DigitsAreDigits(n);
    assert Header(mark, n)[1..] == Digits(n) + CRLF;
    StrtolDigits(Digits(n), CRLF);
  }

  // A header cut short is read to the end of the file; its number, if it shows
  // any digit of a positive one, is positive.
  lemma CutHeader(mark: byte, n: nat, k: nat)
    requires n < LONG_LIMIT && mark != LF && 1 <= k < |Header(mark, n)|
    ensures var s := Header(mark, n)[..k]; Line(s) == s && AfterLine(s) == [] && s[0] == mark
    ensures Strtol(Header(mark, n)[..k][1..]) >= 0
    ensures n >= 1 && k >= 2 ==> Strtol(Header(mark, n)[..k][1..]) >= 1
  {
    hide Digits, Strtol, Header, Open;
    OpenLine(mark, n);
    var s := Header(mark, n)[..k];
    assert s == Open(mark, n)[..k];
    CutLine(s, LINE_BUFFER - 1);
    CutNumber(mark, n, k);
  }

  lemma CutNumber(mark: byte, n: nat, k: nat)
    requires 1 <= k < |Header(mark, n)|
    ensures Header(mark, n)[..k][0] == mark
    ensures Strtol(Header(mark, n)[..k][1..]) >= 0
    ensures n >= 1 && k >= 2 ==> Strtol(Header(mark, n)[..k][1..]) >= 1
  {
    hide Digits, Strtol;
    DigitsAreDigits(n);
    var d := Digits(n);
    var s := Header(mark, n)[..k];
    if k == 1 {
      assert s[1..] == [];
      NoNumber();
    } else if k <= |d| + 1 {
      assert s[1..] == d[..k - 1] + [];
      StrtolDigits(d[..k - 1], []);
      if n >= 1 { PositiveNumber(d[..k - 1]); }
    } else {
      assert s[1..] == d + [13];
      StrtolDigits(d, [13]);
    }
  }

  lemma NoNumber()
    ensures Strtol([]) == 0
  {}

  lemma NulNumber(s: seq<byte>)
    requires s != [] && s[0] == 0
    ensures Strtol(s) == 0
  {
    assert DigitRun(s) == 0 && s[..0] == [];
  }

  lemma WholeArg(a: Arg, t: seq<byte>)
    requires |a| < LONG_LIMIT
    ensures ReadArg(PrintArg(a) + t) == Got(a, t)
  {
    hide Line, AfterLine, Header, Strtol;
    var u := a + CRLF + t;
    assert PrintArg(a) + t == Header(DOLLAR, |a|) + u;
    WholeHeader(DOLLAR, |a|, u);
    MarkFirst(DOLLAR, |a|);
    assert u[..|a|] == a && u[|a| + 2..] == t;
  }

  lemma MarkFirst(mark: byte, n: nat)
    ensures Header(mark, n) != [] && Header(mark, n)[0] == mark
  {
    hide Digits;
  }

  lemma CutArg(a: Arg, k: nat)
    requires |a| < LONG_LIMIT && k < |PrintArg(a)|
    ensures ReadArg(PrintArg(a)[..k]) == Short
  {
    hide Line, AfterLine, Header, Strtol;
    var h := Header(DOLLAR, |a|);
    var s := PrintArg(a)[..k];
    MarkFirst(DOLLAR, |a|);
    if k == 0 {
    } else if k < |h| {
      assert s == h[..k];
      CutHeader(DOLLAR, |a|, k);
    } else {
      var u := (a + CRLF)[..k - |h|];
      assert s == h + u;
      WholeHeader(DOLLAR, |a|, u);
    }
  }

  lemma {:induction false} WholeArgs(argv: Argv, t: seq<byte>)
    requires forall j :: 0 <= j < |argv| ==> |argv[j]| < LONG_LIMIT
    ensures ReadArgs(PrintArgs(argv) + t, |argv|) == Got(argv, t)
    decreases |argv|
  {
    hide ReadArg, PrintArg;
    if argv == [] {
      assert PrintArgs(argv) + t == t;
    } else {
      var u := PrintArgs(argv[1..]) + t;
      assert PrintArgs(argv) + t == PrintArg(argv[0]) + u;
      WholeArg(argv[0], u);
      WholeArgs(argv[1..], t);
      assert [argv[0]] + argv[1..] == argv;
    }
  }

  lemma {:induction false} CutArgs(argv: Argv, k: nat)
    requires forall j :: 0 <= j < |argv| ==> |argv[j]| < LONG_LIMIT
    requires k < |PrintArgs(argv)|
    ensures ReadArgs(PrintArgs(argv)[..k], |argv|) == Short
    decreases |argv|
  {
    hide ReadArg, PrintArg;
    var first := PrintArg(argv[0]);
    var s := PrintArgs(argv)[..k];
    if k < |first| {
      assert s == first[..k];
      CutArg(argv[0], k);
    } else {
      var u := PrintArgs(argv[1..])[..k - |first|];
      assert s == first + u;
      WholeArg(argv[0], u);
      CutArgs(argv[1..], k - |first|);
    }
  }

  lemma NoBytes(n: nat)
    requires n >= 1
    ensures ReadArgs([], n) == Short
  {}

  lemma NotNul(line: seq<byte>)
    requires |line| >= 2 && Strtol(line[1..]) >= 1
    ensures line[1] != 0
  {
    hide Strtol;
    if line[1] == 0 { NulNumber(line[1..]); }
  }

  lemma WholeCommand(argv: Argv, t: seq<byte>)
    requires Printable(argv)
    ensures PrintCommand(argv) != [] && ReadCommand(PrintCommand(argv) + t) == Got(argv, t)
  {
    hide Line, AfterLine, Header, Strtol, ReadArgs, PrintArgs;
    var u := PrintArgs(argv) + t;
    assert PrintCommand(argv) + t == Header(STAR, |argv|) + u;
    MarkFirst(STAR, |argv|);
    WholeHeader(STAR, |argv|, u);
    NotNul(Header(STAR, |argv|));
    WholeArgs(argv, t);
  }

  lemma CutCommand(argv: Argv, k: nat)
    requires Printable(argv) && 0 < k < |PrintCommand(argv)|
    ensures ReadCommand(PrintCommand(argv)[..k]) == Short
  {
    hide Line, AfterLine, Header, Strtol, ReadArgs, PrintArgs;
    var h := Header(STAR, |argv|);
    var s := PrintCommand(argv)[..k];
    MarkFirst(STAR, |argv|);
    if k < |h| {
      assert s == h[..k];
      CutHeader(STAR, |argv|, k);
      if k >= 2 {
        NotNul(s);
        NoBytes(Strtol(s[1..]));
      }
    } else {
      var u := PrintArgs(argv)[..k - |h|];
      assert s == h + u;
      WholeHeader(STAR, |argv|, u);
      NotNul(h);
      CutArgs(argv, k - |h|);
    }
  }

  // ---- the whole file ----

  type Commands = Arg -> bool

  datatype End = Eof | Cut | BadFormat | Unknown

  // The commands executed in order, the bytes they took, and what stopped the loop.
  datatype Scanned = Scanned(cmds: seq<Argv>, used: nat, end: End)

  function Scan(s: seq<byte>, known: Commands): (r: Scanned)
    ensures r.used <= |s| && (r.end.Eof? ==> r.used == |s|)
    decreases |s|
  {
    if s == [] then Scanned([], 0, Eof)
    else match ReadCommand(s)
      case Short => Scanned([], 0, Cut)
      case Bad => Scanned([], 0, BadFormat)
      case Got(argv, rest) =>
        if !known(argv[0]) then Scanned([], 0, Unknown)
        else
          var more := Scan(rest, known);
          Scanned([argv] + more.cmds, |s| - |rest| + more.used, more.end)
  }

  // Empty: the file has no bytes. Loaded: it was cut to its first kept bytes.
  datatype Load = Empty | Loaded(cmds: seq<Argv>, kept: nat) | Exit(cmds: seq<Argv>, reason: End)

  function Outcome(file: seq<byte>, known: Commands, loadTruncated: bool, truncates: bool): Load {
    if file == [] then Empty
    else
      var r := Scan(file, known);
      match r.end
      case Eof => Loaded(r.cmds, |file|)
      case Cut => if loadTruncated && truncates then Loaded(r.cmds, r.used) else Exit(r.cmds, Cut)
      case BadFormat => Exit(r.cmds, BadFormat)
      case Unknown => Exit(r.cmds, Unknown)
  }

  // Reading argv[j] onwards, with what was read before it in front.
  function Prepend(before: Argv, r: Read<Argv>): Read<Argv> {
    match r
    case Got(more, rest) => Got(before + more, rest)
    case Short => Short
    case Bad => Bad
  }

  lemma LineSome(s: seq<byte>)
    requires s != []
    ensures Line(s) != []
  {}

  lemma PrependNothing(r: Read<Argv>)
    ensures Prepend([], r) == r
  {
    if r.Got? { assert [] + r.value == r.value; }
  }

  lemma PrependOne(before: Argv, a: Arg, r: Read<Argv>)
    ensures Prepend(before + [a], r) == Prepend(before, Prepend([a], r))
  {
    if r.Got? { assert before + [a] + r.value == before + ([a] + r.value); }
  }

  lemma ArgsStep(s: seq<byte>, n: nat)
    requires n >= 1
    ensures match ReadArg(s)
      case Short => ReadArgs(s, n) == Short
      case Bad => ReadArgs(s, n) == Bad
      case Got(a, rest) => ReadArgs(s, n) == Prepend([a], ReadArgs(rest, n - 1))
  {
    hide ReadArg;
  }

  // One argument: the length line, the bytes, the two bytes after them.
  method LoadArg(s: seq<byte>) returns (r: Read<Arg>)
    ensures r == ReadArg(s)
  {
    hide Strtol, Line, AfterLine;
    if s == [] { return Short; }
    LineSome(s);
    var buf := Line(s);
    if buf[0] != DOLLAR { return Bad; }
    var len := Strtol(buf[1..]);
    var rest := AfterLine(s);
    if len < 0 { return Bad; }
    if len > |rest| { return Short; }
    var argsds := rest[..len];
    if |rest| - len < 2 { return Short; }
    r := Got(argsds, rest[len + 2..]);
  }

  // The part of the loader's loop that reads one command at position pos.
  method LoadCommand(file: seq<byte>, pos: nat) returns (r: Read<Argv>)
    requires pos < |file|
    ensures r == ReadCommand(file[pos..])
  {
    hide Strtol, Line, AfterLine, ReadArg, ReadArgs, Prepend;
    var s := file[pos..];
    LineSome(s);
    var buf := Line(s);
    if buf[0] != STAR { return Bad; }
    if |buf| == 1 || (buf[1] == 0 && AtEnd(s)) { return Short; }
    var argc := Strtol(buf[1..]);
    if argc < 1 { return Bad; }
    ghost var goal := ReadArgs(AfterLine(s), argc);
    s := AfterLine(s);
    var argv: Argv := [];
    PrependNothing(goal);
    var j := 0;
    while j < argc
      invariant 0 <= j <= argc && |argv| == j
      invariant goal == Prepend(argv, ReadArgs(s, argc - j))
    {
      ArgsStep(s, argc - j);
      PrependEnds(argv);
      var a := LoadArg(s);
      match a {
        case Short => return Short;
        case Bad => return Bad;
        case Got(argsds, rest) =>
          PrependOne(argv, argsds, ReadArgs(rest, argc - j - 1));
          argv := argv + [argsds];
          s := rest;
          j := j + 1;
      }
    }
    NoMoreArgs(argv, s);
    r := Got(argv, s);
  }

  lemma PrependEnds(argv: Argv)
    ensures Prepend(argv, Short) == Short && Prepend(argv, Bad) == Bad
  {}

  lemma NoMoreArgs(argv: Argv, s: seq<byte>)
    ensures Prepend(argv, ReadArgs(s, 0)) == Got(argv, s)
  {
    assert argv + [] == argv;
  }

  predicate Continued(whole: Scanned, done: seq<Argv>, pos: nat, rest: Scanned) {
    whole.cmds == done + rest.cmds && whole.used == pos + rest.used && whole.end == rest.end
  }

  lemma ContinuedStep(whole: Scanned, done: seq<Argv>, pos: nat, s: seq<byte>, known: Commands)
    requires s != [] && Continued(whole, done, pos, Scan(s, known))
    ensures match ReadCommand(s)
      case Short => whole == Scanned(done, pos, Cut)
      case Bad => whole == Scanned(done, pos, BadFormat)
      case Got(argv, rest) =>
        if known(argv[0]) then Continued(whole, done + [argv], pos + |s| - |rest|, Scan(rest, known))
        else whole == Scanned(done, pos, Unknown)
  {
    hide ReadCommand;
    match ReadCommand(s)
    case Got(argv, rest) =>
      if known(argv[0]) {
        assert done + ([argv] + Scan(rest, known).cmds) == done + [argv] + Scan(rest, known).cmds;
      } else {
        assert done + [] == done;
      }
    case _ => assert done + [] == done;
  }

  // loadAppendOnlyFile: executed are the commands run against the dataset.
  method LoadAppendOnlyFile(file: seq<byte>, known: Commands, loadTruncated: bool, truncates: bool)
    returns (r: Load)
    ensures r == Outcome(file, known, loadTruncated, truncates)
  {
    hide ReadCommand, Scan, Continued;
    if file == [] { return Empty; }
    ghost var whole := Scan(file, known);
    var executed: seq<Argv> := [];
    var pos, validUpTo := 0, 0;
    assert file[0..] == file;
    Starts(whole);
    while pos < |file|
      invariant 0 <= pos <= |file| && (loadTruncated ==> validUpTo == pos)
      invariant Continued(whole, executed, pos, Scan(file[pos..], known))
      decreases |file| - pos
    {
      ContinuedStep(whole, executed, pos, file[pos..], known);
      var c := LoadCommand(file, pos);
      match c {
        case Short =>
          if loadTruncated && truncates { return Loaded(executed, validUpTo); }
          return Exit(executed, Cut);
        case Bad =>
          return Exit(executed, BadFormat);
        case Got(argv, rest) =>
          if !known(argv[0]) { return Exit(executed, Unknown); }
          executed := executed + [argv];
          assert file[pos..][|file| - pos - |rest|..] == file[|file| - |rest|..];
          pos := |file| - |rest|;
          if loadTruncated { validUpTo := pos; }
      }
    }
    Ends(whole, executed, |file|, known);
    r := Loaded(executed, |file|);
  }

  lemma Starts(whole: Scanned)
    ensures Continued(whole, [], 0, whole)
  {
    assert [] + whole.cmds == whole.cmds;
  }

  lemma Ends(whole: Scanned, done: seq<Argv>, pos: nat, known: Commands)
    requires Continued(whole, done, pos, Scan([], known))
    ensures whole == Scanned(done, pos, Eof)
  { assert done + [] == done; }

  // ---- the log and its prefixes ----

  // How many commands lie wholly inside the first k bytes of the log.
  function Whole(cmds: seq<Argv>, k: nat): (m: nat)
    ensures m <= |cmds|
  {
    if cmds == [] || |PrintCommand(cmds[0])| > k then 0
    else 1 + Whole(cmds[1..], k - |PrintCommand(cmds[0])|)
  }

  lemma {:induction false} WholeIsGreatest(cmds: seq<Argv>, k: nat)
    ensures |PrintLog(cmds[..Whole(cmds, k)])| <= k
    ensures Whole(cmds, k) < |cmds| ==> |PrintLog(cmds[..Whole(cmds, k) + 1])| > k
    decreases |cmds|
  {
    hide PrintCommand;
    if cmds == [] {
    } else if |PrintCommand(cmds[0])| > k {
      assert cmds[..1] == [cmds[0]] && cmds[..1][1..] == [];
    } else {
      var n := |PrintCommand(cmds[0])|;
      WholeIsGreatest(cmds[1..], k - n);
      var m := Whole(cmds[1..], k - n);
      assert cmds[..m + 1][1..] == cmds[1..][..m];
      if m < |cmds[1..]| { assert cmds[..m + 2][1..] == cmds[1..][..m + 1]; }
    }
  }

  predicate AllKnown(cmds: seq<Argv>, known: Commands) {
    forall i :: 0 <= i < |cmds| ==> cmds[i] != [] && known(cmds[i][0])
  }

  lemma {:induction false} ScanPrefix(cmds: seq<Argv>, k: nat, known: Commands)
    requires AllPrintable(cmds) && AllKnown(cmds, known) && k <= |PrintLog(cmds)|
    ensures var m := Whole(cmds, k); var used := |PrintLog(cmds[..m])|;
      used <= k && Scan(PrintLog(cmds)[..k], known) == Scanned(cmds[..m], used, if used == k then Eof else Cut)
    decreases |cmds|
  {
    hide PrintCommand, ReadCommand, Printable;
    if cmds == [] {
    } else {
      var first := PrintCommand(cmds[0]);
      var s := PrintLog(cmds)[..k];
      if |first| > k {
        assert s == first[..k];
        if k > 0 { CutCommand(cmds[0], k); }
      } else {
        var rest := PrintLog(cmds[1..])[..k - |first|];
        assert s == first + rest;
        WholeCommand(cmds[0], rest);
        ScanPrefix(cmds[1..], k - |first|, known);
        var m := Whole(cmds[1..], k - |first|);
        assert cmds[..m + 1][1..] == cmds[1..][..m];
        assert cmds[..m + 1] == [cmds[0]] + cmds[1..][..m];
      }
    }
  }

  lemma {:induction false} LogPrefix(cmds: seq<Argv>, m: nat)
    requires m <= |cmds|
    ensures |PrintLog(cmds[..m])| <= |PrintLog(cmds)|
    ensures PrintLog(cmds)[..|PrintLog(cmds[..m])|] == PrintLog(cmds[..m])
  {
    assert cmds == cmds[..m] + cmds[m..];
    PrintLogConcat(cmds[..m], cmds[m..]);
  }

  // Loading a log cut anywhere runs exactly the commands wholly inside the cut,
  // finds no format error, and leaves a file that ends after the last of them.
  lemma TruncatedTail(cmds: seq<Argv>, k: nat, known: Commands)
    requires AllPrintable(cmds) && AllKnown(cmds, known) && 0 < k <= |PrintLog(cmds)|
    ensures var m := Whole(cmds, k); var kept := |PrintLog(cmds[..m])|;
      kept <= k
      && Outcome(PrintLog(cmds)[..k], known, true, true) == Loaded(cmds[..m], kept)
      && PrintLog(cmds)[..k][..kept] == PrintLog(cmds[..m])
  {
    hide Scan, PrintLog, Whole, AllPrintable, AllKnown;
    ScanPrefix(cmds, k, known);
    LogPrefix(cmds, Whole(cmds, k));
  }

  // The loader inverts the printer.
  lemma {:induction false} LoadInvertsPrint(cmds: seq<Argv>, known: Commands, loadTruncated: bool, truncates: bool)
    requires AllPrintable(cmds) && AllKnown(cmds, known) && cmds != []
    ensures Outcome(PrintLog(cmds), known, loadTruncated, truncates) == Loaded(cmds, |PrintLog(cmds)|)
  {
    hide Scan, AllKnown, PrintCommand;
    ScanLog(cmds, known);
    WholeCommand(cmds[0], []);
  }

  // ---- damaged logs ----

  // A log is run up to the place from which the file is something else.
  lemma {:induction false} ScanAfter(cmds: seq<Argv>, tail: seq<byte>, known: Commands)
    requires AllPrintable(cmds) && AllKnown(cmds, known)
    ensures var r := Scan(tail, known);
      Scan(PrintLog(cmds) + tail, known) == Scanned(cmds + r.cmds, |PrintLog(cmds)| + r.used, r.end)
    decreases |cmds|
  {
    hide PrintCommand, Scan, Printable;
    var r := Scan(tail, known);
    if cmds == [] {
      assert PrintLog(cmds) + tail == tail;
      assert cmds + r.cmds == r.cmds;
    } else {
      var rest := PrintLog(cmds[1..]) + tail;
      assert PrintLog(cmds) + tail == PrintCommand(cmds[0]) + rest;
      ScanFirst(cmds[0], rest, known);
      ScanAfter(cmds[1..], tail, known);
      assert [cmds[0]] + (cmds[1..] + r.cmds) == cmds + r.cmds;
    }
  }

  lemma ScanFirst(argv: Argv, rest: seq<byte>, known: Commands)
    requires Printable(argv)
    requires known(argv[0])
    ensures var r := Scan(rest, known);
      Scan(PrintCommand(argv) + rest, known) == Scanned([argv] + r.cmds, |PrintCommand(argv)| + r.used, r.end)
  {
    hide PrintCommand, ReadCommand;
    WholeCommand(argv, rest);
  }

  // A line of text that fgets takes whole
  predicate IsLine(s: seq<byte>) {
    1 <= |s| < LINE_BUFFER - 1 && s[|s| - 1] == LF && forall i :: 0 <= i < |s| - 1 ==> s[i] != LF
  }

  // The three ways in which bytes that are not there by a cut fail to be a command: another
  // mark, a count below one, and an argument that lacks its mark.
  ghost predicate Damage(bad: seq<byte>) {
    || (bad != [] && bad[0] != STAR)
    || (exists line, t :: bad == line + t && IsLine(line) && |line| >= 2 && line[0] == STAR && Strtol(line[1..]) < 1)
    || (exists n: nat, argv, t :: bad == MissingMark(n, argv, t) && IsMissingMark(n, argv, t))
  }

  function MissingMark(n: nat, argv: Argv, t: seq<byte>): seq<byte> { Header(STAR, n) + PrintArgs(argv) + t }

  predicate IsMissingMark(n: nat, argv: Argv, t: seq<byte>) {
    && |argv| < n < INT_LIMIT && (forall j :: 0 <= j < |argv| ==> |argv[j]| < LONG_LIMIT)
    && t != [] && t[0] != DOLLAR
  }

  // Damage is reported, with whatever settings, after the commands before it: the
  // process ends and the file is left as it is.
  lemma DamageExits(cmds: seq<Argv>, bad: seq<byte>, known: Commands, loadTruncated: bool, truncates: bool)
    requires AllPrintable(cmds) && AllKnown(cmds, known) && Damage(bad)
    ensures Outcome(PrintLog(cmds) + bad, known, loadTruncated, truncates) == Exit(cmds, BadFormat)
  {
    hide ReadCommand, PrintLog, Damage;
    DamageIsBad(bad);
    ScanAfter(cmds, bad, known);
    assert cmds + [] == cmds;
  }

  lemma DamageIsBad(bad: seq<byte>)
    requires Damage(bad)
    ensures bad != [] && ReadCommand(bad) == Bad
  {
    hide Strtol, ReadArgs, PrintArgs, Header, IsLine, LineLength, ReadCommand;
    if bad != [] && bad[0] != STAR {
      OtherMark(bad);
    } else if line, t :| bad == line + t && IsLine(line) && |line| >= 2 && line[0] == STAR && Strtol(line[1..]) < 1 {
      LowCount(line, t);
    } else {
      var n: nat, argv, t :| bad == MissingMark(n, argv, t) && IsMissingMark(n, argv, t);
      NoMark(n, argv, t);
    }
  }

  lemma OtherMark(bad: seq<byte>)
    requires bad != [] && bad[0] != STAR
    ensures ReadCommand(bad) == Bad
  {
    hide Strtol, ReadArgs;
    LineSome(bad);
  }

  lemma LowCount(line: seq<byte>, t: seq<byte>)
    requires IsLine(line) && |line| >= 2 && line[0] == STAR && Strtol(line[1..]) < 1
    ensures ReadCommand(line + t) == Bad
  {
    hide Strtol, ReadArgs;
    var n := |line| - 1;
    assert line == line[..n] + [LF];
    assert line + t == line[..n] + [LF] + t;
    LineOf(line[..n], t, LINE_BUFFER - 1);
    assert Line(line + t) == line;
  }

  lemma NoMark(n: nat, argv: Argv, t: seq<byte>)
    requires IsMissingMark(n, argv, t)
    ensures ReadCommand(MissingMark(n, argv, t)) == Bad
  {
    hide Line, AfterLine, Header, Strtol, ReadArgs, PrintArgs;
    var u := PrintArgs(argv) + t;
    assert MissingMark(n, argv, t) == Header(STAR, n) + u;
    MarkFirst(STAR, n);
    WholeHeader(STAR, n, u);
    NotNul(Header(STAR, n));
    NoMarkArgs(n, argv, t);
  }

  lemma OtherArgMark(t: seq<byte>)
    requires t != [] && t[0] != DOLLAR
    ensures ReadArg(t) == Bad
  {
    hide Strtol;
    LineSome(t);
  }

  lemma {:induction false} NoMarkArgs(n: nat, argv: Argv, t: seq<byte>)
    requires IsMissingMark(n, argv, t)
    ensures ReadArgs(PrintArgs(argv) + t, n) == Bad
    decreases |argv|
  {
    hide PrintArg, ReadArg;
    if argv == [] {
      assert PrintArgs(argv) + t == t;
      OtherArgMark(t);
    } else {
      var u := PrintArgs(argv[1..]) + t;
      assert PrintArgs(argv) + t == PrintArg(argv[0]) + u;
      WholeArg(argv[0], u);
      NoMarkArgs(n - 1, argv[1..], t);
    }
  }

  // So is a command that the server does not have.
  lemma UnknownExits(cmds: seq<Argv>, argv: Argv, t: seq<byte>, known: Commands, loadTruncated: bool, truncates: bool)
    requires Printable(argv) && !known(argv[0])
    requires AllPrintable(cmds) && AllKnown(cmds, known)
    ensures Outcome(PrintLog(cmds) + (PrintCommand(argv) + t), known, loadTruncated, truncates) == Exit(cmds, Unknown)
  {
    hide ReadCommand, PrintLog, PrintCommand;
    WholeCommand(argv, t);
    ScanAfter(cmds, PrintCommand(argv) + t, known);
    assert cmds + [] == cmds;
  }

  // And so is a cut inside a command, unless the file may be and can be truncated. A cut
  // between two commands goes unnoticed.
  lemma CutOutcome(cmds: seq<Argv>, k: nat, known: Commands, loadTruncated: bool, truncates: bool)
    requires AllPrintable(cmds) && AllKnown(cmds, known) && k <= |PrintLog(cmds)|
    ensures var m := Whole(cmds, k); var kept := |PrintLog(cmds[..m])|;
      Outcome(PrintLog(cmds)[..k], known, loadTruncated, truncates) ==
        if k == 0 then Empty
        else if kept == k || (loadTruncated && truncates) then Loaded(cmds[..m], kept)
        else Exit(cmds[..m], Cut)
  {
    hide Scan, PrintLog, Whole, AllPrintable, AllKnown;
    ScanPrefix(cmds, k, known);
  }

  lemma ScanLog(cmds: seq<Argv>, known: Commands)
    requires AllPrintable(cmds) && AllKnown(cmds, known)
    ensures Scan(PrintLog(cmds), known) == Scanned(cmds, |PrintLog(cmds)|, Eof)
  {
    hide Scan, AllKnown, AllPrintable, PrintLog;
    ScanPrefix(cmds, |PrintLog(cmds)|, known);
    AllWhole(cmds);
    assert cmds[..|cmds|] == cmds;
    assert PrintLog(cmds)[..|PrintLog(cmds)|] == PrintLog(cmds);
  }

  lemma {:induction false} AllWhole(cmds: seq<Argv>)
    ensures Whole(cmds, |PrintLog(cmds)|) == |cmds|
    decreases |cmds|
  {
    hide PrintCommand;
    if cmds != [] { AllWhole(cmds[1..]); }
  }
}
