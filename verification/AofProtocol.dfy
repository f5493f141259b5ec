// The append only file over whole runs: what is fed, flushed, and rewritten in
// the background, against the dataset a replay of the log must rebuild.
module AofProtocol {
  import opened AofFormat
  import L = AofLoader

  // ---- replay ----

  type Data(==, !new)

  // The effect of one command on the dataset with one database selected.
  type Effect = (Data, nat, Argv) -> Data

  const SELECT: Arg := [83, 69, 76, 69, 67, 84]

  function Select(db: nat): Argv { [SELECT, Digits(db)] }

  predicate IsSelect(argv: Argv) { |argv| == 2 && argv[0] == SELECT }

  // The client that replays the log: the dataset and the database it has selected.
  datatype Client = Client(data: Data, db: nat)

  function Execute(c: Client, argv: Argv, effect: Effect): Client {
    if IsSelect(argv) then Client(c.data, Unsigned(argv[1]))
    else Client(effect(c.data, c.db, argv), c.db)
  }

  function Replay(c: Client, log: seq<Argv>, effect: Effect): Client {
    if log == [] then c else Execute(Replay(c, log[..|log| - 1], effect), log[|log| - 1], effect)
  }

  lemma {:induction false} ReplayConcat(c: Client, xs: seq<Argv>, ys: seq<Argv>, effect: Effect)
    ensures Replay(c, xs + ys, effect) == Replay(Replay(c, xs, effect), ys, effect)
    decreases |ys|
  {
    hide Execute;
    if ys == [] {
      assert xs + ys == xs;
    } else {
      var n := |ys| - 1;
      assert (xs + ys)[..|xs| + n] == xs + ys[..n];
      ReplayConcat(c, xs, ys[..n], effect);
    }
  }

  lemma SelectSelects(c: Client, db: nat, effect: Effect)
    ensures Execute(c, Select(db), effect) == Client(c.data, db)
  {
    hide Digits, DigitRun;
    DigitsAreDigits(db);
    DigitRunOf(Digits(db), []);
    assert Digits(db) + [] == Digits(db);
    assert Digits(db)[..|Digits(db)|] == Digits(db);
  }

  // Commands that leave the selected database alone, as everything that is fed does.
  predicate Plain(cmds: seq<Argv>) {
    AllPrintable(cmds) && forall i :: 0 <= i < |cmds| ==> !IsSelect(cmds[i])
  }

  lemma {:induction false} PlainReplay(c: Client, cmds: seq<Argv>, effect: Effect)
    requires Plain(cmds)
    ensures Replay(c, cmds, effect).db == c.db
    decreases |cmds|
  {
    if cmds != [] { PlainReplay(c, cmds[..|cmds| - 1], effect); }
  }

  // ---- the state ----

  datatype AofState = Off | WaitRewrite | On

  datatype Phase = Working | AskedToStop | Acked

  // The rewriting child: what it dumps, what it has read from the parent so far.
  datatype Child = None
    | Running(snapshot: seq<byte>, received: seq<byte>, phase: Phase)
    | Exited(temp: seq<byte>)
    | Failed

  datatype World = World(
    state: AofState,
    fd: bool,              // aof_fd is not -1
    file: seq<byte>,       // the append only file
    buf: seq<byte>,        // aof_buf
    size: nat,             // aof_current_size
    selected: int,         // aof_selected_db, -1 when unknown
    diff: seq<byte>,       // the rewrite buffer
    stop: bool,            // aof_stop_sending_diff
    child: Child,
    pipe: seq<byte>,       // bytes in flight to the child
    asked: bool,           // the child's '!' is in its pipe
    acked: bool,           // the parent's '!' is in its pipe
    data: Data)

  // feedAppendOnlyFile, for commands already translated to what is logged
  function FeedCommands(selected: int, db: nat, cmds: seq<Argv>): seq<Argv> {
    (if db != selected then [Select(db)] else []) + cmds
  }

  function Feed(w: World, db: nat, cmds: seq<Argv>, effect: Effect): World {
    var data := Replay(Client(w.data, db), cmds, effect).data;
    if w.state == Off then w.(data := data)
    else
      var bytes := PrintLog(FeedCommands(w.selected, db, cmds));
      w.(selected := db, data := data,
         buf := if w.state == On then w.buf + bytes else w.buf,
         diff := if w.child != None then w.diff + bytes else w.diff)
  }

  // flushAppendOnlyFile when write returns n and ftruncate succeeds or not
  datatype Files = Files(file: seq<byte>, buf: seq<byte>, size: nat)

  function FlushFiles(f: Files, n: int, truncates: bool): Files
    requires -1 <= n <= |f.buf|
  {
    var arrived := if n == -1 then f.file else f.file + f.buf[..n];
    if n == |f.buf| then Files(arrived, [], f.size + n)
    else if n == -1 then f
    else if truncates then
      f.(file := if f.size <= |arrived| then arrived[..f.size] else arrived + Zeros(f.size - |arrived|))
    else Files(arrived, f.buf[n..], f.size + n)
  }

  // Growing a file with ftruncate fills it with zero bytes.
  function Zeros(n: nat): seq<byte> { seq(n, i => 0) }

  // How much of a write of m bytes stays: all of it if it was whole, none if it failed or was
  // undone, and otherwise the part that arrived.
  function Kept(n: int, m: nat, truncates: bool): nat
    requires -1 <= n <= m
  {
    if n == m || (n > 0 && !truncates) then n else 0
  }

  // No outcome of the write or of the truncation loses or repeats a byte.
  lemma FlushConserves(f: Files, n: int, truncates: bool)
    requires -1 <= n <= |f.buf| && f.size == |f.file|
    ensures var g := FlushFiles(f, n, truncates);
      && g.file + g.buf == f.file + f.buf && g.size == |g.file| && f.file <= g.file
      && |g.file| == |f.file| + Kept(n, |f.buf|, truncates)
  {
    if n != -1 {
      assert f.buf == f.buf[..n] + f.buf[n..];
      assert (f.file + f.buf[..n])[..f.size] == f.file;
    }
  }

  function Flush(w: World, n: int, truncates: bool): World
    requires -1 <= n <= |w.buf|
  {
    var g := FlushFiles(Files(w.file, w.buf, w.size), n, truncates);
    w.(file := g.file, buf := g.buf, size := g.size)
  }

  // aofCreatePipes: three new pipes, and the sending may begin
  function NewPipes(w: World): World { w.(pipe := [], asked := false, acked := false, stop := false) }

  // rewriteAppendOnlyFileBackground, once fork succeeded: the child will dump snapshot
  function Fork(w: World, snapshot: seq<byte>): World {
    NewPipes(w).(child := Running(snapshot, [], Working), selected := -1)
  }

  // backgroundRewriteDoneHandler after a successful write and rename
  function Install(w: World): World
    requires w.child.Exited?
  {
    CleanUp(Switch(w, w.child.temp + w.diff))
  }

  function Switch(w: World, file: seq<byte>): World {
    var v := if !w.fd then w.(file := file)
             else w.(file := file, selected := -1, size := |file|, buf := []);
    v.(state := if w.state == WaitRewrite then On else w.state)
  }

  function CleanUp(w: World): World {
    w.(child := None, diff := [], pipe := [], asked := false, acked := false)
  }

  // aofReadDiffFromParent takes k bytes off the pipe.
  function Read(w: World, k: nat): World
    requires w.child.Running? && k <= |w.pipe|
  {
    w.(child := w.child.(received := w.child.received + w.pipe[..k]), pipe := w.pipe[k..])
  }

  // The child writes its '!'.
  function Ask(w: World): World
    requires w.child.Running?
  {
    w.(child := w.child.(phase := AskedToStop), asked := true)
  }

  // aofChildPipeReadable reads the child's '!' and stops sending, and only then acknowledges.
  function Heed(w: World): World { w.(stop := true, asked := false) }

  function Acknowledge(w: World): World { w.(acked := true) }

  // The child reads the acknowledgement.
  function HearAck(w: World): World
    requires w.child.Running?
  {
    w.(child := w.child.(phase := Acked), acked := false)
  }

  // The child's last read, its file in place, exit(0)
  function Exit(w: World): World
    requires w.child.Running?
  {
    w.(child := Exited(w.child.snapshot + (w.child.received + w.pipe)), pipe := [])
  }

  // ---- runs ----

  datatype Event =
    | FeedEvent(db: nat, cmds: seq<Argv>)
    | FlushEvent(n: int, truncates: bool)
    | ForkEvent(log: seq<Argv>)              // the commands the child's dump consists of
    | SendEvent(k: nat)                      // aofChildWriteDiffData moves k bytes
    | ReadEvent(k: nat)                      // aofReadDiffFromParent takes k bytes
    | AskEvent                               // the child writes its '!'
    | HeedEvent                              // aofChildPipeReadable stops the sending
    | AckEvent                               // aofChildPipeReadable writes its '!'
    | AckedEvent                             // the child reads the '!' back
    | ExitEvent                              // final read, rename, exit(0)
    | FailEvent                              // exit(1), a signal, or a timeout
    | InstallEvent                           // the done handler, all calls succeeding
    | AbandonEvent                           // the done handler's error paths
    | StartEvent(log: seq<Argv>)             // startAppendOnly
    | NewPipesEvent                          // a rewrite that fails at the fork
    | OpenEvent(opens: bool)                 // startAppendOnly, when the rest of it fails
    | StopEvent(n: int, truncates: bool)     // stopAppendOnly

  // The dump rebuilds the dataset it was forked from.
  predicate Dumps(log: seq<Argv>, w: World, start: Client, effect: Effect) {
    AllPrintable(log) && Replay(start, log, effect).data == w.data
  }

  ghost predicate Enabled(w: World, e: Event, start: Client, effect: Effect) {
    match e
    case FeedEvent(db, cmds) => db < INT_LIMIT && Plain(cmds)
    case FlushEvent(n, truncates) => -1 <= n <= |w.buf| && w.state != Off
    case ForkEvent(log) => w.child == None && Dumps(log, w, start, effect)
    case SendEvent(k) => w.child != None && !w.stop && k <= |w.diff|
    case ReadEvent(k) => w.child.Running? && k <= |w.pipe|
    case AskEvent => w.child.Running? && w.child.phase == Working
    case HeedEvent => w.child != None && w.asked
    case AckEvent => w.child != None && w.stop && !w.acked
    case AckedEvent => w.child.Running? && w.child.phase == AskedToStop && w.acked
    case ExitEvent => w.child.Running? && w.child.phase == Acked
    case FailEvent => w.child.Running?
    case InstallEvent => w.child.Exited?
    case AbandonEvent => w.child.Exited? || w.child.Failed?
    case StartEvent(log) => w.state == Off && w.child == None && Dumps(log, w, start, effect)
    case NewPipesEvent => w.child == None
    case OpenEvent(opens) => w.state == Off
    case StopEvent(n, truncates) => w.state != Off && -1 <= n <= |w.buf|
  }

  function Step(w: World, e: Event, effect: Effect): World {
    match e
    case FeedEvent(db, cmds) => Feed(w, db, cmds, effect)
    case FlushEvent(n, truncates) => if -1 <= n <= |w.buf| then Flush(w, n, truncates) else w
    case ForkEvent(log) => Fork(w, PrintLog(log))
    case SendEvent(k) => if k <= |w.diff| then w.(pipe := w.pipe + w.diff[..k], diff := w.diff[k..]) else w
    case ReadEvent(k) => if w.child.Running? && k <= |w.pipe| then Read(w, k) else w
    case AskEvent => if w.child.Running? then Ask(w) else w
    case HeedEvent => Heed(w)
    case AckEvent => Acknowledge(w)
    case AckedEvent => if w.child.Running? then HearAck(w) else w
    case ExitEvent => if w.child.Running? then Exit(w) else w
    case FailEvent => w.(child := Failed)
    case InstallEvent => if w.child.Exited? then Install(w) else w
    case AbandonEvent => CleanUp(w)
    case StartEvent(log) => Fork(w, PrintLog(log)).(state := WaitRewrite, fd := true)
    case NewPipesEvent => NewPipes(w)
    case OpenEvent(opens) => w.(fd := opens)
    case StopEvent(n, truncates) =>
      var v := if -1 <= n <= |w.buf| then Flush(w, n, truncates) else w;
      CleanUp(v.(state := Off, fd := false, selected := -1))
  }

  // ---- what every reachable state satisfies ----

  // Ghost record: the commands of the current log, of the child's dump, and fed since the fork.
  datatype History = History(log: seq<Argv>, dump: seq<Argv>, fed: seq<Argv>)

  // Replaying the log gives the dataset, with the database the server thinks is selected.
  predicate Tracks(log: seq<Argv>, w: World, start: Client, effect: Effect) {
    var c := Replay(start, log, effect);
    c.data == w.data && (w.selected == -1 || c.db == w.selected)
  }

  predicate LogInv(w: World, h: History, start: Client, effect: Effect) {
    && AllPrintable(h.log)
    && (w.state == On ==>
      w.file + w.buf == PrintLog(h.log) && w.size == |w.file| && Tracks(h.log, w, start, effect))
  }

  predicate ChildInv(w: World, h: History, start: Client, effect: Effect) {
    && AllPrintable(h.dump) && AllPrintable(h.fed)
    && (w.child == None ==> w.diff == [])
    && (w.child.Running? ==>
      w.child.snapshot == PrintLog(h.dump) && w.child.received + w.pipe + w.diff == PrintLog(h.fed))
    && (w.child.Exited? ==> w.child.temp + w.diff == PrintLog(h.dump) + PrintLog(h.fed))
    && (w.child.Running? || w.child.Exited? ==>
      if w.state == Off then h.fed == [] else Tracks(h.dump + h.fed, w, start, effect))
  }

  // Nothing is sent once the child may have made its last read.
  predicate HandshakeInv(w: World) {
    && (w.acked ==> w.stop)
    && (w.child.Running? && w.child.phase == Acked ==> w.stop)
    && (w.child.Exited? ==> w.stop)
  }

  predicate Inv(w: World, h: History, start: Client, effect: Effect) {
    && -1 <= w.selected < INT_LIMIT && (w.state != Off ==> w.fd)
    && LogInv(w, h, start, effect) && ChildInv(w, h, start, effect) && HandshakeInv(w)
  }

  function NextHistory(w: World, h: History, e: Event): History {
    match e
    case FeedEvent(db, cmds) =>
      if w.state == Off then h
      else
        var more := FeedCommands(w.selected, db, cmds);
        h.(log := h.log + more, fed := h.fed + more)
    case ForkEvent(log) => h.(dump := log, fed := [])
    case StartEvent(log) => h.(dump := log, fed := [])
    case InstallEvent => h.(log := h.dump + h.fed)
    case _ => h
  }

  lemma SelectPrintable(db: nat)
    requires db < INT_LIMIT
    ensures Printable(Select(db))
  {
    hide Digits;
    LongDigits(db);
  }

  // Feeding a log the server tracks keeps tracking it: the SELECT is left out
  // only when the replaying client already has the database selected.
  lemma FeedTracks(log: seq<Argv>, w: World, db: nat, cmds: seq<Argv>, start: Client, effect: Effect)
    requires w.state != Off && Tracks(log, w, start, effect) && Plain(cmds) && db < INT_LIMIT
    ensures Tracks(log + FeedCommands(w.selected, db, cmds), Feed(w, db, cmds, effect), start, effect)
    ensures AllPrintable(FeedCommands(w.selected, db, cmds))
  {
    hide Digits, Printable, Execute, PrintLog;
    SelectPrintable(db);
    var more := FeedCommands(w.selected, db, cmds);
    var c := Replay(start, log, effect);
    ReplayConcat(start, log, more, effect);
    if db != w.selected {
      ReplayConcat(c, [Select(db)], cmds, effect);
      OneCommand(c, Select(db), effect);
      SelectSelects(c, db, effect);
    } else {
      assert more == cmds;
    }
    PlainReplay(Client(w.data, db), cmds, effect);
  }

  // A database is selected once: what is fed to the same one next goes into the log as it is.
  lemma SelectsOnce(w: World, db: nat, first: seq<Argv>, cmds: seq<Argv>, effect: Effect)
    requires w.state == On
    ensures var v := Feed(w, db, first, effect); Feed(v, db, cmds, effect).buf == v.buf + PrintLog(cmds)
    ensures w.selected != db ==> Feed(w, db, first, effect).buf == w.buf + PrintLog([Select(db)] + first)
  {
    assert [] + cmds == cmds;
  }

  lemma OneCommand(c: Client, argv: Argv, effect: Effect)
    ensures Replay(c, [argv], effect) == Execute(c, argv, effect)
  {
    hide Execute;
    assert [argv][..0] == [];
    assert Replay(c, [], effect) == c;
  }

  lemma PrintableConcat(xs: seq<Argv>, ys: seq<Argv>)
    requires AllPrintable(xs) && AllPrintable(ys)
    ensures AllPrintable(xs + ys)
  {}

  lemma FeedKeeps(w: World, h: History, db: nat, cmds: seq<Argv>, start: Client, effect: Effect)
    requires Inv(w, h, start, effect) && Plain(cmds) && db < INT_LIMIT
    ensures Inv(Feed(w, db, cmds, effect), NextHistory(w, h, FeedEvent(db, cmds)), start, effect)
  {
    hide Printable, AllPrintable, PrintLog, Replay, Plain;
    if w.state != Off {
      hide FeedCommands;
      var more := FeedCommands(w.selected, db, cmds);
      var v := Feed(w, db, cmds, effect);
      FeedPrintable(w.selected, db, cmds);
      PrintableConcat(h.log, more);
      PrintableConcat(h.fed, more);
      PrintLogConcat(h.log, more);
      PrintLogConcat(h.fed, more);
      if w.state == On {
        FeedTracks(h.log, w, db, cmds, start, effect);
        assert w.file + (w.buf + PrintLog(more)) == (w.file + w.buf) + PrintLog(more);
      }
      if w.child.Running? || w.child.Exited? {
        hide Tracks;
        FeedTracks(h.dump + h.fed, w, db, cmds, start, effect);
        assert h.dump + (h.fed + more) == h.dump + h.fed + more;
        if w.child.Running? {
          assert w.child.received + w.pipe + (w.diff + PrintLog(more)) ==
            (w.child.received + w.pipe + w.diff) + PrintLog(more);
        } else {
          assert w.child.temp + (w.diff + PrintLog(more)) == (w.child.temp + w.diff) + PrintLog(more);
          assert PrintLog(h.dump) + PrintLog(h.fed) + PrintLog(more) ==
            PrintLog(h.dump) + (PrintLog(h.fed) + PrintLog(more));
        }
      }
    }
  }

  lemma FeedPrintable(selected: int, db: nat, cmds: seq<Argv>)
    requires Plain(cmds) && db < INT_LIMIT
    ensures AllPrintable(FeedCommands(selected, db, cmds))
  {
    hide Printable;
    SelectPrintable(db);
  }

  lemma FlushKeeps(w: World, h: History, n: int, truncates: bool, start: Client, effect: Effect)
    requires Inv(w, h, start, effect) && -1 <= n <= |w.buf|
    ensures Inv(Flush(w, n, truncates), h, start, effect)
  {
    hide Printable, AllPrintable, PrintLog, Replay, FlushFiles;
    if w.state == On { FlushConserves(Files(w.file, w.buf, w.size), n, truncates); }
  }

  lemma ForkKeeps(w: World, h: History, log: seq<Argv>, start: Client, effect: Effect)
    requires Inv(w, h, start, effect) && w.child == None && Dumps(log, w, start, effect)
    ensures Inv(Fork(w, PrintLog(log)), h.(dump := log, fed := []), start, effect)
    ensures w.state == Off ==>
      Inv(Fork(w, PrintLog(log)).(state := WaitRewrite, fd := true), h.(dump := log, fed := []), start, effect)
  {
    hide Printable, Replay;
    assert log + [] == log;
  }

  // The rewritten file is the dump followed by every byte fed since the fork, in order,
  // wherever the split between what was sent and what was kept fell.
  lemma InstallExact(w: World, h: History, start: Client, effect: Effect)
    requires Inv(w, h, start, effect) && w.child.Exited?
    ensures Install(w).file == PrintLog(h.dump) + PrintLog(h.fed)
    ensures Install(w).file == PrintLog(h.dump + h.fed)
    ensures w.state != Off ==> Replay(start, h.dump + h.fed, effect).data == w.data
    ensures w.state == Off ==> Install(w).file == PrintLog(h.dump)
    ensures Install(w).state == if w.state == WaitRewrite then On else w.state
    ensures Install(w).child == None && Install(w).diff == [] && (w.fd ==> Install(w).buf == [])
  {
    hide Printable, AllPrintable, Replay;
    PrintLogConcat(h.dump, h.fed);
    assert PrintLog(h.dump) + [] == PrintLog(h.dump);
  }

  lemma InstallKeeps(w: World, h: History, start: Client, effect: Effect)
    requires Inv(w, h, start, effect) && w.child.Exited?
    ensures Inv(Install(w), h.(log := h.dump + h.fed), start, effect)
  {
    hide Printable, AllPrintable, PrintLog, Replay;
    InstallExact(w, h, start, effect);
    PrintableConcat(h.dump, h.fed);
    assert Install(w).file + [] == Install(w).file;
  }

  lemma ChildKeeps(w: World, h: History, e: Event, start: Client, effect: Effect)
    requires Inv(w, h, start, effect) && Enabled(w, e, start, effect)
    requires e.SendEvent? || e.ReadEvent? || e.AskEvent? || e.HeedEvent? || e.AckEvent?
      || e.AckedEvent? || e.ExitEvent? || e.FailEvent?
    ensures Inv(Step(w, e, effect), h, start, effect)
  {
    hide Printable, AllPrintable, PrintLog, Replay;
    if e.SendEvent? && w.child.Running? {
      assert w.diff == w.diff[..e.k] + w.diff[e.k..];
      assert w.child.received + (w.pipe + w.diff[..e.k]) + w.diff[e.k..] == w.child.received + w.pipe + w.diff;
    }
    if e.ReadEvent? {
      assert w.pipe == w.pipe[..e.k] + w.pipe[e.k..];
      assert (w.child.received + w.pipe[..e.k]) + w.pipe[e.k..] + w.diff == w.child.received + w.pipe + w.diff;
    }
    if e.ExitEvent? {
      assert (w.child.snapshot + (w.child.received + w.pipe)) + w.diff ==
        w.child.snapshot + (w.child.received + w.pipe + w.diff);
    }
  }

  lemma StepKeeps(w: World, h: History, e: Event, start: Client, effect: Effect)
    requires Inv(w, h, start, effect) && Enabled(w, e, start, effect)
    ensures Inv(Step(w, e, effect), NextHistory(w, h, e), start, effect)
  {
    hide Printable, AllPrintable, PrintLog, Replay, Feed, FlushFiles, Plain;
    match e {
      case FeedEvent(db, cmds) => FeedKeeps(w, h, db, cmds, start, effect);
      case FlushEvent(n, truncates) => FlushKeeps(w, h, n, truncates, start, effect);
      case ForkEvent(log) => ForkKeeps(w, h, log, start, effect);
      case StartEvent(log) => ForkKeeps(w, h, log, start, effect);
      case InstallEvent => InstallKeeps(w, h, start, effect);
      case AbandonEvent =>
      case NewPipesEvent =>
      case OpenEvent(opens) =>
      case StopEvent(n, truncates) => FlushKeeps(w, h, n, truncates, start, effect);
      case _ => ChildKeeps(w, h, e, start, effect);
    }
  }

  // The stop flag is what makes that so: a byte sent after the child's last read is lost.
  lemma SendAfterExitLoses(w: World, k: nat, effect: Effect)
    requires w.child.Exited? && 0 < k <= |w.diff|
    ensures Install(Step(w, SendEvent(k), effect)).file == w.child.temp + w.diff[k..]
    ensures Install(Step(w, SendEvent(k), effect)).file != Install(w).file
  {}

  // ---- whole runs ----

  function After(w: World, es: seq<Event>, effect: Effect): World {
    if es == [] then w else Step(After(w, es[..|es| - 1], effect), es[|es| - 1], effect)
  }

  function HistoryAfter(w: World, h: History, es: seq<Event>, effect: Effect): History {
    if es == [] then h
    else NextHistory(After(w, es[..|es| - 1], effect), HistoryAfter(w, h, es[..|es| - 1], effect), es[|es| - 1])
  }

  ghost predicate Possible(w: World, es: seq<Event>, start: Client, effect: Effect) {
    es == [] || (Possible(w, es[..|es| - 1], start, effect)
      && Enabled(After(w, es[..|es| - 1], effect), es[|es| - 1], start, effect))
  }

  lemma {:induction false} RunKeeps(w: World, h: History, es: seq<Event>, start: Client, effect: Effect)
    requires Inv(w, h, start, effect) && Possible(w, es, start, effect)
    ensures Inv(After(w, es, effect), HistoryAfter(w, h, es, effect), start, effect)
    decreases |es|
  {
    hide Inv, Step, NextHistory, Enabled;
    if es != [] {
      var n := |es| - 1;
      RunKeeps(w, h, es[..n], start, effect);
      StepKeeps(After(w, es[..n], effect), HistoryAfter(w, h, es[..n], effect), es[n], start, effect);
    }
  }

  // A server that has never logged anything.
  predicate Fresh(w: World) {
    w.state == Off && w.child == None && w.diff == [] && !w.acked && w.selected == -1
  }

  // A server that has just loaded its append only file and goes on logging to it.
  predicate Booted(w: World, log: seq<Argv>, start: Client, effect: Effect) {
    && w.state == On && w.fd && w.child == None && w.diff == [] && !w.acked && w.selected == -1
    && AllPrintable(log) && w.file == PrintLog(log) && w.buf == [] && w.size == |w.file|
    && w.data == Replay(start, log, effect).data
  }

  // Both ways to start satisfy the invariant; so, by RunKeeps, does every state in between.
  lemma Starts(w: World, log: seq<Argv>, start: Client, effect: Effect)
    ensures Fresh(w) ==> Inv(w, History([], [], []), start, effect)
    ensures Booted(w, log, start, effect) ==> Inv(w, History(log, [], []), start, effect)
  {
    hide Printable, PrintLog, Replay;
    if Booted(w, log, start, effect) { assert w.file + w.buf == w.file; }
  }

  // After any run from any state satisfying the invariant, when the log is on, loading what is
  // on disk and in the buffer runs the log, and the log replayed is the current dataset.
  lemma Recovery(w: World, h: History, es: seq<Event>, start: Client, effect: Effect, known: L.Commands)
    requires Inv(w, h, start, effect) && Possible(w, es, start, effect) && After(w, es, effect).state == On
    ensures var v, log := After(w, es, effect), HistoryAfter(w, h, es, effect).log;
      && v.file + v.buf == PrintLog(log) && Replay(start, log, effect).data == v.data && v.size == |v.file|
      && (log != [] && L.AllKnown(log, known) ==>
        L.Outcome(v.file + v.buf, known, true, true) == L.Loaded(log, |PrintLog(log)|))
      // A crash leaves the file alone: a prefix of the log is recovered.
      && (v.file != [] && L.AllKnown(log, known) ==>
        exists m :: 0 <= m <= |log| && L.Outcome(v.file, known, true, true) == L.Loaded(log[..m], |PrintLog(log[..m])|))
  {
    hide Replay, PrintLog, Printable, Step, Enabled, L.Outcome, L.AllKnown, Possible, After, HistoryAfter;
    RunKeeps(w, h, es, start, effect);
    var log := HistoryAfter(w, h, es, effect).log;
    var v := After(w, es, effect);
    if L.AllKnown(log, known) {
      if log != [] { L.LoadInvertsPrint(log, known, true, true); }
      if v.file != [] {
        assert v.file == PrintLog(log)[..|v.file|];
        L.TruncatedTail(log, |v.file|, known);
      }
    }
  }

  // The state after a crash and a start that loads the file: everything but the file is gone.
  function Reboot(w: World, cmds: seq<Argv>, used: nat, start: Client, effect: Effect): World
    requires used <= |w.file|
  {
    World(On, true, w.file[..used], [], used, -1, [], false, None, [], false, false, Replay(start, cmds, effect).data)
  }

  // A crash at any moment of a run leads back to a booted server, whose log is a
  // prefix of the one it had, so that the theorems here hold of it again.
  lemma CrashBoots(w: World, h: History, es: seq<Event>, start: Client, effect: Effect, known: L.Commands)
    requires Inv(w, h, start, effect) && Possible(w, es, start, effect) && After(w, es, effect).state == On
    requires After(w, es, effect).file != [] && L.AllKnown(HistoryAfter(w, h, es, effect).log, known)
    ensures var v := After(w, es, effect); var load := L.Outcome(v.file, known, true, true);
      && load.Loaded? && load.cmds <= HistoryAfter(w, h, es, effect).log && load.kept <= |v.file|
      && Booted(Reboot(v, load.cmds, load.kept, start, effect), load.cmds, start, effect)
  {
    hide Replay, PrintLog, Printable, Step, Enabled, L.Outcome, L.AllKnown, Possible, After, HistoryAfter, L.Whole;
    RunKeeps(w, h, es, start, effect);
    var log := HistoryAfter(w, h, es, effect).log;
    var v := After(w, es, effect);
    assert v.file == PrintLog(log)[..|v.file|];
    L.TruncatedTail(log, |v.file|, known);
  }
}
