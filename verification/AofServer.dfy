// The parent's and the child's side of the append only file, updated in place;
// every operation is proved against a step of AofProtocol.
module AofServer {
  import opened AofFormat
  import opened AofBuffer
  import P = AofProtocol

  datatype Fsync = Always | EverySec | No

  // The fixed text of a SELECT, as it is written without going through the printer.
  const SELECT_HEAD: seq<byte> := [42, 50, 13, 10, 36, 54, 13, 10, 83, 69, 76, 69, 67, 84, 13, 10, 36]

  lemma SelectText(db: nat)
    ensures SELECT_HEAD + Digits(|Digits(db)|) + CRLF + Digits(db) + CRLF == PrintCommand(P.Select(db))
  {
    hide Digits, PrintArgs, PrintArg;
    TwoArgs(P.SELECT, Digits(db));
    SelectParts();
    ArgText(Digits(db));
    Regroup(Header(STAR, 2), PrintArg(P.SELECT), Digits(|Digits(db)|), Digits(db));
  }

  lemma SelectParts()
    ensures SELECT_HEAD == Header(STAR, 2) + PrintArg(P.SELECT) + [DOLLAR]
  {
    hide Digits;
    SmallDigits();
    assert Header(STAR, 2) == [42, 50, 13, 10];
    assert PrintArg(P.SELECT) == [36, 54, 13, 10, 83, 69, 76, 69, 67, 84, 13, 10];
  }

  lemma ArgText(a: Arg)
    ensures PrintArg(a) == [DOLLAR] + Digits(|a|) + CRLF + a + CRLF
  {
    hide Digits;
  }

  lemma Regroup(a: seq<byte>, b: seq<byte>, c: seq<byte>, d: seq<byte>)
    ensures a + b + [DOLLAR] + c + CRLF + d + CRLF == a + (b + ([DOLLAR] + c + CRLF + d + CRLF))
  {}

  lemma TwoArgs(a: Arg, b: Arg)
    ensures PrintArgs([a, b]) == PrintArg(a) + PrintArg(b)
  {
    hide PrintArg;
    assert [a, b][1..] == [b] && [b][1..] == [];
    assert PrintArgs([b]) == PrintArg(b) + [];
  }

  lemma SmallDigits()
    ensures Digits(2) == [50] && Digits(6) == [54]
  {}

  const BANG: byte := 33

  // The bytes in flight in the three pipes of a rewrite.
  class Pipes {
    var data: seq<byte>    // parent to child: the differences
    var asks: seq<byte>    // child to parent: the wish that nothing more be sent
    var acks: seq<byte>    // parent to child: the answer

    constructor ()
      ensures data == [] && asks == [] && acks == []
    {
      data, asks, acks := [], [], [];
    }

    predicate Carries(w: P.World)
      reads this
    {
      && w.pipe == data
      && asks == (if w.asked then [BANG] else [])
      && acks == (if w.acked then [BANG] else [])
    }
  }

  class AofServer {
    var state: P.AofState
    var fd: bool                 // aof_fd != -1
    var file: seq<byte>          // what the descriptor of the append only file holds
    var buf: seq<byte>
    var size: nat
    var selected: int
    const rewriteBuf: RewriteBuffer
    var childRunning: bool       // aof_child_pid != -1
    var pipes: Pipes?
    var askHandler: bool         // the event that reads the child's '!' is installed
    var stop: bool
    var sendHandler: bool        // the event that drains the rewrite buffer is installed
    var fsync: Fsync
    var postponedStart: nat
    var delayedFsync: nat
    var writeOk: bool            // aof_last_write_status

    ghost predicate Valid()
      reads this`childRunning, this`pipes, this`askHandler, rewriteBuf, rewriteBuf.repr
    {
      && rewriteBuf.Valid() && pipes !in rewriteBuf.repr
      && (childRunning ==> pipes != null) && (askHandler ==> pipes != null)
    }

    // Nothing is left of a rewrite when no child runs, and no
    // acknowledgement is in the pipe unless the sending has stopped.
    ghost predicate Orderly()
      reads this`childRunning, this`pipes, this`askHandler, this`stop, pipes, rewriteBuf, rewriteBuf.repr
      requires Valid()
    {
      && (!childRunning ==> rewriteBuf.Contents() == [])
      && (pipes != null && !childRunning ==> pipes.data == [] && pipes.asks == [] && pipes.acks == [])
      && (pipes != null && (askHandler || !stop) ==> pipes.acks == [])
    }

    // The part of the state that has to do with a rewrite
    ghost predicate Rewriting(w: P.World)
      reads this`childRunning, this`pipes, this`askHandler, this`stop, pipes, rewriteBuf, rewriteBuf.repr
    {
      && Valid() && Orderly()
      && w.diff == rewriteBuf.Contents() && w.stop == stop && (w.child != P.None <==> childRunning)
      && (if pipes == null then w.pipe == [] && !w.asked && !w.acked else pipes.Carries(w))
    }

    // The part that has to do with the log
    predicate Logging(w: P.World)
      reads this`state, this`fd, this`file, this`buf, this`size, this`selected
    {
      && w.state == state && w.fd == fd && w.file == file && w.buf == buf && w.size == size
      && w.selected == selected
    }

    ghost predicate Matches(w: P.World)
      reads this, pipes, rewriteBuf, rewriteBuf.repr
    {
      this !in rewriteBuf.repr && Logging(w) && Rewriting(w)
    }

    // Rewriting looks at the part of the world it is named after.
    lemma SameRewriting(w: P.World, v: P.World)
      requires Rewriting(w)
      requires v.diff == w.diff && v.stop == w.stop && v.child == w.child && v.pipe == w.pipe
      requires v.asked == w.asked && v.acked == w.acked
      ensures Rewriting(v)
    {
      hide Valid, Orderly, RewriteBuffer.Contents;
    }

    // A server that has never logged anything.
    constructor (existing: seq<byte>, fsync: Fsync, data: P.Data)
      ensures Matches(P.World(P.Off, false, existing, [], 0, -1, [], false, P.None, [], false, false, data))
      ensures this.fsync == fsync && postponedStart == 0 && delayedFsync == 0 && writeOk && !sendHandler
        && pipes == null
    {
      state, fd, file, buf, size, selected := P.Off, false, existing, [], 0, -1;
      rewriteBuf := new RewriteBuffer();
      childRunning, stop, sendHandler, pipes, askHandler := false, false, false, null, false;
      this.fsync := fsync;
      postponedStart, delayedFsync, writeOk := 0, 0, true;
    }

    // feedAppendOnlyFile; cmds is the command after the translation of expire times
    method Feed(db: nat, cmds: seq<Argv>, ghost w: P.World, ghost effect: P.Effect)
      requires Matches(w) && state != P.Off
      modifies this, rewriteBuf, rewriteBuf.repr
      ensures Matches(P.Feed(w, db, cmds, effect)) && fresh(rewriteBuf.repr - old(rewriteBuf.repr))
      ensures var bytes := PrintLog(P.FeedCommands(w.selected, db, cmds));
        buf == if state == P.On then old(buf) + bytes else old(buf)
      ensures childRunning ==> sendHandler
    {
      hide PrintLog, P.Replay, P.FeedCommands, Rewriting, Valid, Orderly, RewriteBuffer.Contents, RewriteBuffer.Valid;
      var bytes := FeedBytes(selected, db, cmds);
      ghost var v := P.Feed(w, db, cmds, effect);
      FeedDiff(bytes, w);
      selected := db;
      if state == P.On { buf := buf + bytes; }
      SameRewriting(w.(diff := if w.child != P.None then w.diff + bytes else w.diff), v);
    }

    // The part of it for a rewrite that is going on
    method FeedDiff(bytes: seq<byte>, ghost w: P.World)
      requires Matches(w)
      modifies this`sendHandler, rewriteBuf, rewriteBuf.repr
      ensures Matches(w.(diff := if w.child != P.None then w.diff + bytes else w.diff))
      ensures fresh(rewriteBuf.repr - old(rewriteBuf.repr)) && (childRunning ==> sendHandler)
    {
      hide RewriteBuffer.Pieces, RewriteBuffer.Contents, RewriteBuffer.Valid;
      if childRunning {
        rewriteBuf.Append(bytes);
        sendHandler := true;
      }
    }

    // The log and its buffer after a write
    method SetFiles(f: P.Files, ghost w: P.World)
      requires Matches(w)
      modifies this`file, this`buf, this`size
      ensures Matches(w.(file := f.file, buf := f.buf, size := f.size))
      ensures file == f.file && buf == f.buf && size == f.size
    {
      hide Rewriting, Valid, Orderly, Pipes.Carries, RewriteBuffer.Contents, RewriteBuffer.Valid;
      file, buf, size := f.file, f.buf, f.size;
      SameRewriting(w, w.(file := f.file, buf := f.buf, size := f.size));
    }

    // The write of flushAppendOnlyFile: n is what write(2) returns, truncated whether
    // ftruncate(2) can undo a short write.
    method WriteOut(n: int, truncated: bool, ghost w: P.World) returns (exits: bool)
      requires Matches(w) && -1 <= n <= |buf|
      modifies this`file, this`buf, this`size, this`postponedStart, this`writeOk
      ensures Matches(P.Flush(w, n, truncated)) && postponedStart == 0
      ensures n == |w.buf| ==> writeOk && buf == [] && !exits
      ensures n < |w.buf| ==> (exits <==> fsync == Always) && (!exits ==> !writeOk)
      ensures old(size) == |old(file)| ==>
        file + buf == old(file) + old(buf) && size == |file| == |old(file)| + P.Kept(n, |w.buf|, truncated)
    {
      hide P.FlushFiles, Rewriting, Valid, Orderly, Pipes.Carries, RewriteBuffer.Pieces, RewriteBuffer.Contents,
        RewriteBuffer.Valid;
      var f := P.Files(file, buf, size);
      var g := WriteBuffer(f, n, truncated);
      if size == |file| { P.FlushConserves(f, n, truncated); }
      SetFiles(g, w);
      postponedStart := 0;
      exits := false;
      if n != |f.buf| {
        if fsync == Always { exits := true; } else { writeOk := false; }
      } else {
        writeOk := true;
      }
    }

    // flushAppendOnlyFile; n and truncated are the results of its system calls, if it makes them
    method Flush(force: bool, syncInProgress: bool, now: nat, n: int, truncated: bool, ghost w: P.World)
      returns (action: Action)
      requires Matches(w) && -1 <= n <= |buf|
      modifies this`file, this`buf, this`size, this`postponedStart, this`delayedFsync, this`writeOk
      ensures action.Idle? <==> old(buf) == []
      ensures action.Postponed? <==>
        old(buf) != [] && !force && fsync == EverySec && syncInProgress
        && (old(postponedStart) == 0 || now < old(postponedStart) + 2)
      ensures !action.Wrote? ==> Matches(w) && writeOk == old(writeOk)
      ensures action.Postponed? ==> postponedStart == if old(postponedStart) == 0 then now else old(postponedStart)
      ensures action.Wrote? ==>
        && Matches(P.Flush(w, n, truncated)) && postponedStart == 0
        && (n == |w.buf| ==> writeOk && buf == [] && !action.exits)
        && (n < |w.buf| ==> (action.exits <==> fsync == Always) && (!action.exits ==> !writeOk))
      ensures old(size) == |old(file)| ==> file + buf == old(file) + old(buf) && size == |file|
      ensures old(size) == |old(file)| ==>
        |file| == |old(file)| + if action.Wrote? then P.Kept(n, |w.buf|, truncated) else 0
      ensures delayedFsync == old(delayedFsync) +
        if action.Wrote? && !force && fsync == EverySec && syncInProgress then 1 else 0
    {
      hide P.FlushFiles, P.Flush, Rewriting, Valid, Orderly, Pipes.Carries, RewriteBuffer.Pieces,
        RewriteBuffer.Contents, RewriteBuffer.Valid;
      if buf == [] { return Idle; }
      var sync := fsync == EverySec && syncInProgress;
      if fsync == EverySec && !force {
        if sync {
          if postponedStart == 0 {
            postponedStart := now;
            return Postponed;
          } else if now - postponedStart < 2 {
            return Postponed;
          }
          delayedFsync := delayedFsync + 1;
        }
      }
      var exits := WriteOut(n, truncated, w);
      action := Wrote(exits);
    }

    // aofChildWriteDiffData: k bytes move from the rewrite buffer to the pipe
    method SendDiff(results: Results, ghost w: P.World) returns (ghost k: nat, ghost calls: nat)
      requires Matches(w) && childRunning
      modifies this`sendHandler, pipes`data, rewriteBuf, rewriteBuf.repr
      ensures k <= |w.diff| && Matches(w.(pipe := w.pipe + w.diff[..k], diff := w.diff[k..]))
      ensures stop ==> k == 0 && !sendHandler
      ensures !sendHandler && !stop ==> k == |w.diff|
      // Every write before the last takes something, and only one that takes nothing leaves something for later.
      ensures calls <= k && (forall j :: 0 <= j < calls ==> results(j) > 0) && (sendHandler ==> results(calls) <= 0)
    {
      hide Rewriting, Valid, Orderly, Pipes.Carries, RewriteBuffer.Contents, RewriteBuffer.Valid;
      var out, installed;
      ghost var diff;
      out, installed, calls, diff := Drain(results, w);
      sendHandler := installed;
      k := |out| - |w.pipe|;
      ghost var v := w.(pipe := out, diff := diff);
      assert k <= |w.diff| && v == w.(pipe := w.pipe + w.diff[..k], diff := w.diff[k..]) by {
        SplitStream(w.pipe, out, w.diff, diff);
      }
      SetData(out, v);
    }

    // The part of it that empties the rewrite buffer: out is the pipe with what was written, diff what is left.
    method Drain(results: Results, ghost w: P.World)
      returns (out: seq<byte>, installed: bool, ghost calls: nat, ghost diff: seq<byte>)
      requires Matches(w) && childRunning
      modifies rewriteBuf, rewriteBuf.repr
      ensures pipes != null && Matches(w.(pipe := pipes.data, diff := diff))
      ensures w.pipe <= out && out + diff == w.pipe + w.diff
      ensures stop ==> out == w.pipe && !installed
      ensures !installed && !stop ==> diff == []
      ensures calls <= |out| - |w.pipe| && (forall j :: 0 <= j < calls ==> results(j) > 0)
      ensures installed ==> results(calls) <= 0
    {
      hide RewriteBuffer.Pieces, RewriteBuffer.Contents, RewriteBuffer.Valid;
      assert Valid();
      out, installed, calls := rewriteBuf.WriteDiffData(pipes.data, stop, results);
      if !installed && !stop { rewriteBuf.EmptyContents(); }
      diff := rewriteBuf.Contents();
    }

    // The pipe's new contents
    method SetData(out: seq<byte>, ghost w: P.World)
      requires pipes != null && Matches(w.(pipe := pipes.data)) && w.pipe == out && childRunning
      modifies pipes`data
      ensures Matches(w)
    {
      hide RewriteBuffer.Pieces, RewriteBuffer.Contents, RewriteBuffer.Valid;
      pipes.data := out;
    }

    // aofChildPipeReadable: the child's '!' stops the sending, and only then is answered.
    method PipeReadable(writes: bool, ghost w: P.World) returns (heard: bool)
      requires Matches(w) && childRunning && askHandler
      modifies this`stop, this`askHandler, pipes`asks, pipes`acks
      ensures !askHandler && heard == w.asked
      ensures !heard ==> Matches(w)
      ensures heard && !writes ==> Matches(P.Heed(w))
      ensures heard && writes ==> Matches(P.Acknowledge(P.Heed(w)))
    {
      hide RewriteBuffer.Pieces, RewriteBuffer.Contents, RewriteBuffer.Valid;
      heard := false;
      if pipes.asks != [] {
        var b := pipes.asks[0];
        pipes.asks := pipes.asks[1..];
        if b == BANG {
          heard, stop := true, true;
          askHandler := false;
          SendAck(writes, P.Heed(w));
        }
      }
      askHandler := false;
    }

    // The write of the answer, which may fail; it is for a parent that has stopped.
    method SendAck(writes: bool, ghost w: P.World)
      requires Matches(w) && childRunning && !askHandler && stop && pipes.acks == []
      modifies pipes`acks
      ensures Matches(if writes then P.Acknowledge(w) else w)
    {
      hide RewriteBuffer.Pieces, RewriteBuffer.Contents, RewriteBuffer.Valid;
      if writes { pipes.acks := pipes.acks + [BANG]; }
    }

    // rewriteAppendOnlyFileBackground in the parent; snapshot is what the child will dump
    method RewriteBackground(pipesOk: bool, forkOk: bool, ghost snapshot: seq<byte>, ghost w: P.World)
      returns (ok: bool)
      requires Matches(w)
      modifies this`stop, this`childRunning, this`selected, this`pipes, this`askHandler
      ensures ok == (!old(childRunning) && pipesOk && forkOk)
      ensures ok ==> Matches(P.Fork(w, snapshot)) && fresh(pipes) && askHandler
      ensures ok ==> childRunning && !stop && selected == -1
      ensures !ok ==> Matches(if old(childRunning) || !pipesOk then w else P.NewPipes(w))
    {
      hide RewriteBuffer.Pieces, RewriteBuffer.Contents, RewriteBuffer.Valid;
      if childRunning { return false; }
      if !pipesOk { return false; }
      pipes := new Pipes();
      askHandler, stop := true, false;
      if !forkOk { return false; }
      childRunning := true;
      selected := -1;
      ok := true;
    }

    // startAppendOnly
    method StartAppendOnly(opens: bool, pipesOk: bool, forkOk: bool, ghost snapshot: seq<byte>, ghost w: P.World)
      returns (ok: bool)
      requires Matches(w) && state == P.Off
      modifies this`state, this`fd, this`stop, this`childRunning, this`selected, this`pipes, this`askHandler
      ensures ok == (opens && !old(childRunning) && pipesOk && forkOk)
      ensures ok ==> Matches(P.Fork(w, snapshot).(state := P.WaitRewrite, fd := true))
      ensures state == if ok then P.WaitRewrite else P.Off
      ensures !opens ==> Matches(w.(fd := false))
      ensures opens && !ok ==>
        Matches((if old(childRunning) || !pipesOk then w else P.NewPipes(w)).(fd := true))
    {
      hide RewriteBuffer.Pieces, RewriteBuffer.Contents, RewriteBuffer.Valid;
      fd := opens;
      if !opens { return false; }
      ok := RewriteBackground(pipesOk, forkOk, snapshot, w.(fd := true));
      if ok { state := P.WaitRewrite; }
    }

    // The cleanup label of backgroundRewriteDoneHandler
    method CleanUp(ghost w: P.World)
      requires Matches(w)
      modifies this`childRunning, this`sendHandler, this`askHandler, this`pipes, rewriteBuf
      ensures Matches(P.CleanUp(w)) && !sendHandler && pipes == null && !childRunning && rewriteBuf.repr == {}
    {
      hide RewriteBuffer.Pieces, RewriteBuffer.Contents, RewriteBuffer.Valid;
      sendHandler, askHandler, pipes := false, false, null;
      rewriteBuf.Reset();
      childRunning := false;
    }

    // The log goes on in the rewritten file.
    method Switch(rewritten: seq<byte>, ghost w: P.World)
      requires Matches(w)
      modifies this`state, this`file, this`buf, this`size, this`selected
      ensures Matches(P.Switch(w, rewritten))
      ensures file == rewritten && state == if w.state == P.WaitRewrite then P.On else w.state
    {
      hide Rewriting, Valid, Orderly, Pipes.Carries, RewriteBuffer.Pieces, RewriteBuffer.Contents, RewriteBuffer.Valid;
      if !fd {
        file := rewritten;
      } else {
        file := rewritten;
        selected := -1;
        size := |file|;
        buf := [];
      }
      if state == P.WaitRewrite { state := P.On; }
      SameRewriting(w, P.Switch(w, rewritten));
    }

    // backgroundRewriteDoneHandler: temp is the file the child left
    method RewriteDone(success: bool, temp: seq<byte>, opens: bool, results: Results, renames: bool, ghost w: P.World)
      returns (installed: bool)
      requires Matches(w)
      requires success ==> w.child == P.Exited(temp)
      modifies this, rewriteBuf
      ensures installed <==> success && opens && old(rewriteBuf.AllTaken(results)) && renames
      ensures if installed then Matches(P.Install(w)) else Matches(P.CleanUp(w))
      ensures installed ==> file == temp + w.diff && state == if w.state == P.WaitRewrite then P.On else w.state
      ensures !installed ==> file == w.file && buf == w.buf && state == w.state
      ensures !childRunning && pipes == null
    {
      hide Valid, Orderly, Pipes.Carries, RewriteBuffer.Pieces, RewriteBuffer.Contents, RewriteBuffer.Valid, P.CleanUp,
        P.Switch;
      installed := false;
      if success && opens {
        DiffValid(w);
        var count, rewritten := rewriteBuf.WriteAll(temp, results);
        if count != -1 && renames {
          Switch(rewritten, w);
          installed := true;
          CleanUp(P.Switch(w, rewritten));
          return;
        }
      }
      CleanUp(w);
    }

    lemma DiffValid(w: P.World)
      requires Matches(w)
      ensures rewriteBuf.Valid() && rewriteBuf.Contents() == w.diff
    {
      hide RewriteBuffer.Pieces, RewriteBuffer.Contents, RewriteBuffer.Valid;
    }

    // stopAppendOnly; n and truncated are the results of the system calls of its flush
    method StopAppendOnly(now: nat, n: int, truncated: bool, ghost w: P.World) returns (exits: bool)
      requires Matches(w) && state != P.Off && -1 <= n <= |buf|
      modifies this, rewriteBuf
      ensures exits <==> n < |w.buf| && w.buf != [] && old(fsync) == Always
      ensures !exits ==> Matches(P.CleanUp(P.Flush(w, n, truncated).(state := P.Off, fd := false, selected := -1)))
      ensures !exits ==> state == P.Off && !fd && !childRunning
    {
      hide P.FlushFiles, P.Flush, Orderly, Pipes.Carries, RewriteBuffer.Pieces, RewriteBuffer.Contents,
        RewriteBuffer.Valid;
      NothingToFlush(w, n, truncated);
      var action := Flush(true, false, now, n, truncated, w);
      ghost var v := P.Flush(w, n, truncated);
      FlushFrame(w, n, truncated);
      if action.Wrote? && action.exits {
        exits := true;
        return;
      }
      fd, selected := false, -1;
      state := P.Off;
      SameRewriting(v, v.(state := P.Off, fd := false, selected := -1));
      v := v.(state := P.Off, fd := false, selected := -1);
      assert Matches(v);
      if childRunning { CleanUp(v); } else { NoRewrite(v); }
      exits := false;
    }

    lemma NoRewrite(w: P.World)
      requires Matches(w) && !childRunning
      ensures P.CleanUp(w) == w
    {
      hide RewriteBuffer.Pieces, RewriteBuffer.Contents, RewriteBuffer.Valid;
    }
  }

  lemma NothingToFlush(w: P.World, n: int, truncated: bool)
    requires -1 <= n <= |w.buf|
    ensures w.buf == [] ==> P.Flush(w, n, truncated) == w
  {
    assert w.file + [] == w.file;
  }

  lemma FlushFrame(w: P.World, n: int, t: bool)
    requires -1 <= n <= |w.buf|
    ensures var v := P.Flush(w, n, t);
      v.diff == w.diff && v.child == w.child && v.pipe == w.pipe && v.asked == w.asked && v.acked == w.acked
  {}

  lemma SplitStream(pipe: seq<byte>, out: seq<byte>, before: seq<byte>, after: seq<byte>)
    requires pipe <= out && out + after == pipe + before
    ensures |out| - |pipe| <= |before| && out == pipe + before[..|out| - |pipe|] && after == before[|out| - |pipe|..]
  {
    var k := |out| - |pipe|;
    assert out == (pipe + before)[..|out|];
    assert after == (pipe + before)[|out|..];
  }

  // The child: what it has read of the parent's differences, and the file it writes.
  const PIPE_BUFFER: nat := 65536

  class RewriteChild {
    var diff: seq<byte>
    var file: seq<byte>       // the temporary file
    var phase: P.Phase
    var unlinked: bool        // the temporary file is gone
    const pipes: Pipes

    ghost predicate Matches(w: P.World)
      reads this, pipes
    {
      w.child == P.Running(file, diff, phase) && pipes.Carries(w)
    }

    // rewriteAppendOnlyFile up to the first read of differences
    constructor (dump: seq<byte>, pipes: Pipes, ghost w: P.World)
      requires pipes.data == [] && pipes.asks == [] && pipes.acks == []
      ensures Matches(P.Fork(w, dump)) && this.pipes == pipes && !unlinked
    {
      diff, file, phase, unlinked, this.pipes := [], dump, P.Working, false, pipes;
    }

    // aofReadDiffFromParent: read(2) takes what is there, a pipe buffer at a time
    method ReadDiff(ghost w: P.World) returns (total: nat)
      requires Matches(w)
      modifies this`diff, pipes`data
      ensures total == |w.pipe| && Matches(P.Read(w, total)) && pipes.data == []
    {
      total := 0;
      while pipes.data != []
        invariant diff + pipes.data == w.child.received + w.pipe && total + |pipes.data| == |w.pipe|
        invariant pipes.data == w.pipe[total..]
        decreases |pipes.data|
      {
        var left := pipes.data;
        var nread := if |left| < PIPE_BUFFER then |left| else PIPE_BUFFER;
        assert diff + left == diff + left[..nread] + left[nread..];
        diff := diff + left[..nread];
        total := total + nread;
        pipes.data := left[nread..];
      }
      assert w.pipe[..total] == w.pipe;
    }

    // The request to the parent, after the dump
    method AskToStop(writes: bool, ghost w: P.World) returns (ok: bool)
      requires Matches(w) && phase == P.Working && !w.asked
      modifies this`phase, pipes`asks
      ensures ok == writes && Matches(if ok then P.Ask(w) else w)
    {
      ok := writes;
      if ok {
        pipes.asks := pipes.asks + [BANG];
        phase := P.AskedToStop;
      }
    }

    // The wait for the parent's answer: whether it is there when the time is over.
    method AwaitAck(ghost w: P.World) returns (ok: bool)
      requires Matches(w) && phase == P.AskedToStop
      modifies this`phase, pipes`acks
      ensures ok == w.acked && Matches(if ok then P.HearAck(w) else w)
    {
      if pipes.acks == [] { return false; }
      var b := pipes.acks[0];
      pipes.acks := pipes.acks[1..];
      if b != BANG { return false; }
      phase := P.Acked;
      ok := true;
    }

    // The end of rewriteAppendOnlyFile, after the answer has arrived: a short write
    // or a rename that fails ends in exit(1), without the file.
    method Finish(written: int, renames: bool, ghost w: P.World) returns (ok: bool)
      requires Matches(w) && phase == P.Acked && -1 <= written <= |diff + pipes.data|
      modifies this, pipes`data
      ensures ok <==> written == |w.child.received + w.pipe| && renames
      ensures ok ==> P.Exit(w).child == P.Exited(file) && pipes.Carries(P.Exit(w)) && unlinked == old(unlinked)
      ensures !ok ==> unlinked && pipes.Carries(P.Read(w, |w.pipe|))
    {
      ghost var dump := file;
      var total := ReadDiff(w);
      assert w.pipe[..|w.pipe|] == w.pipe;
      file := Written(file, diff, written);
      ok := written == |diff| && renames;
      if !ok { unlinked := true; }
      assert diff[..|diff|] == diff;
    }
  }

  // Idle: nothing to write. Postponed: an fsync is in progress.
  // Wrote: write(2) was called; exits: its failure ends the process.
  datatype Action = Idle | Postponed | Wrote(exits: bool)

  function Truncated(file: seq<byte>, size: nat): seq<byte> {
    if size <= |file| then file[..size] else file + P.Zeros(size - |file|)
  }

  // One write(2) of the whole buffer, which returns n, and the repair of a short one.
  method WriteBuffer(f: P.Files, n: int, truncated: bool) returns (g: P.Files)
    requires -1 <= n <= |f.buf|
    ensures g == P.FlushFiles(f, n, truncated)
    ensures n == |f.buf| ==> g.buf == []
  {
    var file, buf, size := Written(f.file, f.buf, n), f.buf, f.size;
    var nwritten := n;
    if nwritten != |buf| {
      if nwritten != -1 {
        if truncated {
          file := Truncated(file, size);
          nwritten := -1;
        }
      }
      if nwritten > 0 {
        size := size + nwritten;
        buf := buf[nwritten..];
      }
    } else {
      size := size + nwritten;
      buf := [];
    }
    g := P.Files(file, buf, size);
  }

  // The bytes one call of feedAppendOnlyFile appends.
  method FeedBytes(selected: int, db: nat, cmds: seq<Argv>) returns (bytes: seq<byte>)
    ensures bytes == PrintLog(P.FeedCommands(selected, db, cmds))
    ensures bytes == (if db != selected then PrintCommand(P.Select(db)) else []) + PrintLog(cmds)
  {
    hide PrintCommand, Digits, P.FeedCommands, P.Select;
    bytes := [];
    if db != selected {
      var seldb := Digits(db);
      bytes := bytes + SELECT_HEAD + Digits(|seldb|) + CRLF + seldb + CRLF;
      SelectText(db);
      assert bytes == SELECT_HEAD + Digits(|seldb|) + CRLF + seldb + CRLF;
    }
    ghost var first := bytes;
    assert cmds[..0] == [];
    for i := 0 to |cmds|
      invariant bytes == first + PrintLog(cmds[..i])
    {
      bytes := CatGenericCommand(bytes, cmds[i]);
      assert cmds[..i + 1] == cmds[..i] + [cmds[i]];
      PrintLogConcat(cmds[..i], [cmds[i]]);
      OneLogged(cmds[i]);
    }
    assert cmds[..|cmds|] == cmds;
    FedBytes(selected, db, cmds, first);
  }

  lemma OneLogged(argv: Argv)
    ensures PrintLog([argv]) == PrintCommand(argv)
  {
    assert [argv][1..] == [];
  }

  lemma FedBytes(selected: int, db: nat, cmds: seq<Argv>, first: seq<byte>)
    requires first == if db != selected then PrintCommand(P.Select(db)) else []
    ensures PrintLog(P.FeedCommands(selected, db, cmds)) == first + PrintLog(cmds)
  {
    hide PrintCommand, Digits;
    if db != selected {
      PrintLogConcat([P.Select(db)], cmds);
      OneLogged(P.Select(db));
    } else {
      assert [] + cmds == cmds;
    }
  }
}
