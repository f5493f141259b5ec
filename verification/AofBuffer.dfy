// The rewrite buffer: what the parent still owes the child, as a list of blocks
// that is filled at the tail and drained at the head.
module AofBuffer {
  import opened AofFormat

  const BLOCK_SIZE: nat := 1024 * 1024 * 10

  class Block {
    var used: nat
    var free: nat
    const buf: array<byte>

    constructor ()
      ensures used == 0 && free == BLOCK_SIZE && fresh(buf) && buf.Length == BLOCK_SIZE
    {
      buf := new byte[BLOCK_SIZE];
      used, free := 0, BLOCK_SIZE;
    }

    // Draining never gives space back to free, so the sum only bounds what is in use.
    predicate Valid()
      reads this
    {
      buf.Length == BLOCK_SIZE && used + free <= BLOCK_SIZE
    }

    function Bytes(): seq<byte>
      reads this, buf
      requires Valid()
    {
      buf[..used]
    }

    // memcpy(buf + used, s, n)
    method Copy(s: seq<byte>, n: nat)
      requires Valid() && n <= |s| && n <= free
      modifies this, buf
      ensures Valid() && Bytes() == old(Bytes()) + s[..n] && free == old(free) - n
    {
      for i := 0 to n
        invariant buf[..used + i] == old(Bytes()) + s[..i]
        invariant used == old(used) && free == old(free)
        modifies buf
      {
        buf[used + i] := s[i];
        assert s[..i + 1] == s[..i] + [s[i]];
      }
      used := used + n;
      free := free - n;
    }

    // memmove(buf, buf + n, used - n)
    method Drain(n: nat)
      requires Valid() && n <= used
      modifies this, buf
      ensures Valid() && Bytes() == old(Bytes())[n..] && free == old(free)
    {
      for i := 0 to used - n
        invariant buf[..i] == old(buf[n..n + i]) && buf[n + i..] == old(buf[n + i..])
        invariant used == old(used) && free == old(free)
        modifies buf
      {
        assert buf[n + i] == old(buf[n + i]);
        buf[i] := buf[n + i];
        assert old(buf[n..n + i + 1]) == old(buf[n..n + i]) + [old(buf[n + i])];
      }
      used := used - n;
    }
  }

  function Flatten(ps: seq<seq<byte>>): seq<byte> {
    if ps == [] then [] else ps[0] + Flatten(ps[1..])
  }

  lemma {:induction false} FlattenConcat(ps: seq<seq<byte>>, qs: seq<seq<byte>>)
    ensures Flatten(ps + qs) == Flatten(ps) + Flatten(qs)
    decreases |ps|
  {
    if ps == [] {
      assert ps + qs == qs;
    } else {
      assert (ps + qs)[1..] == ps[1..] + qs;
      FlattenConcat(ps[1..], qs);
    }
  }

  lemma FlattenLast(ps: seq<seq<byte>>, p: seq<byte>)
    ensures Flatten(ps + [p]) == Flatten(ps) + p
  {
    FlattenConcat(ps, [p]);
    assert [p][1..] == [];
  }

  // One piece longer at the end of the last block.
  lemma FlattenGrow(ps: seq<seq<byte>>, s: seq<byte>)
    requires ps != []
    ensures Flatten(ps[|ps| - 1 := ps[|ps| - 1] + s]) == Flatten(ps) + s
  {
    var n := |ps| - 1;
    assert ps == ps[..n] + [ps[n]];
    assert ps[n := ps[n] + s] == ps[..n] + [ps[n] + s];
    FlattenLast(ps[..n], ps[n]);
    FlattenLast(ps[..n], ps[n] + s);
  }

  // Some bytes fewer at the front of the first block.
  lemma FlattenShrink(ps: seq<seq<byte>>, n: nat)
    requires ps != [] && n <= |ps[0]|
    ensures Flatten(ps) == ps[0][..n] + Flatten(ps[0 := ps[0][n..]])
  {
    assert ps[0 := ps[0][n..]][1..] == ps[1..];
    assert ps[0] == ps[0][..n] + ps[0][n..];
  }

  // What write(2) does to the other end when it returns n: any -1 <= n <= |data|
  // is possible, and exactly the first n bytes arrive.
  function Written(file: seq<byte>, data: seq<byte>, n: int): seq<byte>
    requires -1 <= n <= |data|
  {
    if n == -1 then file else file + data[..n]
  }

  // The results that write(2) would give to the calls of one operation, in order. A
  // call is never given more than it asked for.
  type Results = nat -> int

  function Took(result: int, asked: nat): (n: int)
    ensures -1 <= n <= asked && (0 < result && 0 < asked ==> 0 < n) && (n > 0 ==> result > 0)
    ensures n == asked <==> result >= asked || (asked == 0 && result == 0)
  {
    if result < 0 then -1 else if result > asked then asked else result
  }

  class RewriteBuffer {
    var blocks: seq<Block>
    ghost var repr: set<object>

    ghost predicate Valid()
      reads this, repr
    {
      && (forall i :: 0 <= i < |blocks| ==> blocks[i] in repr && blocks[i].buf in repr)
      && (forall i :: 0 <= i < |blocks| ==> blocks[i].Valid())
      && (forall i, j :: 0 <= i < j < |blocks| ==> blocks[i] != blocks[j] && blocks[i].buf != blocks[j].buf)
    }

    ghost function Pieces(): seq<seq<byte>>
      reads this, repr
      requires Valid()
    {
      seq(|blocks|, i requires 0 <= i < |blocks| && Valid() reads this, repr =>
        blocks[i].Bytes())
    }

    ghost function Contents(): seq<byte>
      reads this, repr
      requires Valid()
    {
      Flatten(Pieces())
    }

    // aofRewriteBufferReset
    constructor ()
      ensures Valid() && Contents() == [] && blocks == [] && repr == {}
    {
      blocks, repr := [], {};
    }

    method Reset()
      modifies this
      ensures Valid() && Contents() == [] && blocks == [] && repr == {}
    {
      blocks, repr := [], {};
    }

    // aofRewriteBufferSize
    method Size() returns (size: nat)
      requires Valid()
      ensures size == |Contents()|
    {
      size := 0;
      assert Pieces()[..0] == [];
      for i := 0 to |blocks|
        invariant size == |Flatten(Pieces()[..i])|
      {
        assert Pieces()[..i + 1] == Pieces()[..i] + [Pieces()[i]];
        FlattenLast(Pieces()[..i], Pieces()[i]);
        size := size + blocks[i].used;
      }
      assert Pieces()[..|blocks|] == Pieces();
    }

    // Append as much of s as the last block still takes.
    method FillLast(s: seq<byte>, n: nat)
      requires Valid() && blocks != [] && n <= |s| && n <= blocks[|blocks| - 1].free
      modifies repr
      ensures Valid() && blocks == old(blocks) && repr == old(repr) && Contents() == old(Contents()) + s[..n]
      ensures blocks[|blocks| - 1].free == old(blocks[|blocks| - 1].free) - n
    {
      hide Flatten, Block.Bytes;
      ghost var ps := Pieces();
      ghost var k := |blocks| - 1;
      blocks[|blocks| - 1].Copy(s, n);
      assert forall i :: 0 <= i < k ==> blocks[i].Bytes() == ps[i];
      assert Pieces() == ps[k := ps[k] + s[..n]];
      FlattenGrow(ps, s[..n]);
    }

    // A new empty block at the tail.
    method AddBlock()
      requires Valid()
      modifies this
      ensures Valid() && Contents() == old(Contents()) && |blocks| == |old(blocks)| + 1 && old(blocks) < blocks
      ensures fresh(repr - old(repr)) && blocks[|blocks| - 1].free == BLOCK_SIZE
    {
      hide Block.Bytes;
      ghost var ps := Pieces();
      assert Contents() == Flatten(ps);
      var block := new Block();
      EmptyBytes(block);
      FlattenLast(ps, []);
      assert Flatten(ps + [[]]) == Flatten(ps);
      blocks, repr := blocks + [block], repr + {block, block.buf};
      assert forall i :: 0 <= i < |ps| ==> blocks[i].Bytes() == ps[i];
      assert Pieces() == ps + [[]];
      assert Contents() == Flatten(Pieces());
    }

    // aofRewriteBufferAppend
    method Append(s: seq<byte>)
      requires Valid()
      modifies this, repr
      ensures Valid() && Contents() == old(Contents()) + s
      ensures old(blocks) <= blocks && fresh(repr - old(repr))
    {
      hide Pieces, Contents;
      var at := 0;
      assert s[..0] == [];
      while at < |s|
        invariant 0 <= at <= |s| && Valid() && Contents() == old(Contents()) + s[..at]
        invariant old(blocks) <= blocks && fresh(repr - old(repr))
        decreases |s| - at, if blocks != [] && blocks[|blocks| - 1].free > 0 then 0 else 1
      {
        var len := |s| - at;
        if blocks != [] {
          var block := blocks[|blocks| - 1];
          var thislen := if block.free < len then block.free else len;
          if thislen > 0 {
            FillLast(s[at..], thislen);
            assert s[..at + thislen] == s[..at] + s[at..][..thislen];
            at := at + thislen;
            len := len - thislen;
          }
        }
        if len > 0 { AddBlock(); }
      }
      assert s[..|s|] == s;
    }

    // Take n bytes off the head.
    method DrainFirst(n: nat)
      requires Valid() && blocks != [] && n <= blocks[0].used
      modifies repr
      ensures Valid() && blocks == old(blocks) && repr == old(repr) && blocks[0].used == old(blocks[0].used) - n
      ensures old(Contents()) == old(blocks[0].buf[..n]) + Contents()
    {
      hide Block.Bytes;
      ghost var ps := Pieces();
      PieceFront(blocks[0], n);
      blocks[0].Drain(n);
      DrainedUsed(blocks[0], ps[0], n);
      assert forall i :: 1 <= i < |blocks| ==> blocks[i].Bytes() == ps[i];
      assert Pieces() == ps[0 := ps[0][n..]];
      FlattenShrink(ps, n);
    }

    method DropFirst()
      requires Valid() && blocks != [] && blocks[0].used == 0
      modifies this
      ensures Valid() && blocks == old(blocks[1..]) && repr == old(repr) && Contents() == old(Contents())
    {
      ghost var ps := Pieces();
      blocks := blocks[1..];
      assert Pieces() == ps[1..];
    }

    // aofChildWriteDiffData: what leaves the buffer enters the pipe, in order. The result says
    // whether the write handler stays installed: exactly when, not being told to stop, it met a
    // write that took nothing, after `calls` that each took something.
    method WriteDiffData(pipe: seq<byte>, stop: bool, results: Results)
      returns (out: seq<byte>, installed: bool, ghost calls: nat)
      requires Valid()
      modifies this, repr
      ensures Valid() && pipe <= out && out + Contents() == pipe + old(Contents())
      ensures repr == old(repr)
      ensures stop ==> out == pipe && blocks == old(blocks) && !installed
      ensures !installed && !stop ==> blocks == []
      ensures installed ==> blocks != [] && results(calls) <= 0
      ensures calls <= |out| - |pipe| && forall j :: 0 <= j < calls ==> results(j) > 0
      ensures exists k :: 0 <= k <= |old(blocks)| && blocks == old(blocks)[k..]
    {
      hide Pieces, Contents;
      out, installed := pipe, true;
      ghost var k := 0;
      calls := 0;
      var call := 0;
      while true
        invariant Valid() && pipe <= out && out + Contents() == pipe + old(Contents())
        invariant 0 <= k <= |old(blocks)| && blocks == old(blocks)[k..] && repr == old(repr)
        invariant stop ==> out == pipe && blocks == old(blocks)
        invariant call == calls <= |out| - |pipe| && forall j :: 0 <= j < calls ==> results(j) > 0
        decreases |Contents()|, |blocks|
      {
        if stop || blocks == [] {
          installed := false;
          return;
        }
        var block := blocks[0];
        HeadValid();
        if block.used > 0 {
          ghost var before := out;
          var n := Took(results(call), block.used);
          out := Written(out, block.buf[..block.used], n);
          if n <= 0 {
            assert out == before;
            return;
          }
          call := call + 1;
          calls := call;
          ghost var taken := block.buf[..n];
          assert block.buf[..block.used][..n] == taken;
          DrainFirst(n);
          assert before + (taken + Contents()) == (before + taken) + Contents();
        }
        if block.used == 0 {
          DropFirst();
          k := k + 1;
        }
      }
    }

    lemma EmptyContents()
      requires Valid() && blocks == []
      ensures Contents() == []
    {}

    lemma HeadValid()
      requires Valid() && blocks != []
      ensures blocks[0].Valid()
    {}

    // Every block that holds something is taken whole by its write.
    ghost predicate AllTaken(results: Results)
      reads this, repr
      requires Valid()
    {
      forall i :: 0 <= i < |blocks| && blocks[i].used > 0 ==> results(i) >= blocks[i].used
    }

    // aofRewriteBufferWrite: on success the whole buffer is appended to the file; results
    // are those of the writes of the blocks.
    method WriteAll(file: seq<byte>, results: Results) returns (count: int, out: seq<byte>)
      requires Valid()
      ensures count != -1 <==> AllTaken(results)
      ensures count == -1 || (count == |Contents()| && out == file + Contents())
      ensures count == -1 ==> exists k :: 0 <= k < |Contents()| && out == file + Contents()[..k]
    {
      ghost var ps := Pieces();
      count, out := 0, file;
      assert ps[..0] == [];
      for i := 0 to |blocks|
        invariant count == |Flatten(ps[..i])| && out == file + Flatten(ps[..i])
        invariant forall k :: 0 <= k < i && blocks[k].used > 0 ==> results(k) >= blocks[k].used
      {
        var block := blocks[i];
        assert block.Bytes() == ps[i];
        FlattenUpTo(ps, i);
        if block.used > 0 {
          var n := Took(results(i), block.used);
          out := Written(out, block.buf[..block.used], n);
          if n != block.used {
            count := -1;
            ghost var m := if n == -1 then 0 else n;
            FlattenWithin(ps, i, m);
            assert out == file + (Flatten(ps[..i]) + ps[i][..m]);
            assert Contents() == Flatten(Pieces()) && Pieces() == ps;
            assert out == file + Contents()[..|Flatten(ps[..i])| + m];
            return;
          }
          count := count + n;
        }
      }
      assert ps[..|blocks|] == ps;
      assert Contents() == Flatten(Pieces());
      assert Pieces() == ps;
    }
  }

  lemma FlattenUpTo(ps: seq<seq<byte>>, i: nat)
    requires i < |ps|
    ensures Flatten(ps[..i + 1]) == Flatten(ps[..i]) + ps[i]
  {
    assert ps[..i + 1] == ps[..i] + [ps[i]];
    FlattenLast(ps[..i], ps[i]);
  }

  // The first m bytes of piece i, seen from the whole.
  lemma FlattenWithin(ps: seq<seq<byte>>, i: nat, m: nat)
    requires i < |ps| && m < |ps[i]|
    ensures |Flatten(ps[..i])| + m < |Flatten(ps)|
    ensures Flatten(ps)[..|Flatten(ps[..i])| + m] == Flatten(ps[..i]) + ps[i][..m]
  {
    FlattenUpTo(ps, i);
    FlattenConcat(ps[..i + 1], ps[i + 1..]);
    assert ps[..i + 1] + ps[i + 1..] == ps;
  }

  lemma PieceFront(b: Block, n: nat)
    requires b.Valid() && n <= b.used
    ensures |b.Bytes()| == b.used && b.Bytes()[..n] == b.buf[..n]
  {}

  lemma DrainedUsed(b: Block, was: seq<byte>, n: nat)
    requires b.Valid() && n <= |was| && b.Bytes() == was[n..]
    ensures b.used == |was| - n
  {}

  lemma EmptyBytes(b: Block)
    requires b.Valid() && b.used == 0
    ensures b.Bytes() == []
  {}
}
