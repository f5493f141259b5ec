// Which registers a history of commands leaves: those of the set of elements
// that were added, in whatever order, however often and through whatever merges.
module HllLaws {
  import opened HllRegisters
  import opened HllCommands

  type Element(==, !new)
  type Key(==, !new)
  type Hash = Element -> bv64

  // Register i is the longest run among the elements of es that select it.
  ghost predicate Longest(v: nat, i: nat, es: set<Element>, hash: Hash) {
    && (forall e :: e in es && Index(hash(e)) == i ==> Run(hash(e)) <= v)
    && (v == 0 || exists e :: e in es && Index(hash(e)) == i && Run(hash(e)) == v)
  }

  ghost predicate Summary(r: Registers, es: set<Element>, hash: Hash) {
    forall i :: 0 <= i < REGISTERS ==> Longest(r[i], i, es, hash)
  }

  // A set has at most one summary.
  lemma SummaryUnique(r: Registers, s: Registers, es: set<Element>, hash: Hash)
    requires Summary(r, es, hash) && Summary(s, es, hash)
    ensures r == s
  {
    hide Run, Index;
    forall i | 0 <= i < REGISTERS ensures r[i] == s[i] {
      assert Longest(r[i], i, es, hash) && Longest(s[i], i, es, hash);
    }
  }

  lemma SummaryEmpty(hash: Hash)
    ensures Summary(Empty(), {}, hash)
  {}

  lemma SummaryAdd(r: Registers, es: set<Element>, e: Element, hash: Hash)
    requires Summary(r, es, hash)
    ensures Summary(Raise(r, Index(hash(e)), Run(hash(e))), es + {e}, hash)
  {
    hide Run, Index;
    var s := Raise(r, Index(hash(e)), Run(hash(e)));
    forall i | 0 <= i < REGISTERS ensures Longest(s[i], i, es + {e}, hash) {
      assert Longest(r[i], i, es, hash);
    }
  }

  lemma SummaryJoin(r: Registers, s: Registers, a: set<Element>, b: set<Element>, hash: Hash)
    requires Summary(r, a, hash) && Summary(s, b, hash)
    ensures Summary(Join(r, s), a + b, hash)
  {
    hide Run, Index;
    forall i | 0 <= i < REGISTERS ensures Longest(Join(r, s)[i], i, a + b, hash) {
      assert Longest(r[i], i, a, hash) && Longest(s[i], i, b, hash);
    }
  }

  function Hashes(es: seq<Element>, hash: Hash): seq<bv64> { seq(|es|, i requires 0 <= i < |es| => hash(es[i])) }

  function SetOf(es: seq<Element>): set<Element> { set e | e in es }

  lemma {:induction false} SummaryAddAll(r: Registers, before: set<Element>, es: seq<Element>, hash: Hash)
    requires Summary(r, before, hash)
    ensures Summary(AddAll(r, Hashes(es, hash)), before + SetOf(es), hash)
    decreases |es|
  {
    hide Run, Index, Summary, Raise;
    if es == [] {
      assert before + SetOf(es) == before;
    } else {
      var n := |es| - 1;
      SummaryAddAll(r, before, es[..n], hash);
      assert Hashes(es, hash)[..n] == Hashes(es[..n], hash);
      SummaryAdd(AddAll(r, Hashes(es[..n], hash)), before + SetOf(es[..n]), es[n], hash);
      assert before + SetOf(es) == before + SetOf(es[..n]) + {es[n]};
    }
  }

  // Two histories over the same elements leave the same registers.
  lemma HistoryIndependent(es: seq<Element>, fs: seq<Element>, hash: Hash)
    requires SetOf(es) == SetOf(fs)
    ensures AddAll(Empty(), Hashes(es, hash)) == AddAll(Empty(), Hashes(fs, hash))
  {
    hide Summary, AddAll;
    SummaryEmpty(hash);
    SummaryAddAll(Empty(), {}, es, hash);
    SummaryAddAll(Empty(), {}, fs, hash);
    assert {} + SetOf(es) == {} + SetOf(fs);
    SummaryUnique(AddAll(Empty(), Hashes(es, hash)), AddAll(Empty(), Hashes(fs, hash)), {} + SetOf(es), hash);
  }

  // Merging the estimators of two sets gives the estimator of their union.
  lemma UnionLaw(es: seq<Element>, fs: seq<Element>, gs: seq<Element>, hash: Hash)
    requires SetOf(gs) == SetOf(es) + SetOf(fs)
    ensures Join(AddAll(Empty(), Hashes(es, hash)), AddAll(Empty(), Hashes(fs, hash)))
      == AddAll(Empty(), Hashes(gs, hash))
  {
    hide Summary, AddAll, Join;
    SummaryEmpty(hash);
    SummaryAddAll(Empty(), {}, es, hash);
    SummaryAddAll(Empty(), {}, fs, hash);
    SummaryAddAll(Empty(), {}, gs, hash);
    var r, s := AddAll(Empty(), Hashes(es, hash)), AddAll(Empty(), Hashes(fs, hash));
    SummaryJoin(r, s, {} + SetOf(es), {} + SetOf(fs), hash);
    assert ({} + SetOf(es)) + ({} + SetOf(fs)) == {} + SetOf(gs);
    SummaryUnique(Join(r, s), AddAll(Empty(), Hashes(gs, hash)), {} + SetOf(gs), hash);
  }

  lemma JoinLaws(r: Registers, s: Registers, t: Registers)
    ensures Join(r, s) == Join(s, r)
    ensures Join(Join(r, s), t) == Join(r, Join(s, t))
    ensures Join(r, r) == r
  {
    assert Join(r, s) == Join(s, r);
    assert Join(Join(r, s), t) == Join(r, Join(s, t));
    assert Join(r, r) == r;
  }

  // ---- runs of PFADD and PFMERGE over many keys ----

  datatype Command = PfAdd(key: Key, es: seq<Element>) | PfMerge(dest: Key, sources: seq<Key>)

  function At(db: map<Key, Registers>, k: Key): Registers { if k in db then db[k] else Empty() }

  function Seen(sets: map<Key, set<Element>>, k: Key): set<Element> { if k in sets then sets[k] else {} }

  function ViewsAt(db: map<Key, Registers>, ks: seq<Key>): seq<Registers> {
    seq(|ks|, i requires 0 <= i < |ks| => At(db, ks[i]))
  }

  // What HllCommands.PfAdd and HllCommands.PfMerge leave in the key they write.
  function Execute(db: map<Key, Registers>, c: Command, hash: Hash): map<Key, Registers> {
    match c
    case PfAdd(k, es) => db[k := AddAll(At(db, k), Hashes(es, hash))]
    case PfMerge(d, ks) => db[d := JoinAll(ViewsAt(db, [d] + ks))]
  }

  function After(db: map<Key, Registers>, cs: seq<Command>, hash: Hash): map<Key, Registers> {
    if cs == [] then db else Execute(After(db, cs[..|cs| - 1], hash), cs[|cs| - 1], hash)
  }

  // The same commands on plain sets.
  function UnionAt(sets: map<Key, set<Element>>, ks: seq<Key>): set<Element> {
    set k, e | k in ks && e in Seen(sets, k) :: e
  }

  function ExecuteSets(sets: map<Key, set<Element>>, c: Command): map<Key, set<Element>> {
    match c
    case PfAdd(k, es) => sets[k := Seen(sets, k) + SetOf(es)]
    case PfMerge(d, ks) => sets[d := UnionAt(sets, [d] + ks)]
  }

  function AfterSets(sets: map<Key, set<Element>>, cs: seq<Command>): map<Key, set<Element>> {
    if cs == [] then sets else ExecuteSets(AfterSets(sets, cs[..|cs| - 1]), cs[|cs| - 1])
  }

  ghost predicate Tracks(db: map<Key, Registers>, sets: map<Key, set<Element>>, hash: Hash) {
    forall k :: Summary(At(db, k), Seen(sets, k), hash)
  }

  lemma {:induction false} JoinAllTracks(db: map<Key, Registers>, sets: map<Key, set<Element>>, ks: seq<Key>,
    hash: Hash)
    requires Tracks(db, sets, hash)
    ensures Summary(JoinAll(ViewsAt(db, ks)), UnionAt(sets, ks), hash)
    decreases |ks|
  {
    hide Summary, Join, At, Seen;
    if ks == [] {
      SummaryEmpty(hash);
      assert UnionAt(sets, ks) == {};
    } else {
      var n := |ks| - 1;
      JoinAllTracks(db, sets, ks[..n], hash);
      assert ViewsAt(db, ks)[..n] == ViewsAt(db, ks[..n]);
      SummaryJoin(JoinAll(ViewsAt(db, ks[..n])), At(db, ks[n]), UnionAt(sets, ks[..n]), Seen(sets, ks[n]), hash);
      assert ks == ks[..n] + [ks[n]];
      assert UnionAt(sets, ks) == UnionAt(sets, ks[..n]) + Seen(sets, ks[n]);
    }
  }

  lemma ExecuteTracks(db: map<Key, Registers>, sets: map<Key, set<Element>>, c: Command, hash: Hash)
    requires Tracks(db, sets, hash)
    ensures Tracks(Execute(db, c, hash), ExecuteSets(sets, c), hash)
  {
    hide Summary, AddAll, JoinAll, ViewsAt, UnionAt;
    match c
    case PfAdd(k, es) =>
      SummaryAddAll(At(db, k), Seen(sets, k), es, hash);
      forall j ensures Summary(At(Execute(db, c, hash), j), Seen(ExecuteSets(sets, c), j), hash) {
        assert Summary(At(db, j), Seen(sets, j), hash);
      }
    case PfMerge(d, ks) =>
      JoinAllTracks(db, sets, [d] + ks, hash);
      forall j ensures Summary(At(Execute(db, c, hash), j), Seen(ExecuteSets(sets, c), j), hash) {
        assert Summary(At(db, j), Seen(sets, j), hash);
      }
  }

  // After any run from an empty keyspace every key summarises exactly the elements
  // that reached it, so its registers depend on that set alone.
  lemma {:induction false} RunTracks(cs: seq<Command>, hash: Hash)
    ensures Tracks(After(map[], cs, hash), AfterSets(map[], cs), hash)
    decreases |cs|
  {
    hide Summary, Execute, ExecuteSets;
    if cs == [] {
      SummaryEmpty(hash);
    } else {
      RunTracks(cs[..|cs| - 1], hash);
      ExecuteTracks(After(map[], cs[..|cs| - 1], hash), AfterSets(map[], cs[..|cs| - 1]), cs[|cs| - 1], hash);
    }
  }

  lemma SameSetsSameRegisters(cs: seq<Command>, ds: seq<Command>, k: Key, j: Key, hash: Hash)
    requires Seen(AfterSets(map[], cs), k) == Seen(AfterSets(map[], ds), j)
    ensures At(After(map[], cs, hash), k) == At(After(map[], ds, hash), j)
  {
    hide Summary, After, AfterSets, At, Seen;
    RunTracks(cs, hash);
    RunTracks(ds, hash);
    SummaryUnique(At(After(map[], cs, hash), k), At(After(map[], ds, hash), j), Seen(AfterSets(map[], cs), k), hash);
  }
}
