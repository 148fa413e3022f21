/** Two backends taking turns over one directory and one Passport key: each is a map of its own. */
module BackendPairs {
  import opened Bytes
  import opened Json
  import opened Library
  import Trace
  import opened NCrypt
  import opened Passport
  import opened Runs
  import opened Backend
  import opened BackendRuns

  datatype Pair = Pair(first: Ring, second: Ring)

  /** An action, and whether it is the first backend's. */
  datatype Move = Move(first: bool, act: Action)

  /** What an action of one backend does to the ring of the other: names and cached wrapper stay, and
      so do the items, unless the shared key comes or goes. */
  ghost predicate Beside(t: Ring, a: Action, keyed: bool, t': Ring) {
    && t'.names == t.names && t'.cached == t.cached && t'.keyed == keyed && Sound(t')
    && (keyed == t.keyed ==> t' == t) && (t.keyed && a.Call? ==> keyed)
  }

  ghost predicate PairStep(s: Pair, m: Move, out: Result, s': Pair) {
    if m.first
    then Step(s.first, m.act, out, s'.first) && Beside(s.second, m.act, s'.first.keyed, s'.second)
    else Step(s.second, m.act, out, s'.second) && Beside(s.first, m.act, s'.second.keyed, s'.first)
  }

  ghost predicate PairQuiet(s: Pair, m: Move, out: Result, s': Pair) {
    if m.first
    then Quiet(s.first, m.act, out, s'.first) && (m.act.Call? ==> s'.second.items == s.second.items)
    else Quiet(s.second, m.act, out, s'.second) && (m.act.Call? ==> s'.first.items == s.first.items)
  }

  ghost predicate PairFaultFree(s: Pair, m: Move, out: Result) {
    FaultFree(if m.first then s.first else s.second, m.act, out)
  }

  /** The two share everything but their services, which are apart. */
  predicate Shared(a: Backend, b: Backend) {
    && a != b && a.nc == b.nc && a.dir == b.dir && a.rng == b.rng && a.keyName == b.keyName
    && Apart(a.serviceName, b.serviceName)
  }

  lemma SharedBack(a: Backend, b: Backend)
    ensures Shared(a, b) ==> Shared(b, a)
  {
  }

  ghost function AbsPair(a: Backend, b: Backend): Pair
    reads a, b, a.nc, a.dir, b.nc, b.dir
  {
    Pair(Abs(a), Abs(b))
  }

  lemma BesideHolds(c: Scope, persisted: map<bytes, Persisted>, persisted': map<bytes, Persisted>,
                    before: map<bytes, bytes>, after: map<bytes, bytes>, s: bytes, cached: bool, a: Action)
    requires Apart(s, c.service) && OutsideUntouched(before, after, s)
    requires OnlyKeyTouched(persisted, persisted', c.keyName)
    requires a.Call? ==> CreatedAtMost(persisted, persisted', c.keyName)
    requires a.LoseKey? ==> c.keyName !in persisted'
    ensures Beside(RingAt(c, persisted, before, cached), a, c.keyName in persisted',
                   RingAt(c, persisted', after, cached))
  {
    hide ItemsOf, StoredNames, CreationShape, OutsideUntouched, Apart;
    ApartServicesUnaffected(c, persisted, persisted', before, after, s);
    RingIsSound(c, persisted', after, cached);
    RingIsSound(c, persisted, before, cached);
  }

  lemma StaysGuardedBeside(c: Scope, keygen: nat -> Material, lo: nat, hi: nat, persisted: map<bytes, Persisted>,
                           persisted': map<bytes, Persisted>, before: map<bytes, bytes>,
                           after: map<bytes, bytes>, s: bytes)
    requires Apart(s, c.service) && OutsideUntouched(before, after, s) && lo <= hi
    requires GuardedAt(c, keygen, lo, persisted, before)
    requires GuardedAt(c.(service := s), keygen, hi, persisted', after)
    ensures GuardedAt(c, keygen, hi, persisted', after)
  {
    hide Unopenable, OutsideUntouched, Apart;
    ApartStaysUnopenable(c, keygen, lo, before, after, s);
    UnopenableLater(c, keygen, lo, hi, after);
  }

  lemma SameItemsBeside(c: Scope, keygen: nat -> Material, lo: nat, hi: nat, persisted: map<bytes, Persisted>,
                        persisted': map<bytes, Persisted>, before: map<bytes, bytes>,
                        after: map<bytes, bytes>, s: bytes)
    requires Apart(s, c.service) && OutsideUntouched(before, after, s) && GuardedAt(c, keygen, lo, persisted, before)
    requires CreatedAtMost(persisted, persisted', c.keyName)
    requires persisted' != persisted ==> Generated(persisted'[c.keyName].material, keygen, lo, hi)
    ensures ItemsOf(c, persisted', after) == ItemsOf(c, persisted, before)
  {
    hide ItemsOf, Unopenable, OutsideUntouched, Apart, CreationShape;
    ApartServicesUnaffected(c, persisted, persisted, before, after, s);
    ApartStaysUnopenable(c, keygen, lo, before, after, s);
    ItemsAfterCreation(c, keygen, lo, hi, persisted, persisted', after);
  }

  method ApplyBeside(a: Backend, b: Backend, act: Action) returns (out: Result)
    requires Shared(a, b) && a.Valid() && b.Valid()
    modifies a, a.nc, a.dir, a.rng
    ensures Contained(a) && b.Valid()
    ensures Step(old(Abs(a)), act, out, Abs(a)) && Beside(old(Abs(b)), act, a.Keyed(), Abs(b))
    ensures Faulted(a) || FaultFree(old(Abs(a)), act, out)
    ensures old(Guarded(a)) && old(Guarded(b)) ==>
              && Guarded(a) && Guarded(b) && Quiet(old(Abs(a)), act, out, Abs(a))
              && (act.Call? ==> Abs(b).items == old(Abs(b)).items)
  {
    hide Trace.Step, Trace.Replay, Lawful, ValidUtf8, ItemsOf, StoredNames, CreationShape, Step, Quiet, FaultFree,
      Beside, GuardedAt, OutsideUntouched, Apart;
    ghost var persisted, blobs, lo := a.nc.persisted, a.dir.blobs, |a.nc.trace|;
    out := Apply(a, act);
    BesideHolds(b.Here(), persisted, a.nc.persisted, blobs, a.dir.blobs, a.serviceName, b.wrapper.Some?, act);
    if old(Guarded(a)) && old(Guarded(b)) {
      StaysGuardedBeside(b.Here(), b.nc.keygen, lo, |a.nc.trace|, persisted, a.nc.persisted, blobs, a.dir.blobs,
                         a.serviceName);
      if act.Call? {
        SameItemsBeside(b.Here(), b.nc.keygen, lo, |a.nc.trace|, persisted, a.nc.persisted, blobs, a.dir.blobs,
                        a.serviceName);
      }
    }
  }

  ghost predicate AllPairsQuiet(states: seq<Pair>, moves: seq<Move>, outs: seq<Result>)
    requires |states| == |moves| + 1 && |outs| == |moves|
  {
    forall i | 0 <= i < |moves| :: PairQuiet(states[i], moves[i], outs[i], states[i + 1])
  }

  /** What both keep. */
  twostate predicate PairContained(a: Backend, b: Backend)
    reads a, b, a.nc, a.dir, a.rng, b.nc
  {
    && a.Valid() && b.Valid() && a.nc.SettledWith(PromptsOf(a.serviceName) + PromptsOf(b.serviceName))
    && a.dir.faults >= old(a.dir.faults) && a.rng.faults >= old(a.rng.faults)
  }

  /** One move of either. */
  method ApplyMove(a: Backend, b: Backend, m: Move) returns (out: Result)
    requires Shared(a, b) && a.Valid() && b.Valid()
    modifies a, b, a.nc, a.dir, a.rng
    ensures PairContained(a, b)
    ensures PairStep(old(AbsPair(a, b)), m, out, AbsPair(a, b))
    ensures Faulted(a) || PairFaultFree(old(AbsPair(a, b)), m, out)
    ensures old(Guarded(a)) && old(Guarded(b)) ==>
              Guarded(a) && Guarded(b) && PairQuiet(old(AbsPair(a, b)), m, out, AbsPair(a, b))
  {
    hide Trace.Step, Trace.Replay, Lawful, ValidUtf8, ItemsOf, StoredNames, CreationShape, Step, Quiet, FaultFree,
      Beside, GuardedAt, OutsideUntouched, Apart, PromptsOf, OnlyKeyTouched;
    SharedBack(a, b);
    if m.first {
      out := ApplyBeside(a, b, m.act);
    } else {
      out := ApplyBeside(b, a, m.act);
    }
  }

  /** Any interleaving of actions of two apart backends, whatever fails and whenever their key is
      lost, is a run of two maps side by side. */
  method RunTwo(a: Backend, b: Backend, moves: seq<Move>) returns (outs: seq<Result>, ghost states: seq<Pair>)
    requires Shared(a, b) && a.Valid() && b.Valid()
    modifies a, b, a.nc, a.dir, a.rng
    ensures PairContained(a, b)
    ensures IsRun(PairStep, states, moves, outs)
    ensures states[0] == old(AbsPair(a, b)) && states[|moves|] == AbsPair(a, b)
    ensures Faulted(a) || forall i | 0 <= i < |moves| :: PairFaultFree(states[i], moves[i], outs[i])
    ensures old(Guarded(a)) && old(Guarded(b)) ==> AllPairsQuiet(states, moves, outs)
  {
    hide Trace.Step, Trace.Replay, Lawful, ValidUtf8, AbsPair, PairStep, PairQuiet, PairFaultFree, GuardedAt, IsRun,
      PromptsOf, Shared;
    outs, states := [], [AbsPair(a, b)];
    EmptyRun<Pair, Move, Result>(PairStep, AbsPair(a, b));
    var i := 0;
    while i < |moves|
      invariant 0 <= i <= |moves| && |states| == i + 1 && |outs| == i
      invariant PairContained(a, b)
      invariant IsRun(PairStep, states, moves[..i], outs)
      invariant states[0] == old(AbsPair(a, b)) && states[i] == AbsPair(a, b)
      invariant Faulted(a) || forall j | 0 <= j < i :: PairFaultFree(states[j], moves[j], outs[j])
      invariant old(Guarded(a)) && old(Guarded(b)) ==>
                  && Guarded(a) && Guarded(b)
                  && forall j | 0 <= j < i :: PairQuiet(states[j], moves[j], outs[j], states[j + 1])
    {
      var out := ApplyMove(a, b, moves[i]);
      RunExtends(PairStep, states, moves[..i], outs, moves[i], out, AbsPair(a, b));
      assert moves[..i + 1] == moves[..i] + [moves[i]];
      outs, states := outs + [out], states + [AbsPair(a, b)];
      i := i + 1;
    }
    assert moves[..i] == moves;
  }
}
