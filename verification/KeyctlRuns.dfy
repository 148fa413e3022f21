/** Whole runs of one kernel keyring: it acts as a map, except that a failed Set may already have
    stored its data, and that other processes may rewrite a payload while it is read. */
module KeyctlRuns {
  import opened Bytes
  import opened Errors
  import opened Kernel
  import opened KeyctlKeyring
  import opened Runs

  /** From names to payloads, whether no serial is left for a new key, and how many calls the kernel
      has answered. */
  datatype Ring = Ring(items: imap<bytes, bytes>, full: bool, clock: nat)

  /** What does not change: what others write just before each call, and whether a successful Set
      is still there afterwards. */
  datatype Setting = Setting(interference: nat -> Option<bytes>, keeps: bool)

  type Result = Outcome<bytes>

  ghost function ItemsOf(s: Keyrings, target: Serial): imap<bytes, bytes> {
    imap n: bytes | PayloadAt(s, target, UserIndex(n)).Some? :: PayloadAt(s, target, UserIndex(n)).value
  }

  ghost function Abs(k: KeyctlKeyring): Ring
    reads k.kernel
  {
    Ring(ItemsOf(k.kernel.state, k.Target()), Full(k.kernel.state), k.kernel.calls)
  }

  function SettingOf(k: KeyctlKeyring): Setting {
    Setting(k.kernel.interference, k.Keeps())
  }

  /** The items while a Get of k makes its calls: others may write that one payload. */
  ghost function Rewrites(x: Setting, s: Ring, k: bytes, until: nat): imap<bytes, bytes> {
    var w := LastWrite(x.interference, s.clock + 1, until);
    if w.Some? && k in s.items then s.items[k := w.value] else s.items
  }

  /** A successful Set stores its entry, or loses it where it is not kept; a failed one may have
      stored it or not.  A Get returns what is stored when it ends. */
  ghost predicate Step(x: Setting, s: Ring, op: Op<Entry>, out: Result, s': Ring) {
    s'.clock >= s.clock && (s.full ==> s'.full) &&
    match op
    case SetOp(e) =>
      if out.Done? then
        && !s.full && Fits(UserType(), e.data)
        && s'.items == if x.keeps then s.items[e.key := e.data] else s.items - {e.key}
      else out.Failed? && (s'.items == s.items || s'.items == s.items[e.key := e.data])
    case GetOp(k) =>
      && s'.full == s.full && s'.items == Rewrites(x, s, k, s'.clock)
      && (out.Failed? || (k in s'.items && out == Data(s'.items[k])))
    case RemoveOp(k) =>
      && s'.full == s.full
      && if out.Done? then k in s.items && s'.items == s.items - {k} else out.Failed? && s'.items == s.items
    case KeysOp =>
      && s'.full == s.full && s'.items == s.items
      && (out.Failed? || (out.Names? && ((Distinct(out.names) && forall k :: k in out.names <==> k in s.items)
                                         <==> forall k | k in s.items :: SEMICOLON !in k)))
  }

  ghost function StepOf(x: Setting): (Ring, Op<Entry>, Result, Ring) -> bool {
    (s: Ring, op: Op<Entry>, out: Result, s': Ring) => Step(x, s, op, out, s')
  }

  /** Exactly when an operation fails that meets no fault: a Get or Remove of a name that is not
      there, and a Set when no serial is left or the kernel does not take such a payload. */
  ghost predicate FaultFree(s: Ring, op: Op<Entry>, out: Result) {
    match op
    case SetOp(e) => out.Failed? <==> s.full || !Fits(UserType(), e.data)
    case GetOp(k) => out.Failed? <==> k !in s.items
    case RemoveOp(k) => out.Failed? <==> k !in s.items
    case KeysOp => !out.Failed?
  }

  // ---- what the kernel state says about the ring ----

  lemma LinkedMeansHeld(s: Keyrings, target: Serial, n: bytes)
    requires WellFormed(s)
    ensures n in ItemsOf(s, target) <==> LinkOf(s, target, UserIndex(n)).Some?
  {
  }

  /** All names but one look as before. */
  lemma OneNameMoved(s: Keyrings, s': Keyrings, target: Serial, k: bytes)
    requires target in s.rings && OthersKept(s, s', UserIndex(k))
    ensures forall n: bytes | n != k :: PayloadAt(s', target, UserIndex(n)) == PayloadAt(s, target, UserIndex(n))
    ensures PayloadAt(s', target, UserIndex(k)) == PayloadAt(s, target, UserIndex(k)) ==>
              ItemsOf(s', target) == ItemsOf(s, target)
    ensures PayloadAt(s', target, UserIndex(k)).Some? ==>
              ItemsOf(s', target) == ItemsOf(s, target)[k := PayloadAt(s', target, UserIndex(k)).value]
    ensures PayloadAt(s', target, UserIndex(k)).None? ==> ItemsOf(s', target) == ItemsOf(s, target) - {k}
  {
    hide At;
    forall n: bytes | n != k ensures PayloadAt(s', target, UserIndex(n)) == PayloadAt(s, target, UserIndex(n)) {
      assert At(s', target, UserIndex(n)) == At(s, target, UserIndex(n));
    }
  }

  // ---- runs ----

  /** Other processes write payloads of bounded length. */
  ghost predicate BoundedWrites(k: Kernel, bound: nat) {
    forall n: nat :: k.interference(n).Some? ==> |k.interference(n).value| <= bound
  }

  method ApplySet(k: KeyctlKeyring, e: Entry) returns (out: Result)
    requires k.Valid()
    modifies k.kernel
    ensures k.Valid() && k.kernel.faults >= old(k.kernel.faults)
    ensures Step(SettingOf(k), old(Abs(k)), SetOp(e), out, Abs(k))
    ensures k.kernel.faults > old(k.kernel.faults) || FaultFree(old(Abs(k)), SetOp(e), out)
  {
    hide WellFormed, OthersKept, Enumerates, At, Detour, ItemsOf, Fits;
    ghost var s := k.kernel.state;
    var r := k.Set(e.key, e.data);
    OneNameMoved(s, k.kernel.state, k.Target(), e.key);
    out := if r.Ok? then Done else Failed;
  }

  method ApplyGet(k: KeyctlKeyring, name: bytes, ghost bound: nat) returns (out: Result)
    requires k.Valid() && BoundedWrites(k.kernel, bound)
    modifies k.kernel
    ensures k.Valid() && k.kernel.faults >= old(k.kernel.faults)
    ensures Step(SettingOf(k), old(Abs(k)), GetOp(name), out, Abs(k))
    ensures k.kernel.faults > old(k.kernel.faults) || FaultFree(old(Abs(k)), GetOp(name), out)
  {
    hide WellFormed, OthersKept, At, Enumerates, EncodeSerials, LastWrite;
    ghost var s, target := k.kernel.state, k.Target();
    LinkedMeansHeld(s, target, name);
    ghost var id := LinkOf(s, target, UserIndex(name));
    var r := k.Get(name, bound + if id.Some? then |k.kernel.Contents(id.value)| else 0);
    OneNameMoved(s, k.kernel.state, target, name);
    LinkedMeansHeld(k.kernel.state, target, name);
    out := if r.Ok? then Data(r.value) else Failed;
  }

  method ApplyRemove(k: KeyctlKeyring, name: bytes) returns (out: Result)
    requires k.Valid()
    modifies k.kernel
    ensures k.Valid() && k.kernel.faults >= old(k.kernel.faults)
    ensures Step(SettingOf(k), old(Abs(k)), RemoveOp(name), out, Abs(k))
    ensures k.kernel.faults > old(k.kernel.faults) || FaultFree(old(Abs(k)), RemoveOp(name), out)
  {
    hide WellFormed, OthersKept, Enumerates;
    ghost var s, target := k.kernel.state, k.Target();
    LinkedMeansHeld(s, target, name);
    UnlinkedKeeps(s, target, UserIndex(name));
    OneNameMoved(s, Unlinked(s, target, UserIndex(name)), target, name);
    var r := k.Remove(name);
    out := if r.Ok? then Done else Failed;
  }

  method ApplyKeys(k: KeyctlKeyring) returns (out: Result)
    requires k.Valid()
    modifies k.kernel
    ensures k.Valid() && k.kernel.faults >= old(k.kernel.faults)
    ensures Step(SettingOf(k), old(Abs(k)), KeysOp, out, Abs(k))
    ensures k.kernel.faults > old(k.kernel.faults) || FaultFree(old(Abs(k)), KeysOp, out)
  {
    hide WellFormed, ItemsOf, ShownNames, EncodeSerials, LinkOf;
    ghost var s, target := k.kernel.state, k.Target();
    var r := k.Keys();
    out := if r.Ok? then Names(r.value) else Failed;
    if r.Ok? {
      KeysExactly(s, target, k.kernel.listing(s.rings[target]));
      forall n: bytes ensures n in ItemsOf(s, target) <==> LinkOf(s, target, UserIndex(n)).Some? {
        LinkedMeansHeld(s, target, n);
      }
    }
  }

  method Apply(k: KeyctlKeyring, op: Op<Entry>, ghost bound: nat) returns (out: Result)
    requires k.Valid() && BoundedWrites(k.kernel, bound)
    modifies k.kernel
    ensures k.Valid() && k.kernel.faults >= old(k.kernel.faults)
    ensures StepOf(SettingOf(k))(old(Abs(k)), op, out, Abs(k))
    ensures k.kernel.faults > old(k.kernel.faults) || FaultFree(old(Abs(k)), op, out)
  {
    match op {
      case SetOp(e) => out := ApplySet(k, e);
      case GetOp(name) => out := ApplyGet(k, name, bound);
      case RemoveOp(name) => out := ApplyRemove(k, name);
      case KeysOp => out := ApplyKeys(k);
    }
  }

  /** Any sequence of operations, whatever fails and whatever others write meanwhile, is such a run. */
  method Run(k: KeyctlKeyring, ops: seq<Op<Entry>>, ghost bound: nat)
    returns (outs: seq<Result>, ghost states: seq<Ring>)
    requires k.Valid() && BoundedWrites(k.kernel, bound)
    modifies k.kernel
    ensures k.Valid() && k.kernel.faults >= old(k.kernel.faults)
    ensures IsRun(StepOf(SettingOf(k)), states, ops, outs)
    ensures states[0] == old(Abs(k)) && states[|ops|] == Abs(k)
    ensures k.kernel.faults > old(k.kernel.faults) || forall i | 0 <= i < |ops| :: FaultFree(states[i], ops[i], outs[i])
  {
    hide Abs, SettingOf, Step, StepOf, FaultFree, IsRun, Environment, BoundedWrites;
    ghost var step := StepOf(SettingOf(k));
    outs, states := [], [Abs(k)];
    EmptyRun<Ring, Op<Entry>, Result>(step, Abs(k));
    var i := 0;
    while i < |ops|
      invariant 0 <= i <= |ops| && |states| == i + 1 && |outs| == i
      invariant k.Valid() && k.kernel.faults >= old(k.kernel.faults)
      invariant IsRun(step, states, ops[..i], outs)
      invariant states[0] == old(Abs(k)) && states[i] == Abs(k)
      invariant k.kernel.faults > old(k.kernel.faults) || forall j | 0 <= j < i :: FaultFree(states[j], ops[j], outs[j])
    {
      var out := Apply(k, ops[i], bound);
      RunExtends(step, states, ops[..i], outs, ops[i], out, Abs(k));
      assert ops[..i] + [ops[i]] == ops[..i + 1];
      outs, states := outs + [out], states + [Abs(k)];
      i := i + 1;
    }
    assert ops[..i] == ops;
  }

  // ---- what a run means ----

  /** After the operation the name holds what the operation put there, or nothing. */
  predicate Settles(op: Op<Entry>, out: Result, k: bytes) {
    out.Done? && ((op.SetOp? && op.item.key == k) || (op.RemoveOp? && op.key == k))
  }

  ghost predicate UnsettledBetween(ops: seq<Op<Entry>>, outs: seq<Result>, from: nat, to: nat, k: bytes)
    requires to <= |ops| == |outs|
  {
    forall m | from <= m < to :: !Settles(ops[m], outs[m], k)
  }

  /** Operation j may have put the data there: a Set of it, unless it succeeded and was not kept, or
      a Get during which somebody else wrote it. */
  ghost predicate PutAt(x: Setting, states: seq<Ring>, ops: seq<Op<Entry>>, outs: seq<Result>,
                        j: nat, k: bytes, d: bytes)
    requires j < |ops| == |outs| && |states| == |ops| + 1
  {
    || (ops[j] == SetOp(Entry(k, d)) && (x.keeps || outs[j].Failed?))
    || (ops[j] == GetOp(k)
        && exists n: nat :: states[j].clock < n < states[j + 1].clock && x.interference(n) == Some(d))
  }

  /** The data was put there with no successful Set or Remove of the name since, or was there at the
      start and none happened. */
  ghost predicate Sourced(x: Setting, states: seq<Ring>, ops: seq<Op<Entry>>, outs: seq<Result>,
                          i: nat, k: bytes, d: bytes)
    requires i <= |ops| == |outs| && |states| == |ops| + 1
  {
    || (exists j: nat :: j < i && PutAt(x, states, ops, outs, j, k, d) && UnsettledBetween(ops, outs, j + 1, i, k))
    || (UnsettledBetween(ops, outs, 0, i, k) && k in states[0].items && states[0].items[k] == d)
  }

  lemma StepSources(x: Setting, s: Ring, op: Op<Entry>, out: Result, s': Ring, k: bytes)
    requires Step(x, s, op, out, s') && k in s'.items
    ensures || (op == SetOp(Entry(k, s'.items[k])) && (x.keeps || out.Failed?))
            || (op == GetOp(k) && exists n: nat :: s.clock < n < s'.clock && x.interference(n) == Some(s'.items[k]))
            || (!Settles(op, out, k) && k in s.items && s.items[k] == s'.items[k])
  {
    hide LastWrite;
    if op.GetOp? { LastWriteIsWrite(x.interference, s.clock + 1, s'.clock); }
  }

  lemma {:induction false} ItemIsSourced(x: Setting, states: seq<Ring>, ops: seq<Op<Entry>>, outs: seq<Result>,
                                         i: nat, k: bytes)
    requires IsRun(StepOf(x), states, ops, outs) && i <= |ops| && k in states[i].items
    ensures Sourced(x, states, ops, outs, i, k, states[i].items[k])
  {
    hide Step;
    if i > 0 {
      var n: nat, d := i - 1, states[i].items[k];
      assert StepOf(x)(states[n], ops[n], outs[n], states[i]);
      StepSources(x, states[n], ops[n], outs[n], states[i], k);
      if PutAt(x, states, ops, outs, n, k, d) {
        assert UnsettledBetween(ops, outs, n + 1, i, k);
      } else {
        ItemIsSourced(x, states, ops, outs, n, k);
        if j: nat :| j < n && PutAt(x, states, ops, outs, j, k, d) && UnsettledBetween(ops, outs, j + 1, n, k) {
          assert UnsettledBetween(ops, outs, j + 1, i, k);
        }
      }
    }
  }

  /** A successful Get returns what a Set of its name stored, or what somebody else wrote during a
      Get of it, with no successful Set or Remove of the name since; or what was there at the start. */
  lemma GetReturnsLastPut(x: Setting, states: seq<Ring>, ops: seq<Op<Entry>>, outs: seq<Result>, i: nat)
    requires IsRun(StepOf(x), states, ops, outs) && i < |ops| && ops[i].GetOp? && outs[i].Data?
    ensures Sourced(x, states, ops, outs, i + 1, ops[i].key, outs[i].data)
  {
    assert StepOf(x)(states[i], ops[i], outs[i], states[i + 1]);
    ItemIsSourced(x, states, ops, outs, i + 1, ops[i].key);
  }

  /** The Set of these data succeeded, and since then none of the name did, nor a Remove. */
  ghost predicate LastSetAt(ops: seq<Op<Entry>>, outs: seq<Result>, j: nat, to: nat, k: bytes, d: bytes)
    requires to <= |ops| == |outs|
  {
    j < to && ops[j] == SetOp(Entry(k, d)) && outs[j].Done? && UnsettledBetween(ops, outs, j + 1, to, k)
  }

  /** Where nobody else writes and no Set of the name fails, it is what the last successful Set of
      the name stored. */
  lemma GetReturnsLastSet(x: Setting, states: seq<Ring>, ops: seq<Op<Entry>>, outs: seq<Result>, i: nat)
    requires IsRun(StepOf(x), states, ops, outs) && i < |ops| && ops[i].GetOp? && outs[i].Data?
    requires forall n: nat :: x.interference(n).None?
    requires forall j | 0 <= j < i && ops[j].SetOp? && ops[j].item.key == ops[i].key :: !outs[j].Failed?
    ensures || (exists j: nat :: LastSetAt(ops, outs, j, i, ops[i].key, outs[i].data))
            || (UnsettledBetween(ops, outs, 0, i, ops[i].key)
                && ops[i].key in states[0].items && states[0].items[ops[i].key] == outs[i].data)
  {
    var k, d := ops[i].key, outs[i].data;
    GetReturnsLastPut(x, states, ops, outs, i);
    if j: nat :| j < i + 1 && PutAt(x, states, ops, outs, j, k, d) && UnsettledBetween(ops, outs, j + 1, i + 1, k) {
      assert StepOf(x)(states[j], ops[j], outs[j], states[j + 1]);
      assert LastSetAt(ops, outs, j, i, k, d);
    }
  }
}
