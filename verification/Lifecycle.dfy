/**
 src/FeatureManager.cpp: features are added, started in three sweeps, looped, and
 shut down in reverse. What a feature does when called is not modelled; which
 calls it receives, and in which order, is.
 */
module Lifecycle {
  import opened Text

  const MAX_FEATURES := 16

  datatype Kind = Setup | RegisterCommands | RegisterCapabilities | Loop | Shutdown

  datatype Call<F> = Call(kind: Kind, feature: F)

  /** One sweep: the same call to every feature, in list order. */
  function Sweep<F>(k: Kind, features: seq<F>): (calls: seq<Call<F>>)
    ensures |calls| == |features| && forall i :: 0 <= i < |features| ==> calls[i] == Call(k, features[i])
  {
    seq(|features|, i requires 0 <= i < |features| => Call(k, features[i]))
  }

  function Reversed<F>(s: seq<F>): (r: seq<F>)
    ensures |r| == |s| && forall i :: 0 <= i < |s| ==> r[i] == s[|s| - 1 - i]
  {
    seq(|s|, i requires 0 <= i < |s| => s[|s| - 1 - i])
  }

  datatype State<F> = State(features: seq<F>, started: bool, trace: seq<Call<F>>)

  datatype Added<F> = Added(state: State<F>, ok: bool)

  function Add<F(==)>(s: State<F>, f: F): Added<F> {
    if s.started || |s.features| >= MAX_FEATURES then Added(s, false)
    else if f in s.features then Added(s, true)
    else Added(s.(features := s.features + [f]), true)
  }

  /** Every setup, then every command registration, then every capability registration. */
  function Start<F>(s: State<F>): State<F> {
    if s.started then s
    else s.(started := true,
            trace := s.trace + Sweep(Setup, s.features) + Sweep(RegisterCommands, s.features)
                     + Sweep(RegisterCapabilities, s.features))
  }

  function LoopAll<F>(s: State<F>): State<F> {
    if s.started then s.(trace := s.trace + Sweep(Loop, s.features)) else s
  }

  function Stop<F>(s: State<F>): State<F> {
    if s.started then s.(started := false, trace := s.trace + Sweep(Shutdown, Reversed(s.features))) else s
  }

  class FeatureManager<F(==,0)> {
    const features: array<F>
    var count: nat
    var started: bool
    ghost var trace: seq<Call<F>>

    ghost predicate Valid()
      reads this
    {
      features.Length == MAX_FEATURES && count <= MAX_FEATURES
    }

    ghost function Model(): State<F>
      requires Valid()
      reads this, features
    {
      State(features[..count], started, trace)
    }

    constructor ()
      ensures Valid() && Model() == State([], false, []) && fresh(features)
    {
      features := new F[MAX_FEATURES];
      count, started, trace := 0, false, [];
    }

    /** The virtual call itself, as far as the manager can tell. */
    method CallFeature(k: Kind, i: nat)
      requires Valid() && i < count
      modifies this`trace
      ensures trace == old(trace) + [Call(k, features[i])]
    {
      trace := trace + [Call(k, features[i])];
    }

    method CallAll(k: Kind)
      requires Valid()
      modifies this`trace
      ensures trace == old(trace) + Sweep(k, features[..count])
    {
      ghost var all := Sweep(k, features[..count]);
      for i := 0 to count
        invariant trace == old(trace) + all[..i]
      {
        CallFeature(k, i);
        assert all[..i + 1] == all[..i] + [all[i]];
      }
      assert all[..count] == all;
    }

    /** None is the null feature. */
    method AddFeature(feature: Option<F>) returns (ok: bool)
      requires Valid()
      modifies this`count, features
      ensures Valid()
      ensures if feature.None? then !ok && Model() == old(Model())
              else Added(Model(), ok) == Add(old(Model()), feature.value)
    {
      if feature.None? || started || count >= MAX_FEATURES {
        return false;
      }
      for i := 0 to count
        invariant forall j :: 0 <= j < i ==> features[j] != feature.value
      {
        if features[i] == feature.value {
          assert feature.value == features[..count][i];
          return true;
        }
      }
      features[count] := feature.value;
      count := count + 1;
      return true;
    }

    method StartAll()
      requires Valid()
      modifies this`trace, this`started
      ensures Valid() && Model() == Start(old(Model()))
    {
      if started {
        return;
      }
      CallAll(Setup);
      CallAll(RegisterCommands);
      CallAll(RegisterCapabilities);
      started := true;
    }

    method LoopOnce()
      requires Valid()
      modifies this`trace
      ensures Valid() && Model() == LoopAll(old(Model()))
    {
      if !started {
        return;
      }
      CallAll(Loop);
    }

    method StopAll()
      requires Valid()
      modifies this`trace, this`started
      ensures Valid() && Model() == Stop(old(Model()))
    {
      if !started {
        return;
      }
      ghost var all := Sweep(Shutdown, Reversed(features[..count]));
      var i: nat := count;
      while i > 0
        invariant i <= count && trace == old(trace) + all[..count - i]
      {
        CallFeature(Shutdown, i - 1);
        assert all[..count - i + 1] == all[..count - i] + [all[count - i]];
        i := i - 1;
      }
      assert all[..count] == all;
      started := false;
    }
  }

  // ----- every feature's life over any run ---------------------------------------------

  datatype Phase = Idle | IsSetUp | HasCommands | Running | OutOfOrder

  function Advance(p: Phase, k: Kind): Phase {
    match (p, k)
    case (Idle, Setup) => IsSetUp
    case (IsSetUp, RegisterCommands) => HasCommands
    case (HasCommands, RegisterCapabilities) => Running
    case (Running, Loop) => Running
    case (Running, Shutdown) => Idle
    case _ => OutOfOrder
  }

  /** Where one feature stands after a trace: the life cycle as an automaton. */
  function PhaseAfter<F(==)>(f: F, trace: seq<Call<F>>): Phase {
    if trace == [] then Idle
    else
      var p, c := PhaseAfter(f, trace[..|trace| - 1]), trace[|trace| - 1];
      if c.feature == f then Advance(p, c.kind) else p
  }

  ghost predicate NoDup<F>(s: seq<F>) {
    forall i, j :: 0 <= i < j < |s| ==> s[i] != s[j]
  }

  /** A sweep over distinct features advances each of them once and no other. */
  lemma {:induction false} SweepAdvances<F>(f: F, trace: seq<Call<F>>, k: Kind, features: seq<F>)
    requires NoDup(features)
    ensures PhaseAfter(f, trace + Sweep(k, features))
         == if f in features then Advance(PhaseAfter(f, trace), k) else PhaseAfter(f, trace)
    decreases |features|
  {
    if features == [] {
      assert trace + Sweep(k, features) == trace;
    } else {
      var front, last := features[..|features| - 1], features[|features| - 1];
      var whole := trace + Sweep(k, features);
      assert whole[..|whole| - 1] == trace + Sweep(k, front);
      SweepAdvances(f, trace, k, front);
      assert features == front + [last];
      assert last !in front;
    }
  }

  datatype Op<F> = DoAdd(f: F) | DoStart | DoLoop | DoStop

  function Apply<F(==)>(s: State<F>, op: Op<F>): State<F> {
    match op
    case DoAdd(f) => Add(s, f).state
    case DoStart => Start(s)
    case DoLoop => LoopAll(s)
    case DoStop => Stop(s)
  }

  function RunOps<F(==)>(ops: seq<Op<F>>): State<F> {
    if ops == [] then State([], false, []) else Apply(RunOps(ops[..|ops| - 1]), ops[|ops| - 1])
  }

  ghost predicate Orderly<F>(s: State<F>, f: F) {
    && NoDup(s.features) && |s.features| <= MAX_FEATURES
    && PhaseAfter(f, s.trace) == if s.started && f in s.features then Running else Idle
  }

  lemma ApplyOrderly<F>(s: State<F>, op: Op<F>, f: F)
    requires Orderly(s, f)
    ensures Orderly(Apply(s, op), f)
  {
    hide PhaseAfter, Sweep, Reversed;
    match op
    case DoAdd(_) =>
    case DoStart =>
      var t1 := s.trace + Sweep(Setup, s.features);
      var t2 := t1 + Sweep(RegisterCommands, s.features);
      SweepAdvances(f, s.trace, Setup, s.features);
      SweepAdvances(f, t1, RegisterCommands, s.features);
      SweepAdvances(f, t2, RegisterCapabilities, s.features);
    case DoLoop => SweepAdvances(f, s.trace, Loop, s.features);
    case DoStop =>
      ReversedSame(s.features, f);
      SweepAdvances(f, s.trace, Shutdown, Reversed(s.features));
  }

  lemma ReversedSame<F>(s: seq<F>, f: F)
    requires NoDup(s)
    ensures NoDup(Reversed(s)) && (f in Reversed(s) <==> f in s)
  {
    if f in s {
      var i :| 0 <= i < |s| && s[i] == f;
      assert Reversed(s)[|s| - 1 - i] == f;
    }
  }

  /**
   Over every run of add, start, loop and stop each feature is called in the order
   of its life cycle: it runs exactly while the manager is started and it is on the
   list, and no call ever reaches it in another phase.
   */
  lemma {:induction false} EveryFeatureLivesInOrder<F>(ops: seq<Op<F>>, f: F)
    ensures Orderly(RunOps(ops), f)
  {
    if ops != [] {
      hide Orderly, Apply;
      EveryFeatureLivesInOrder(ops[..|ops| - 1], f);
      ApplyOrderly(RunOps(ops[..|ops| - 1]), ops[|ops| - 1], f);
    }
  }

  /** While started the feature list is fixed, and it only ever grows at its end. */
  lemma ListIsFixedWhileStarted<F>(s: State<F>, op: Op<F>)
    ensures s.features <= Apply(s, op).features
    ensures s.started ==> Apply(s, op).features == s.features
    ensures s.trace <= Apply(s, op).trace
  {
  }

  lemma StartCalls<F>(s: State<F>)
    requires !s.started
    ensures var t, n, o := Start(s).trace, |s.features|, |s.trace|;
            && s.trace <= t && |t| == o + 3 * n
            && (forall i :: 0 <= i < n ==> t[o + i] == Call(Setup, s.features[i]))
            && (forall i :: 0 <= i < n ==> t[o + n + i] == Call(RegisterCommands, s.features[i]))
            && forall i :: 0 <= i < n ==> t[o + n + n + i] == Call(RegisterCapabilities, s.features[i])
  {
    hide *;
    var t, n, o := Start(s).trace, |s.features|, |s.trace|;
    StartSlices(s);
    SweepAt(t, o, Setup, s.features);
    SweepAt(t, o + n, RegisterCommands, s.features);
    SweepAt(t, o + n + n, RegisterCapabilities, s.features);
  }

  lemma StartSlices<F>(s: State<F>)
    requires !s.started
    ensures var t, n, o := Start(s).trace, |s.features|, |s.trace|;
            && s.trace <= t && |t| == o + 3 * n
            && t[o..o + n] == Sweep(Setup, s.features)
            && t[o + n..o + n + n] == Sweep(RegisterCommands, s.features)
            && t[o + n + n..o + n + n + n] == Sweep(RegisterCapabilities, s.features)
  {
    var a, b := Sweep(Setup, s.features), Sweep(RegisterCommands, s.features);
    var c := Sweep(RegisterCapabilities, s.features);
    assert Start(s).trace == s.trace + a + b + c;
    hide *;
    ThreeSlices(s.trace, a, b, c, |s.features|);
  }

  lemma ThreeSlices<T>(t: seq<T>, a: seq<T>, b: seq<T>, c: seq<T>, n: nat)
    requires |a| == |b| == |c| == n
    ensures var v, o := t + a + b + c, |t|;
            && t <= v && |v| == o + 3 * n
            && v[o..o + n] == a && v[o + n..o + n + n] == b && v[o + n + n..o + n + n + n] == c
  {
  }

  lemma SweepAt<F>(t: seq<Call<F>>, o: nat, k: Kind, features: seq<F>)
    requires o + |features| <= |t| && t[o..o + |features|] == Sweep(k, features)
    ensures forall i :: 0 <= i < |features| ==> t[o + i] == Call(k, features[i])
  {
    forall i | 0 <= i < |features| ensures t[o + i] == Call(k, features[i]) {
      assert t[o..o + |features|][i] == t[o + i];
    }
  }

  lemma OneSlice<T>(t: seq<T>, a: seq<T>, n: nat)
    requires |a| == n
    ensures t <= t + a && |t + a| == |t| + n && (t + a)[|t|..|t| + n] == a
  {
  }

  lemma LoopCalls<F>(s: State<F>)
    requires s.started
    ensures var t, n := LoopAll(s).trace, |s.features|;
            && s.trace <= t && |t| == |s.trace| + n
            && forall i :: 0 <= i < n ==> t[|s.trace| + i] == Call(Loop, s.features[i])
  {
    OneSlice(s.trace, Sweep(Loop, s.features), |s.features|);
    SweepAt(LoopAll(s).trace, |s.trace|, Loop, s.features);
  }

  lemma StopCalls<F>(s: State<F>)
    requires s.started
    ensures var t, n := Stop(s).trace, |s.features|;
            && s.trace <= t && |t| == |s.trace| + n
            && forall i :: 0 <= i < n ==> t[|s.trace| + n - 1 - i] == Call(Shutdown, s.features[i])
  {
    var t, n, back := Stop(s).trace, |s.features|, Reversed(s.features);
    OneSlice(s.trace, Sweep(Shutdown, back), n);
    SweepAt(t, |s.trace|, Shutdown, back);
    hide Stop, Sweep, Reversed;
    forall i | 0 <= i < n ensures t[|s.trace| + n - 1 - i] == Call(Shutdown, s.features[i]) {
      var j := n - 1 - i;
      assert t[|s.trace| + j] == Call(Shutdown, back[j]);
    }
  }

  /** What one operation does, call by call. */
  lemma OneOperation<F>(s: State<F>, op: Op<F>)
    ensures var t, n := Apply(s, op), |s.features|;
            match op
            case DoAdd(f) =>
              t == if !s.started && n < 16 && f !in s.features then s.(features := s.features + [f]) else s
            case DoStart =>
              if s.started then t == s
              else
                && t.started && t.features == s.features && s.trace <= t.trace && |t.trace| == |s.trace| + 3 * n
                && forall i :: 0 <= i < n ==>
                     && t.trace[|s.trace| + i] == Call(Setup, s.features[i])
                     && t.trace[|s.trace| + n + i] == Call(RegisterCommands, s.features[i])
                     && t.trace[|s.trace| + n + n + i] == Call(RegisterCapabilities, s.features[i])
            case DoLoop =>
              if !s.started then t == s
              else
                && t.started && t.features == s.features && s.trace <= t.trace && |t.trace| == |s.trace| + n
                && forall i :: 0 <= i < n ==> t.trace[|s.trace| + i] == Call(Loop, s.features[i])
            case DoStop =>
              if !s.started then t == s
              else
                && !t.started && t.features == s.features && s.trace <= t.trace && |t.trace| == |s.trace| + n
                && forall i :: 0 <= i < n ==> t.trace[|s.trace| + n - 1 - i] == Call(Shutdown, s.features[i])
  {
    hide Sweep, Reversed;
    if op.DoStart? && !s.started {
      StartCalls(s);
    } else if !op.DoAdd? && s.started {
      LoopCalls(s);
      StopCalls(s);
    }
  }

  predicate Adds<F(==)>(ops: seq<Op<F>>, i: nat, f: F)
    requires i < |ops|
  {
    ops[i] == DoAdd(f) && !RunOps(ops[..i]).started && |RunOps(ops[..i]).features| < 16
  }

  ghost predicate EverAdded<F>(ops: seq<Op<F>>, f: F) {
    exists i :: 0 <= i < |ops| && Adds(ops, i, f)
  }

  lemma EverAddedStep<F>(ops: seq<Op<F>>, f: F)
    requires ops != []
    ensures EverAdded(ops, f) <==> EverAdded(ops[..|ops| - 1], f) || Adds(ops, |ops| - 1, f)
  {
    hide RunOps;
    var front := ops[..|ops| - 1];
    assert forall i :: 0 <= i < |front| ==> front[..i] == ops[..i];
    assert forall i :: 0 <= i < |front| ==> (Adds(front, i, f) <==> Adds(ops, i, f));
    hide Adds;
    if EverAdded(front, f) {
      var i :| 0 <= i < |front| && Adds(front, i, f);
      assert Adds(ops, i, f);
    }
  }

  /** On the list is exactly what was ever added while the manager was not started and had room. */
  lemma {:induction false} ListIsWhatWasAdded<F>(ops: seq<Op<F>>, f: F)
    ensures f in RunOps(ops).features <==> EverAdded(ops, f)
  {
    if ops != [] {
      hide EverAdded;
      var front := ops[..|ops| - 1];
      ListIsWhatWasAdded(front, f);
      EverAddedStep(ops, f);
      OneOperation(RunOps(front), ops[|ops| - 1]);
    } else {
      assert !EverAdded(ops, f);
    }
  }

  // ----- the order between features, on the trace alone ------------------------------------

  function Rank(k: Kind): nat {
    match k case Setup => 0 case RegisterCommands => 1 case RegisterCapabilities => 2 case Loop => 3 case Shutdown => 4
  }

  /** The calls from a to b belong to one start: no setup among them follows a shutdown. */
  ghost predicate OneSession<F>(t: seq<Call<F>>, a: nat, b: nat) {
    forall i, j :: a <= i < j <= b && j < |t| ==> !(t[i].kind == Shutdown && t[j].kind == Setup)
  }

  /** f stands before g on the list. */
  ghost predicate InOrder<F>(features: seq<F>, f: F, g: F) {
    exists p, q :: 0 <= p < q < |features| && features[p] == f && features[q] == g
  }

  /** The calls of one start: kind after kind, in list order, and shut down in reverse. */
  ghost predicate IsSession<F>(u: seq<Call<F>>, features: seq<F>) {
    && (u != [] ==> u[0].kind == Setup)
    && (forall x, y :: 0 <= x < y < |u| ==> Rank(u[x].kind) <= Rank(u[y].kind))
    && (forall x, y :: 0 <= x < y < |u| && u[x].kind == u[y].kind && u[x].kind != Loop ==>
          if u[x].kind == Shutdown then InOrder(features, u[y].feature, u[x].feature)
          else InOrder(features, u[x].feature, u[y].feature))
  }

  lemma SweepIsSession<F>(k: Kind, features: seq<F>, list: seq<F>)
    requires list == if k == Shutdown then Reversed(features) else features
    ensures var v := Sweep(k, list);
            forall x, y :: 0 <= x < y < |v| ==>
              if k == Shutdown then InOrder(features, v[y].feature, v[x].feature)
              else InOrder(features, v[x].feature, v[y].feature)
  {
    var v, n := Sweep(k, list), |features|;
    forall x, y | 0 <= x < y < |v|
      ensures if k == Shutdown then InOrder(features, v[y].feature, v[x].feature)
              else InOrder(features, v[x].feature, v[y].feature)
    {
      if k == Shutdown {
        assert features[n - 1 - y] == v[y].feature && features[n - 1 - x] == v[x].feature;
      }
    }
  }

  lemma SessionGrows<F>(u: seq<Call<F>>, k: Kind, features: seq<F>, list: seq<F>)
    requires IsSession(u, features) && list == if k == Shutdown then Reversed(features) else features
    requires forall x :: 0 <= x < |u| ==> Rank(u[x].kind) < Rank(k) || (k == Loop && u[x].kind == Loop)
    requires u == [] ==> k == Setup || features == []
    ensures IsSession(u + Sweep(k, list), features)
  {
    hide InOrder, Reversed;
    var v := Sweep(k, list);
    var w := u + v;
    SweepIsSession(k, features, list);
    assert forall x :: 0 <= x < |w| ==> w[x] == if x < |u| then u[x] else v[x - |u|];
    forall x, y | 0 <= x < y < |w| && w[x].kind == w[y].kind && w[x].kind != Loop
      ensures if w[x].kind == Shutdown then InOrder(features, w[y].feature, w[x].feature)
              else InOrder(features, w[x].feature, w[y].feature)
    {
      if x >= |u| {
        assert v[x - |u|] == w[x] && v[y - |u|] == w[y];
      } else if y < |u| {
        assert u[x] == w[x] && u[y] == w[y];
      }
    }
  }

  datatype Session<F> = Session(features: seq<F>, calls: seq<Call<F>>)

  /** The starts of a run, each with the calls up to its stop. */
  function Sessions<F(==)>(ops: seq<Op<F>>): seq<Session<F>> {
    if ops == [] then []
    else
      var past, s := Sessions(ops[..|ops| - 1]), RunOps(ops[..|ops| - 1]);
      match ops[|ops| - 1]
      case DoAdd(_) => past
      case DoStart =>
        if s.started then past
        else past + [Session(s.features, Sweep(Setup, s.features) + Sweep(RegisterCommands, s.features)
                                         + Sweep(RegisterCapabilities, s.features))]
      case DoLoop => if s.started then Continued(past, Sweep(Loop, s.features)) else past
      case DoStop => if s.started then Continued(past, Sweep(Shutdown, Reversed(s.features))) else past
  }

  function Continued<F>(past: seq<Session<F>>, calls: seq<Call<F>>): seq<Session<F>> {
    if past == [] then []
    else
      var last := past[|past| - 1];
      past[..|past| - 1] + [last.(calls := last.calls + calls)]
  }

  function Flat<F>(sessions: seq<Session<F>>): seq<Call<F>> {
    if sessions == [] then [] else Flat(sessions[..|sessions| - 1]) + sessions[|sessions| - 1].calls
  }

  predicate IsClosed<F>(c: Session<F>) {
    c.calls != [] ==> c.calls[|c.calls| - 1].kind == Shutdown
  }

  ghost predicate IsOpen<F>(c: Session<F>, features: seq<F>) {
    && c.features == features && (c.calls == [] <==> features == [])
    && forall x :: 0 <= x < |c.calls| ==> c.calls[x].kind != Shutdown
  }

  ghost predicate SessionsOk<F>(sessions: seq<Session<F>>, s: State<F>) {
    && s.trace == Flat(sessions) && NoDup(s.features)
    && (forall i :: 0 <= i < |sessions| ==>
          IsSession(sessions[i].calls, sessions[i].features) && NoDup(sessions[i].features))
    && (forall i :: 0 <= i < |sessions| - 1 ==> IsClosed(sessions[i]))
    && (if s.started then sessions != [] && IsOpen(sessions[|sessions| - 1], s.features)
        else sessions != [] ==> IsClosed(sessions[|sessions| - 1]))
  }

  lemma FlatSnoc<F>(past: seq<Session<F>>, c: Session<F>)
    ensures Flat(past + [c]) == Flat(past) + c.calls
  {
    assert (past + [c])[..|past|] == past;
  }

  lemma FlatContinued<F>(past: seq<Session<F>>, calls: seq<Call<F>>)
    requires past != []
    ensures Flat(Continued(past, calls)) == Flat(past) + calls
  {
    var last := past[|past| - 1];
    FlatSnoc(past[..|past| - 1], last.(calls := last.calls + calls));
  }

  lemma OneMoreKind<F>(u: seq<Call<F>>, k: Kind, features: seq<F>, top: nat)
    requires IsSession(u, features) && (u == [] ==> k == Setup || features == [])
    requires (forall x :: 0 <= x < |u| ==> Rank(u[x].kind) < top) && Rank(k) == top && k != Loop && k != Shutdown
    ensures var w := u + Sweep(k, features);
            && IsSession(w, features) && (forall x :: 0 <= x < |w| ==> Rank(w[x].kind) < top + 1)
            && (w == [] ==> u == [] && features == [])
  {
    SessionGrows(u, k, features, features);
    hide IsSession;
  }

  lemma NothingIsSession<F>(features: seq<F>)
    ensures IsSession<F>([], features)
  {
  }

  lemma StartSession<F>(features: seq<F>)
    ensures var u := Sweep(Setup, features) + Sweep(RegisterCommands, features) + Sweep(RegisterCapabilities, features);
            IsSession(u, features) && IsOpen(Session(features, u), features)
  {
    hide IsSession;
    NothingIsSession(features);
    OneMoreKind([], Setup, features, 0);
    assert [] + Sweep(Setup, features) == Sweep(Setup, features);
    var u := Sweep(Setup, features);
    OneMoreKind(u, RegisterCommands, features, 1);
    var v := u + Sweep(RegisterCommands, features);
    OneMoreKind(v, RegisterCapabilities, features, 2);
    var w := v + Sweep(RegisterCapabilities, features);
    assert forall x :: 0 <= x < |w| ==> Rank(w[x].kind) < 3;
    assert |w| == 3 * |features|;
  }

  lemma StartKeeps<F>(sessions: seq<Session<F>>, s: State<F>, c: Session<F>)
    requires SessionsOk(sessions, s) && !s.started
    requires IsSession(c.calls, c.features) && IsOpen(c, s.features)
    ensures SessionsOk(sessions + [c], s.(started := true, trace := s.trace + c.calls))
  {
    hide IsSession, Flat, NoDup, IsOpen, IsClosed;
    FlatSnoc(sessions, c);
    OpenHas(c, s.features);
  }

  lemma OpenHas<F>(c: Session<F>, features: seq<F>)
    requires IsOpen(c, features)
    ensures c.features == features
  {
  }

  lemma ContinueKeeps<F>(sessions: seq<Session<F>>, s: State<F>, k: Kind, list: seq<F>)
    requires SessionsOk(sessions, s) && s.started && (k == Loop || k == Shutdown)
    requires list == if k == Shutdown then Reversed(s.features) else s.features
    ensures SessionsOk(Continued(sessions, Sweep(k, list)),
                       s.(started := k == Loop, trace := s.trace + Sweep(k, list)))
  {
    hide Flat, NoDup;
    var last := sessions[|sessions| - 1];
    FlatContinued(sessions, Sweep(k, list));
    RanksBelow(last, s.features, k);
    SessionGrows(last.calls, k, s.features, list);
    hide IsSession;
    var grown := last.(calls := last.calls + Sweep(k, list));
    SweepEnds(last, k, list);
    assert |list| == |s.features|;
  }

  lemma RanksBelow<F>(c: Session<F>, features: seq<F>, k: Kind)
    requires IsOpen(c, features) && (k == Loop || k == Shutdown)
    ensures forall x :: 0 <= x < |c.calls| ==> Rank(c.calls[x].kind) < Rank(k) || (k == Loop && c.calls[x].kind == Loop)
  {
  }

  lemma SweepEnds<F>(c: Session<F>, k: Kind, list: seq<F>)
    requires IsOpen(c, c.features) && |list| == |c.features|
    ensures var d := c.(calls := c.calls + Sweep(k, list));
            (k == Shutdown ==> IsClosed(d)) && (k == Loop ==> IsOpen(d, c.features))
  {
  }

  lemma {:induction false} RunsAreSessions<F>(ops: seq<Op<F>>)
    ensures SessionsOk(Sessions(ops), RunOps(ops))
  {
    if ops == [] {
      assert Flat<F>([]) == [];
    } else {
      var front, op := ops[..|ops| - 1], ops[|ops| - 1];
      var past, s := Sessions(front), RunOps(front);
      RunsAreSessions(front);
      match op
      case DoAdd(f) => AddKeeps(past, s, f);
      case DoStart =>
        if !s.started {
          StartSession(s.features);
          var u := Sweep(Setup, s.features) + Sweep(RegisterCommands, s.features)
                   + Sweep(RegisterCapabilities, s.features);
          StartKeeps(past, s, Session(s.features, u));
          StartStep(s, u);
        }
      case DoLoop => if s.started { ContinueKeeps(past, s, Loop, s.features); }
      case DoStop => if s.started { ContinueKeeps(past, s, Shutdown, Reversed(s.features)); }
    }
  }

  lemma StartStep<F>(s: State<F>, u: seq<Call<F>>)
    requires !s.started
    requires u == Sweep(Setup, s.features) + Sweep(RegisterCommands, s.features)
                  + Sweep(RegisterCapabilities, s.features)
    ensures Start(s) == s.(started := true, trace := s.trace + u)
  {
    assert Start(s).trace == s.trace + u;
  }

  lemma AddKeeps<F>(sessions: seq<Session<F>>, s: State<F>, f: F)
    requires SessionsOk(sessions, s)
    ensures SessionsOk(sessions, Add(s, f).state)
  {
    hide Flat, IsSession, IsClosed;
  }

  lemma {:induction false} ClosedFlat<F>(sessions: seq<Session<F>>)
    requires forall i :: 0 <= i < |sessions| ==> IsClosed(sessions[i])
    ensures Flat(sessions) != [] ==> Flat(sessions)[|Flat(sessions)| - 1].kind == Shutdown
  {
    if sessions != [] {
      ClosedFlat(sessions[..|sessions| - 1]);
      assert IsClosed(sessions[|sessions| - 1]);
    }
  }

  /** The calls of session i lie at offset o. */
  predicate LiesAt<F(==)>(sessions: seq<Session<F>>, i: nat, o: nat) {
    && i < |sessions| && o + |sessions[i].calls| <= |Flat(sessions)|
    && Flat(sessions)[o..o + |sessions[i].calls|] == sessions[i].calls
  }

  lemma LiesInFront<F>(sessions: seq<Session<F>>, i: nat, o: nat)
    requires sessions != [] && LiesAt(sessions[..|sessions| - 1], i, o)
    ensures LiesAt(sessions, i, o)
  {
    var front, last := sessions[..|sessions| - 1], sessions[|sessions| - 1];
    var t, u := Flat(front), front[i].calls;
    assert Flat(sessions) == t + last.calls;
    hide Flat;
    assert (t + last.calls)[o..o + |u|] == t[o..o + |u|];
  }

  lemma LiesLast<F>(sessions: seq<Session<F>>)
    requires sessions != []
    ensures LiesAt(sessions, |sessions| - 1, |Flat(sessions[..|sessions| - 1])|)
    ensures |Flat(sessions)| == |Flat(sessions[..|sessions| - 1])| + |sessions[|sessions| - 1].calls|
    ensures Flat(sessions) == Flat(sessions[..|sessions| - 1]) + sessions[|sessions| - 1].calls
  {
  }

  lemma FlatOfNone<F>(sessions: seq<Session<F>>)
    ensures Flat(sessions) != [] ==> sessions != []
  {
  }

  lemma OneSessionFront<F>(t: seq<Call<F>>, u: seq<Call<F>>, a: nat, b: nat)
    requires OneSession(t, a, b) && u <= t
    ensures OneSession(u, a, b)
  {
  }

  /** A session that starts behind a closed one is cut off from it. */
  lemma NoCrossing<F>(t: seq<Call<F>>, u: seq<Call<F>>, v: seq<Call<F>>, a: nat, b: nat)
    requires t == u + v && a <= b < |t| && OneSession(t, a, b)
    requires (u != [] ==> u[|u| - 1].kind == Shutdown) && (v != [] ==> v[0].kind == Setup)
    ensures a >= |u| || b < |u|
  {
    hide OneSession;
    if a < |u| <= b {
      assert t[|u| - 1] == u[|u| - 1] && t[|u|] == v[0];
      NeighboursIn(t, a, b, |u| - 1);
    }
  }

  lemma NeighboursIn<F>(t: seq<Call<F>>, a: nat, b: nat, j: nat)
    requires OneSession(t, a, b) && a <= j < b < |t|
    ensures t[j].kind != Shutdown || t[j + 1].kind != Setup
  {
  }

  /** Calls with no setup after a shutdown between them come from one start. */
  lemma {:induction false} FindSession<F>(sessions: seq<Session<F>>, a: nat, b: nat) returns (i: nat, o: nat)
    requires forall i :: 0 <= i < |sessions| - 1 ==> IsClosed(sessions[i])
    requires forall i :: 0 <= i < |sessions| ==> IsSession(sessions[i].calls, sessions[i].features)
    requires a <= b < |Flat(sessions)| && OneSession(Flat(sessions), a, b)
    ensures i < |sessions| && LiesAt(sessions, i, o) && o <= a && b < o + |sessions[i].calls|
    decreases |sessions|
  {
    hide IsSession, IsClosed, Flat, OneSession;
    FlatOfNone(sessions);
    var front, last := sessions[..|sessions| - 1], sessions[|sessions| - 1];
    LiesLast(sessions);
    ClosedFlat(front);
    StartsWithSetup(last.calls, last.features);
    NoCrossing(Flat(sessions), Flat(front), last.calls, a, b);
    if b < |Flat(front)| {
      OneSessionFront(Flat(sessions), Flat(front), a, b);
      i, o := FindSession(front, a, b);
      LiesInFront(sessions, i, o);
    } else {
      i, o := |sessions| - 1, |Flat(front)|;
    }
  }

  lemma CallAt<F>(sessions: seq<Session<F>>, i: nat, o: nat, x: nat)
    requires i < |sessions| && LiesAt(sessions, i, o) && o <= x < o + |sessions[i].calls|
    ensures x < |Flat(sessions)| && Flat(sessions)[x] == sessions[i].calls[x - o]
  {
    hide Flat;
    var t, u := Flat(sessions), sessions[i].calls;
    assert t[o..o + |u|][x - o] == t[x];
  }

  lemma StartsWithSetup<F>(u: seq<Call<F>>, features: seq<F>)
    requires IsSession(u, features)
    ensures u != [] ==> u[0].kind == Setup
  {
  }

  lemma OrderIsOne<F>(features: seq<F>, f: F, g: F)
    requires NoDup(features) && InOrder(features, f, g)
    ensures !InOrder(features, g, f) && f != g
  {
    var p, q :| 0 <= p < q < |features| && features[p] == f && features[q] == g;
  }

  /**
   Over every run and within one start, on the trace alone: all setups come before
   all command registrations, these before all capability registrations, these
   before all loop calls and these before all shutdowns.
   */
  lemma KindsComeInOrder<F>(ops: seq<Op<F>>, x: nat, y: nat)
    requires x < y < |RunOps(ops).trace| && OneSession(RunOps(ops).trace, x, y)
    ensures var t := RunOps(ops).trace; Rank(t[x].kind) <= Rank(t[y].kind)
  {
    hide RunOps, Sessions, Flat, InOrder;
    RunsAreSessions(ops);
    var i, o := FindSession(Sessions(ops), x, y);
    CallAt(Sessions(ops), i, o, x);
    CallAt(Sessions(ops), i, o, y);
  }

  /**
   And between features: f is set up before g if and only if it registers before g,
   for either registration, and if and only if it is shut down after g.
   */
  lemma FeaturesKeepTheirOrder<F>(ops: seq<Op<F>>, lo: nat, hi: nat, a: nat, b: nat, x: nat, y: nat)
    requires var t := RunOps(ops).trace;
             && lo <= a <= hi && lo <= b <= hi && lo <= x <= hi && lo <= y <= hi < |t| && OneSession(t, lo, hi)
             && t[a].kind == Setup && t[b].kind == Setup && t[x].kind == t[y].kind && t[x].kind != Loop
             && t[a].feature == t[x].feature && t[b].feature == t[y].feature
    ensures RunOps(ops).trace[x].kind != Shutdown ==> (a < b <==> x < y)
    ensures RunOps(ops).trace[x].kind == Shutdown ==> (a < b <==> y < x)
  {
    hide RunOps, Sessions, Flat, NoDup, IsSession, OneSession, LiesAt;
    var all := Sessions(ops);
    SessionFacts(ops);
    var i, o := FindSession(all, lo, hi);
    CallAt(all, i, o, a);
    CallAt(all, i, o, b);
    CallAt(all, i, o, x);
    CallAt(all, i, o, y);
    SameOrder(all[i].calls, all[i].features, a - o, b - o, x - o, y - o);
  }

  lemma SessionFacts<F>(ops: seq<Op<F>>)
    ensures var all := Sessions(ops);
            && RunOps(ops).trace == Flat(all) && (forall i :: 0 <= i < |all| - 1 ==> IsClosed(all[i]))
            && forall i :: 0 <= i < |all| ==> IsSession(all[i].calls, all[i].features) && NoDup(all[i].features)
  {
    hide RunOps, Sessions, Flat, NoDup, IsSession;
    RunsAreSessions(ops);
  }

  lemma SameOrder<F>(u: seq<Call<F>>, features: seq<F>, a: nat, b: nat, x: nat, y: nat)
    requires IsSession(u, features) && NoDup(features) && a < |u| && b < |u| && x < |u| && y < |u|
    requires u[a].kind == Setup && u[b].kind == Setup && u[x].kind == u[y].kind && u[x].kind != Loop
    requires u[a].feature == u[x].feature && u[b].feature == u[y].feature
    ensures if u[x].kind == Shutdown then a < b <==> y < x else a < b <==> x < y
  {
    hide InOrder, NoDup;
    var f, g := u[a].feature, u[b].feature;
    if InOrder(features, f, g) {
      OrderIsOne(features, f, g);
    }
    if InOrder(features, g, f) {
      OrderIsOne(features, g, f);
    }
  }
}
