/** python/mcrpc/client.py: the client's pending table and its id counter. */
module Correlator {
  import opened Text
  import opened Wire
  import opened Tokens
  import Outbound

  datatype Pending = Pending(
    id: nat, target: string, command: string, args: seq<string>,
    channel: int, deadline: int, raw: string, broadcast: bool)

  /** The arguments of build(); `broadcast` addresses all, `metaBroadcast` is meta["broadcast"]. */
  datatype Ask = Ask(
    target: string, command: string, args: seq<string>, requestId: Option<nat>,
    timeout: Option<int>, channel: int, broadcast: bool, metaBroadcast: bool)

  /** `pending` is a dict, so its keys also have an order: that of their insertion. */
  datatype State = State(timeout: int, nextId: nat, pending: map<nat, Pending>, order: seq<nat>)

  /** The keys of a dict, in order, as far as they are in a set. */
  function Among(order: seq<nat>, keys: set<nat>): seq<nat> {
    if order == [] then []
    else
      var front, last := Among(order[..|order| - 1], keys), order[|order| - 1];
      if last in keys then front + [last] else front
  }

  ghost predicate NoDup(order: seq<nat>) {
    forall i, j :: 0 <= i < j < |order| ==> order[i] != order[j]
  }

  ghost predicate Ascending(order: seq<nat>) {
    forall i, j :: 0 <= i < j < |order| ==> order[i] < order[j]
  }

  lemma {:induction false} AmongFacts(order: seq<nat>, keys: set<nat>)
    ensures forall k :: k in Among(order, keys) <==> k in order && k in keys
    ensures NoDup(order) ==> NoDup(Among(order, keys))
  {
    if order != [] {
      var front, last := order[..|order| - 1], order[|order| - 1];
      assert order == front + [last];
      AmongFacts(front, keys);
    }
  }

  lemma {:induction false} AmongAscending(order: seq<nat>, keys: set<nat>)
    requires Ascending(order)
    ensures Ascending(Among(order, keys))
  {
    if order != [] {
      var front, last := order[..|order| - 1], order[|order| - 1];
      AmongFacts(front, keys);
      AmongAscending(front, keys);
      var kept := Among(front, keys);
      forall i | 0 <= i < |kept| ensures kept[i] < last {
        assert kept[i] in kept && kept[i] in front;
        var j :| 0 <= j < |front| && front[j] == kept[i];
        assert order[j] < order[|order| - 1];
      }
    }
  }

  function JoinWithSpaces(args: seq<string>): string {
    if args == [] then "" else if |args| == 1 then args[0] else args[0] + " " + JoinWithSpaces(args[1..])
  }

  /** build_request; None is its ValueError. */
  function BuildRequest(target: string, command: string, id: Option<nat>, args: seq<string>): Option<string> {
    if target == "" || command == "" then None
    else
      var head := match id case None => target case Some(n) => target + "#" + Decimal(n);
      Some(head + " " + command + if args == [] then "" else " " + JoinWithSpaces(args))
  }

  lemma {:induction false} JoinIsTail(args: seq<string>)
    requires args != []
    ensures " " + JoinWithSpaces(args) == Outbound.ArgsTail(args)
  {
    if |args| > 1 {
      JoinIsTail(args[1..]);
      assert args[0] + " " + JoinWithSpaces(args[1..]) == args[0] + (" " + JoinWithSpaces(args[1..]));
    } else {
      assert Outbound.ArgsTail(args[1..]) == "" && args[0] + "" == args[0];
    }
  }

  /**
   The Python builder prints the canonical line, so what a client builds from a
   well-formed request the C++ parser and the Python parser both read back as it was.
   */
  lemma BuiltLineParsesBack(d: Dialect, r: Request)
    requires Outbound.WellFormed(d, r)
    ensures var id := if r.hasId then Some(r.id) else None;
            var line := BuildRequest(WireTarget(r.kind, r.target), r.command, id, r.args);
            line == Some(Outbound.Line(r)) && Parse(d, line.value) == Parsed(Ok, r)
  {
    hide *;
    Outbound.WellFormedFacts(d, r);
    BuiltIsLine(r);
    Outbound.ParseOfLine(d, r);
  }

  lemma BuiltIsLine(r: Request)
    requires r.target != "" && r.command != ""
    ensures var id := if r.hasId then Some(r.id) else None;
            BuildRequest(WireTarget(r.kind, r.target), r.command, id, r.args) == Some(Outbound.Line(r))
  {
    hide Decimal, JoinWithSpaces, WireTarget, Outbound.ArgsTail;
    var t, tail := WireTarget(r.kind, r.target), Outbound.ArgsTail(r.args);
    assert t != "" by { TargetIsNotEmpty(r); }
    if r.args == [] {
      Outbound.NoArgsNoTail();
    } else {
      JoinIsTail(r.args);
    }
    TaggedLine(t, Decimal(r.id), r.command, tail);
  }

  lemma TargetIsNotEmpty(r: Request)
    requires r.target != ""
    ensures WireTarget(r.kind, r.target) != ""
  {
  }

  lemma TaggedLine(t: string, ds: string, c: string, tail: string)
    ensures t + "#" + ds + " " + c + tail == t + ("#" + ds + (" " + (c + tail)))
    ensures t + " " + c + tail == t + ("" + (" " + (c + tail)))
  {
  }

  datatype BuildResult = BuildResult(state: State, entry: Option<Pending>)

  /** An id is drawn before the line is built, so a refused line still uses one up. */
  function Build(s: State, a: Ask, now: int): BuildResult {
    var id := if a.requestId.Some? then a.requestId.value else s.nextId;
    var next := if a.requestId.Some? then s.nextId else s.nextId + 1;
    var dest := if a.broadcast then "all" else a.target;
    match BuildRequest(dest, a.command, Some(id), a.args)
    case None => BuildResult(s.(nextId := next), None)
    case Some(line) =>
      var limit := if a.timeout.Some? then a.timeout.value else s.timeout;
      var p := Pending(id, dest, a.command, a.args, a.channel, now + limit, line, a.metaBroadcast);
      BuildResult(Insert(s.(nextId := next), p), Some(p))
  }

  /** A known id keeps its place. */
  function Insert(s: State, p: Pending): State {
    s.(pending := s.pending[p.id := p], order := if p.id in s.pending then s.order else s.order + [p.id])
  }

  function Keep(s: State, keys: set<nat>): State {
    s.(pending := map k | k in s.pending && k in keys :: s.pending[k], order := Among(s.order, keys))
  }

  /** The ids of the entries whose deadline has come. */
  function Due(s: State, now: int): set<nat> {
    set k | k in s.pending && s.pending[k].deadline <= now
  }

  function Expire(s: State, now: int): State {
    Keep(s, s.pending.Keys - Due(s, now))
  }

  function Peek(s: State, id: Option<nat>): Option<Pending> {
    if id.Some? && id.value in s.pending then Some(s.pending[id.value]) else None
  }

  function Take(s: State, id: Option<nat>): State {
    if id.Some? then Keep(s, s.pending.Keys - {id.value}) else s
  }

  const REQUEST_COMMANDS: set<string> := {
    "ping", "status", "call", "discovery", "discover", "gps", "battery", "voltage", "charging",
    "help", "caps", "button", "button_state", "reboot", "set", "get"
  }

  predicate LooksLikeRequest(body: string) {
    var p := Parse(Python, body);
    p.result == Ok && Lower(p.request.command) in REQUEST_COMMANDS
  }

  predicate IsEvent(body: string) {
    var tokens := Split(body);
    tokens != [] && Lower(tokens[0]) == "event"
  }

  datatype Inbound = EventLine | OtherLine | Response(id: Option<nat>, pending: Option<Pending>)

  datatype ClassifyResult = ClassifyResult(state: State, inbound: Inbound)

  function Classify(s: State, raw: string, consume: bool): ClassifyResult {
    var body := StripSender(raw);
    if IsEvent(body) then ClassifyResult(s, EventLine)
    else if LooksLikeRequest(body) then ClassifyResult(s, OtherLine)
    else
      var id := RequestId(Split(body));
      var pending := Peek(s, id);
      var taken := pending.Some? && consume && !pending.value.broadcast;
      ClassifyResult(if taken then Take(s, id) else s, Response(id, pending))
  }

  /** Entries are stored under their own id, and the order lists each key once. */
  ghost predicate Keyed(s: State) {
    && (forall k :: k in s.pending ==> s.pending[k].id == k)
    && NoDup(s.order) && forall k :: k in s.order <==> k in s.pending
  }

  function Ids(entries: seq<Pending>): (ids: seq<nat>)
    ensures |ids| == |entries| && forall i :: 0 <= i < |ids| ==> ids[i] == entries[i].id
  {
    seq(|entries|, i requires 0 <= i < |entries| => entries[i].id)
  }

  function Listed(ids: seq<nat>): set<nat> {
    set k | k in ids
  }

  lemma {:induction false} AmongAll(order: seq<nat>, keys: set<nat>)
    requires forall k :: k in order ==> k in keys
    ensures Among(order, keys) == order
  {
    if order != [] {
      var front, last := order[..|order| - 1], order[|order| - 1];
      assert order == front + [last];
      AmongAll(front, keys);
    }
  }

  lemma {:induction false} AmongTwice(order: seq<nat>, a: set<nat>, b: set<nat>)
    ensures Among(Among(order, a), b) == Among(order, a * b)
  {
    if order != [] {
      var front, last := order[..|order| - 1], order[|order| - 1];
      AmongTwice(front, a, b);
      assert (Among(front, a) + [last])[..|Among(front, a)|] == Among(front, a);
    }
  }

  lemma KeepAll(s: State)
    requires Keyed(s)
    ensures Keep(s, s.pending.Keys - Listed([])) == s
  {
    var keys := s.pending.Keys - Listed([]);
    AmongAll(s.order, keys);
    assert Keep(s, keys).pending == s.pending;
  }

  /** Removing one more of the listed ids. */
  lemma KeepLess(s: State, ids: seq<nat>, i: nat)
    requires i < |ids|
    ensures var k := Keep(s, s.pending.Keys - Listed(ids[..i]));
            Keep(k, k.pending.Keys - {ids[i]}) == Keep(s, s.pending.Keys - Listed(ids[..i + 1]))
  {
    var a := s.pending.Keys - Listed(ids[..i]);
    var k := Keep(s, a);
    var b := k.pending.Keys - {ids[i]};
    assert ids[..i + 1] == ids[..i] + [ids[i]];
    assert a * b == s.pending.Keys - Listed(ids[..i + 1]);
    AmongTwice(s.order, a, b);
    assert Keep(k, b).pending == Keep(s, a * b).pending;
  }

  lemma DueIsListed(s: State, ids: seq<nat>, now: int)
    requires Keyed(s) && ids == Among(s.order, Due(s, now))
    ensures Keep(s, s.pending.Keys - Listed(ids[..|ids|])) == Expire(s, now) && Keyed(Expire(s, now))
    ensures s.pending.Keys - Expire(s, now).pending.Keys == Due(s, now)
  {
    AmongFacts(s.order, Due(s, now));
    assert ids[..|ids|] == ids;
    assert Listed(ids) == Due(s, now);
    AmongFacts(s.order, s.pending.Keys - Due(s, now));
  }

  class RequestCorrelator {
    const defaultTimeout: int
    var nextId: nat
    var pending: map<nat, Pending>
    var order: seq<nat>

    ghost function Model(): State
      reads this
    {
      State(defaultTimeout, nextId, pending, order)
    }

    constructor (defaultTimeout: int, startId: nat)
      ensures Model() == State(defaultTimeout, startId, map[], [])
    {
      this.defaultTimeout := defaultTimeout;
      nextId, pending, order := startId, map[], [];
    }

    method NextRequestId() returns (id: nat)
      modifies this`nextId
      ensures id == old(nextId) && nextId == id + 1
    {
      id := nextId;
      nextId := nextId + 1;
    }

    method BuildEntry(a: Ask, now: int) returns (entry: Option<Pending>)
      modifies this
      ensures BuildResult(Model(), entry) == Build(old(Model()), a, now)
    {
      hide Decimal, JoinWithSpaces;
      var id: nat;
      if a.requestId.Some? {
        id := a.requestId.value;
      } else {
        id := NextRequestId();
      }
      var dest := if a.broadcast then "all" else a.target;
      var line := BuildRequest(dest, a.command, Some(id), a.args);
      if line.None? {
        return None;
      }
      var limit := if a.timeout.Some? then a.timeout.value else defaultTimeout;
      var p := Pending(id, dest, a.command, a.args, a.channel, now + limit, line.value, a.metaBroadcast);
      if id !in pending {
        order := order + [id];
      }
      pending := pending[id := p];
      return Some(p);
    }

    /** pop(id, None) */
    method Pop(id: nat)
      modifies this`pending, this`order
      ensures Model() == Keep(old(Model()), old(pending).Keys - {id})
    {
      order := Among(order, pending.Keys - {id});
      pending := pending - {id};
    }

    /** Exactly the entries whose deadline has come, returned in the order they went in. */
    method ExpireEntries(now: int) returns (expired: seq<Pending>)
      requires Keyed(Model())
      modifies this`pending, this`order
      ensures Keyed(Model()) && Model() == Expire(old(Model()), now)
      ensures forall k :: k in pending <==> k in old(pending) && old(pending)[k].deadline > now
      ensures forall k :: k in pending ==> pending[k] == old(pending)[k]
      ensures Ids(expired) == Among(old(order), old(pending).Keys - pending.Keys)
      ensures forall p :: p in expired ==> p.id in old(pending) && old(pending)[p.id] == p
    {
      ghost var before, due := Model(), Due(Model(), now);
      expired := DueEntries(now);
      ghost var ids := Ids(expired);
      KeepAll(before);
      for i := 0 to |expired|
        invariant Model() == Keep(before, before.pending.Keys - Listed(ids[..i]))
      {
        KeepLess(before, ids, i);
        Pop(expired[i].id);
      }
      DueIsListed(before, ids, now);
    }

    /** [p for p in values() if p.deadline <= now] */
    method DueEntries(now: int) returns (due: seq<Pending>)
      requires Keyed(Model())
      ensures Ids(due) == Among(order, Due(Model(), now))
      ensures forall p :: p in due ==> p.id in pending && pending[p.id] == p
    {
      due := [];
      for i := 0 to |order|
        invariant Ids(due) == Among(order[..i], Due(Model(), now))
        invariant forall p :: p in due ==> p.id in pending && pending[p.id] == p
      {
        assert order[..i + 1][..i] == order[..i] && order[i] in order;
        var p := pending[order[i]];
        if p.deadline <= now {
          due := due + [p];
        }
      }
      assert order[..|order|] == order;
    }

    method TakeEntry(id: Option<nat>) returns (entry: Option<Pending>)
      modifies this`pending, this`order
      ensures entry == Peek(old(Model()), id) && Model() == Take(old(Model()), id)
    {
      entry := PeekEntry(id);
      if id.Some? {
        Pop(id.value);
      }
    }

    method PeekEntry(id: Option<nat>) returns (entry: Option<Pending>)
      ensures entry == Peek(Model(), id)
    {
      entry := if id.Some? && id.value in pending then Some(pending[id.value]) else None;
    }

    method ClassifyInbound(raw: string, consume: bool) returns (inbound: Inbound)
      modifies this`pending, this`order
      ensures ClassifyResult(Model(), inbound) == Classify(old(Model()), raw, consume)
    {
      hide StripSender, IsEvent, LooksLikeRequest, RequestId, Split;
      var body := StripSender(raw);
      if IsEvent(body) {
        return EventLine;
      }
      if LooksLikeRequest(body) {
        return OtherLine;
      }
      var id := RequestId(Split(body));
      if id.None? {
        return Response(None, None);
      }
      var entry := PeekEntry(id);
      if entry.None? {
        return Response(id, None);
      }
      if consume && !entry.value.broadcast {
        entry := TakeEntry(id);
      }
      return Response(id, entry);
    }
  }

  // ----- what build promises ----------------------------------------------------------

  lemma {:induction false} JoinedMore(args: seq<string>, x: string)
    requires args != []
    ensures JoinWithSpaces(args + [x]) == JoinWithSpaces(args) + " " + x
  {
    assert (args + [x])[1..] == args[1..] + [x];
    if |args| > 1 {
      JoinedMore(args[1..], x);
      var j := JoinWithSpaces(args[1..]);
      assert args[0] + " " + (j + " " + x) == args[0] + " " + j + " " + x;
    }
  }

  /** The line of a request, argument by argument: each has one space in front of it, whatever it holds. */
  lemma BuiltLineIs(target: string, command: string, id: nat, args: seq<string>, x: string)
    requires target != "" && command != ""
    ensures BuildRequest(target, command, Some(id), []) == Some(target + "#" + Decimal(id) + " " + command)
    ensures BuildRequest(target, command, Some(id), args).Some?
    ensures BuildRequest(target, command, Some(id), args + [x])
         == Some(BuildRequest(target, command, Some(id), args).value + " " + x)
  {
    hide Decimal;
    var head := target + "#" + Decimal(id) + " " + command;
    assert head + "" == head;
    if args == [] {
      assert JoinWithSpaces(args + [x]) == x && head + (" " + x) == head + " " + x;
    } else {
      JoinedMore(args, x);
      hide JoinWithSpaces;
      var j := JoinWithSpaces(args);
      assert head + (" " + (j + " " + x)) == head + (" " + j) + " " + x;
    }
  }

  /**
   A request is refused exactly when its command is empty or nobody is addressed. The
   counter moves exactly when no id was given, refused or not. Otherwise one entry goes
   in, in the place of one that had its id, and nothing else changes.
   */
  lemma BuildExactly(s: State, a: Ask, now: int)
    ensures var b := Build(s, a, now);
            && (b.entry.None? <==> a.command == "" || (a.target == "" && !a.broadcast))
            && b.state.nextId == s.nextId + (if a.requestId.None? then 1 else 0)
            && b.state.timeout == s.timeout
            && (b.entry.None? ==> b.state.pending == s.pending && b.state.order == s.order)
            && (b.entry.Some? ==>
                  var e := b.entry.value;
                  && (if a.requestId.None? then e.id == s.nextId else a.requestId == Some(e.id))
                  && e.target == (if a.broadcast then "all" else a.target)
                  && e.command == a.command && e.args == a.args && e.channel == a.channel
                  && e.broadcast == a.metaBroadcast
                  && BuildRequest(e.target, e.command, Some(e.id), e.args) == Some(e.raw)
                  && b.state.pending == s.pending[e.id := e]
                  && b.state.order == if e.id in s.pending then s.order else s.order + [e.id])
  {
    hide Decimal, JoinWithSpaces;
  }

  /** The entry is outstanding for the timeout asked for, or the client's own, and expires at its end. */
  lemma DueExactly(s: State, a: Ask, now: int, t: int)
    requires Build(s, a, now).entry.Some?
    ensures var b, limit := Build(s, a, now), if a.timeout.Some? then a.timeout.value else s.timeout;
            b.entry.value.id in Expire(b.state, t).pending <==> t < now + limit
  {
    hide BuildRequest, Among;
  }

  // ----- what one call keeps --------------------------------------------------------

  /** A broadcast entry outlives every reply; only take and expire remove it. */
  lemma BroadcastIsNeverConsumed(s: State, raw: string, consume: bool, k: nat)
    requires k in s.pending && s.pending[k].broadcast
    ensures k in Classify(s, raw, consume).state.pending
  {
    hide StripSender, IsEvent, LooksLikeRequest, RequestId, Split;
  }

  /** A consumed entry cannot be delivered by the same reply again. */
  lemma SecondReplyFindsNothing(s: State, raw: string)
    requires var c := Classify(s, raw, true).inbound;
             c.Response? && c.pending.Some? && !c.pending.value.broadcast
    ensures var again := Classify(Classify(s, raw, true).state, raw, true);
            && again.state == Classify(s, raw, true).state
            && again.inbound == Classify(s, raw, true).inbound.(pending := None)
  {
    hide StripSender, IsEvent, LooksLikeRequest, RequestId, Split;
  }

  // ----- conservation over runs -------------------------------------------------------

  datatype Op =
    | DoBuild(ask: Ask, now: int)
    | DoTake(id: Option<nat>)
    | DoClassify(raw: string, consume: bool)
    | DoExpire(now: int)

  /** The table with the history of its ids; `removals` counts every removal of an entry. */
  datatype Ledger = Ledger(state: State, issued: set<nat>, delivered: set<nat>, expired: set<nat>, removals: nat)

  function Apply(l: Ledger, op: Op): Ledger {
    match op
    case DoBuild(a, now) =>
      var b := Build(l.state, a, now);
      l.(state := b.state, issued := l.issued + if b.entry.Some? then {b.entry.value.id} else {})
    case DoTake(id) => Delivered(l, Take(l.state, id))
    case DoClassify(raw, consume) => Delivered(l, Classify(l.state, raw, consume).state)
    case DoExpire(now) => Expired(l, Expire(l.state, now))
  }

  function Delivered(l: Ledger, s: State): Ledger {
    var gone := l.state.pending.Keys - s.pending.Keys;
    l.(state := s, delivered := l.delivered + gone, removals := l.removals + |gone|)
  }

  function RunOps(s: State, ops: seq<Op>): Ledger {
    if ops == [] then Ledger(s, {}, {}, {}, 0) else Apply(RunOps(s, ops[..|ops| - 1]), ops[|ops| - 1])
  }

  ghost predicate AutoIds(ops: seq<Op>) {
    forall i :: 0 <= i < |ops| && ops[i].DoBuild? ==> ops[i].ask.requestId.None?
  }

  /** A set is the disjoint union of three others. */
  ghost predicate Splits(whole: set<nat>, a: set<nat>, b: set<nat>, c: set<nat>) {
    && (forall k :: k in whole <==> k in a || k in b || k in c)
    && (forall k :: k in a ==> k !in b && k !in c)
    && (forall k :: k in b ==> k !in c)
  }

  /** Issued ids split into outstanding, delivered and expired, each removed once. */
  ghost predicate Balanced(l: Ledger) {
    && Splits(l.issued, l.state.pending.Keys, l.delivered, l.expired)
    && l.removals == |l.delivered| + |l.expired|
    && Keyed(l.state)
    && forall k :: k in l.issued ==> k < l.state.nextId
  }

  /** Moving some outstanding ids to the delivered or to the expired ones keeps the split. */
  lemma MoveKeepsSplit(issued: set<nat>, out: set<nat>, a: set<nat>, b: set<nat>, out': set<nat>)
    requires Splits(issued, out, a, b) && out' <= out
    ensures var gone := out - out';
            && Splits(issued, out', a + gone, b) && |a + gone| == |a| + |gone|
            && Splits(issued, out', a, b + gone) && |b + gone| == |b| + |gone|
  {
    var gone := out - out';
    assert a !! gone && b !! gone;
  }

  lemma AddKeepsSplit(issued: set<nat>, out: set<nat>, a: set<nat>, b: set<nat>, k: nat)
    requires Splits(issued, out, a, b) && k !in issued
    ensures Splits(issued + {k}, out + {k}, a, b)
  {
  }

  function Expired(l: Ledger, s: State): Ledger {
    var gone := l.state.pending.Keys - s.pending.Keys;
    l.(state := s, expired := l.expired + gone, removals := l.removals + |gone|)
  }

  lemma KeepKeyed(s: State, keys: set<nat>)
    requires Keyed(s)
    ensures Keyed(Keep(s, keys)) && Keep(s, keys).pending.Keys == s.pending.Keys * keys
  {
    hide NoDup, Among;
    AmongFacts(s.order, keys);
  }

  lemma RemovalBalanced(l: Ledger, keys: set<nat>)
    requires Balanced(l)
    ensures Balanced(Delivered(l, Keep(l.state, keys))) && Balanced(Expired(l, Keep(l.state, keys)))
  {
    hide Splits, Keyed, Keep;
    var s := Keep(l.state, keys);
    KeepKeyed(l.state, keys);
    assert s.nextId == l.state.nextId by { KeepNextId(l.state, keys); }
    MoveKeepsSplit(l.issued, l.state.pending.Keys, l.delivered, l.expired, s.pending.Keys);
  }

  lemma KeepNextId(s: State, keys: set<nat>)
    ensures Keep(s, keys).nextId == s.nextId
  {
  }

  lemma InsertKeyed(s: State, p: Pending)
    requires Keyed(s)
    ensures Keyed(Insert(s, p)) && Insert(s, p).pending.Keys == s.pending.Keys + {p.id}
  {
  }

  lemma BuildBalanced(l: Ledger, a: Ask, now: int)
    requires Balanced(l) && a.requestId.None?
    ensures Balanced(Apply(l, DoBuild(a, now)))
  {
    hide Build, Splits, Keyed, Insert;
    var id, b := l.state.nextId, Build(l.state, a, now);
    BuiltState(l.state, a, now);
    var counted := l.state.(nextId := id + 1);
    NextIdKeyed(l.state, id + 1);
    if b.entry.Some? {
      assert id !in l.issued;
      AddKeepsSplit(l.issued, l.state.pending.Keys, l.delivered, l.expired, id);
      InsertKeyed(counted, b.entry.value);
      InsertNextId(counted, b.entry.value);
    } else {
      assert l.issued + {} == l.issued;
    }
  }

  /** With an automatic id: the counter moves on, and an entry goes in under the id drawn. */
  lemma BuiltState(s: State, a: Ask, now: int)
    requires a.requestId.None?
    ensures var b, counted := Build(s, a, now), s.(nextId := s.nextId + 1);
            if b.entry.None? then b.state == counted
            else b.entry.value.id == s.nextId && b.state == Insert(counted, b.entry.value)
  {
    hide BuildRequest, Insert;
  }

  lemma NextIdKeyed(s: State, next: nat)
    requires Keyed(s)
    ensures Keyed(s.(nextId := next))
  {
  }

  lemma InsertNextId(s: State, p: Pending)
    ensures Insert(s, p).nextId == s.nextId
  {
  }

  /** Classification removes at most the one entry it hands out. */
  lemma ClassifyKeeps(s: State, raw: string, consume: bool) returns (keys: set<nat>)
    requires Keyed(s)
    ensures Classify(s, raw, consume).state == Keep(s, keys)
  {
    hide StripSender, IsEvent, LooksLikeRequest, RequestId, Split, Keep, Keyed;
    keys := s.pending.Keys;
    KeepAllKeys(s);
    var c := Classify(s, raw, consume);
    if c.state != s {
      keys := s.pending.Keys - {c.inbound.id.value};
    }
  }

  lemma KeepAllKeys(s: State)
    requires Keyed(s)
    ensures Keep(s, s.pending.Keys) == s
  {
    KeepAll(s);
    assert s.pending.Keys - Listed([]) == s.pending.Keys;
  }

  lemma ApplyBalanced(l: Ledger, op: Op)
    requires Balanced(l) && (op.DoBuild? ==> op.ask.requestId.None?)
    ensures Balanced(Apply(l, op))
  {
    hide Delivered, Expired, Build, Classify, Keyed, Splits, Keep;
    match op
    case DoBuild(a, now) => BuildBalanced(l, a, now);
    case DoTake(id) =>
      KeepAllKeys(l.state);
      RemovalBalanced(l, if id.Some? then l.state.pending.Keys - {id.value} else l.state.pending.Keys);
    case DoClassify(raw, consume) =>
      var keys := ClassifyKeeps(l.state, raw, consume);
      RemovalBalanced(l, keys);
    case DoExpire(now) => RemovalBalanced(l, l.state.pending.Keys - Due(l.state, now));
  }

  /** A correlator that has built nothing yet. */
  predicate Fresh(s: State) {
    s.pending == map[] && s.order == []
  }

  /**
   Over any run with automatic ids every issued id is outstanding, delivered or
   expired, never two of these, and no entry was removed twice.
   */
  lemma {:induction false} Conservation(s: State, ops: seq<Op>)
    requires Fresh(s) && AutoIds(ops)
    ensures Balanced(RunOps(s, ops))
  {
    if ops != [] {
      hide Balanced, Apply;
      Conservation(s, ops[..|ops| - 1]);
      ApplyBalanced(RunOps(s, ops[..|ops| - 1]), ops[|ops| - 1]);
    }
  }

  /** An id once delivered or expired never becomes outstanding again. */
  lemma {:induction false} GoneForGood(s: State, ops: seq<Op>, n: nat, k: nat)
    requires Fresh(s) && AutoIds(ops) && n <= |ops|
    requires var l := RunOps(s, ops[..n]); k in l.delivered || k in l.expired
    ensures var l := RunOps(s, ops); (k in l.delivered || k in l.expired) && k !in l.state.pending
  {
    hide RunOps;
    Conservation(s, ops);
    GoneStays(s, ops, n, k);
  }

  lemma ApplyOnlyAdds(l: Ledger, op: Op)
    ensures l.delivered <= Apply(l, op).delivered && l.expired <= Apply(l, op).expired
  {
    hide Build, Classify, Take, Expire;
  }

  lemma {:induction false} GoneStays(s: State, ops: seq<Op>, n: nat, k: nat)
    requires n <= |ops|
    requires var l := RunOps(s, ops[..n]); k in l.delivered || k in l.expired
    ensures var l := RunOps(s, ops); k in l.delivered || k in l.expired
    decreases |ops|
  {
    if n == |ops| {
      assert ops[..n] == ops;
    } else {
      hide Apply;
      var front := ops[..|ops| - 1];
      assert front[..n] == ops[..n];
      GoneStays(s, front, n, k);
      ApplyOnlyAdds(RunOps(s, front), ops[|ops| - 1]);
    }
  }

  /** Step i of a run removes k because its deadline has come. */
  predicate ExpiresAt(s: State, ops: seq<Op>, i: nat, k: nat)
    requires i < |ops|
  {
    ops[i].DoExpire? && k in Due(RunOps(s, ops[..i]).state, ops[i].now)
  }

  ghost predicate Expires(s: State, ops: seq<Op>, k: nat) {
    exists i :: 0 <= i < |ops| && ExpiresAt(s, ops, i, k)
  }

  lemma ExpiresStep(s: State, ops: seq<Op>, k: nat)
    requires ops != []
    ensures Expires(s, ops, k) <==> Expires(s, ops[..|ops| - 1], k) || ExpiresAt(s, ops, |ops| - 1, k)
  {
    hide RunOps, Due;
    var front := ops[..|ops| - 1];
    assert forall i :: 0 <= i < |front| ==> front[..i] == ops[..i];
    assert forall i :: 0 <= i < |front| ==> (ExpiresAt(s, front, i, k) <==> ExpiresAt(s, ops, i, k));
    hide ExpiresAt;
    if Expires(s, front, k) {
      var i :| 0 <= i < |front| && ExpiresAt(s, front, i, k);
      assert ExpiresAt(s, ops, i, k);
    }
  }

  /** An id is counted as expired exactly when some expire step found its deadline passed. */
  lemma {:induction false} ExpiredExactlyWhenDue(s: State, ops: seq<Op>, k: nat)
    ensures k in RunOps(s, ops).expired <==> Expires(s, ops, k)
  {
    if ops == [] {
      assert RunOps(s, ops).expired == {};
    } else {
      hide RunOps, ExpiresAt, Expires;
      ExpiredExactlyWhenDue(s, ops[..|ops| - 1], k);
      LastExpires(s, ops, k);
      ExpiresStep(s, ops, k);
    }
  }

  lemma LastExpires(s: State, ops: seq<Op>, k: nat)
    requires ops != []
    ensures k in RunOps(s, ops).expired
       <==> k in RunOps(s, ops[..|ops| - 1]).expired || ExpiresAt(s, ops, |ops| - 1, k)
  {
    hide Build, Classify, Take;
    var l, op := RunOps(s, ops[..|ops| - 1]), ops[|ops| - 1];
    assert RunOps(s, ops) == Apply(l, op);
  }

  lemma InsertAscending(s: State, p: Pending)
    requires Keyed(s) && Ascending(s.order) && forall k :: k in s.pending ==> k < p.id
    ensures Ascending(Insert(s, p).order)
  {
    assert forall i :: 0 <= i < |s.order| ==> s.order[i] in s.order;
  }

  lemma ApplyAscending(l: Ledger, op: Op)
    requires Balanced(l) && (op.DoBuild? ==> op.ask.requestId.None?) && Ascending(l.state.order)
    ensures Ascending(Apply(l, op).state.order)
  {
    hide Classify, Ascending, BuildRequest, Among;
    match op
    case DoBuild(a, now) =>
      var b := Build(l.state, a, now);
      if b.entry.Some? {
        NextIdKeyed(l.state, l.state.nextId + 1);
        InsertAscending(l.state.(nextId := l.state.nextId + 1), b.entry.value);
      }
    case DoTake(id) => if id.Some? { AmongAscending(l.state.order, l.state.pending.Keys - {id.value}); }
    case DoClassify(raw, consume) =>
      var keys := ClassifyKeeps(l.state, raw, consume);
      AmongAscending(l.state.order, keys);
    case DoExpire(now) => AmongAscending(l.state.order, l.state.pending.Keys - Due(l.state, now));
  }

  /** With automatic ids the table is in id order, so expire returns the oldest request first. */
  lemma {:induction false} OldestFirst(s: State, ops: seq<Op>, now: int)
    requires Fresh(s) && AutoIds(ops)
    ensures var t := RunOps(s, ops).state;
            Ascending(t.order) && Ascending(Among(t.order, Due(t, now)))
  {
    hide Apply, Balanced, Due, Among;
    if ops != [] {
      var front := ops[..|ops| - 1];
      OldestFirst(s, front, now);
      Conservation(s, front);
      ApplyAscending(RunOps(s, front), ops[|ops| - 1]);
    }
    AmongAscending(RunOps(s, ops).state.order, Due(RunOps(s, ops).state, now));
  }
}
