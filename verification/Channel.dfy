/**
 The whole protocol as a step system: one client with its pending table, a fleet
 of nodes, and a shared text channel that may lose, duplicate and reorder lines.
 The channel is the log of everything ever sent; delivering means reading any
 line of it, any number of times, in any order, or never.
 */
module Channel {
  import opened Text
  import opened Wire
  import opened Framing
  import opened Node
  import opened Tokens
  import opened Correlator
  import opened Targets
  import Outbound

  datatype NodeSetup = NodeSetup(sender: string, cfg: NodeConfig)

  datatype World = World(me: string, nodes: seq<NodeSetup>)

  /** Why a line is on the channel; no operation reads this. */
  datatype Origin = Asked(entry: Pending) | Replied(node: nat, cause: nat) | Announced(node: nat)

  datatype Message = Message(text: string, origin: Origin)

  /** `built` is every entry ever built, `heard` every delivery of a line to a node. */
  datatype System = System(client: State, built: map<nat, Pending>, log: seq<Message>, heard: seq<(nat, nat)>)

  datatype Step =
    | ClientBuild(ask: Ask, now: int)
    | ClientExpire(now: int)
    | ClientTake(id: Option<nat>)
    | ClientHear(k: nat, consume: bool)
    | NodeHear(node: nat, k: nat, outcome: Outcome)
    | NodeEvent(node: nat, name: string, kv: CString)

  predicate ValidWorld(w: World) {
    IsSender(w.me) && forall i :: 0 <= i < |w.nodes| ==>
      IsSender(w.nodes[i].sender) && Lower(w.nodes[i].cfg.name) != "event"
  }

  /**
   The client draws its ids itself, below 2^32, and what it builds has a safe
   target; an empty one it refuses.
   */
  predicate Enabled(w: World, s: System, step: Step) {
    match step
    case ClientBuild(a, _) =>
      a.requestId.None? && s.client.nextId < UINT32_SIZE && (a.broadcast || a.target == "" || SafeTarget(a.target))
    case ClientExpire(_) => true
    case ClientTake(_) => true
    case ClientHear(k, _) => k < |s.log|
    case NodeHear(n, k, _) => n < |w.nodes| && k < |s.log|
    case NodeEvent(n, _, _) => n < |w.nodes|
  }

  /** What a node makes of a channel text: C reads it up to its first NUL. */
  function NodeReply(cfg: NodeConfig, text: string, outcome: Outcome): Option<string> {
    Dispatched(cfg, StripSender(CStr(text)), _ => outcome)
  }

  function Send(s: System, text: string, origin: Origin): System {
    s.(log := s.log + [Message(text, origin)])
  }

  function Next(w: World, s: System, step: Step): System
    requires Enabled(w, s, step)
  {
    match step
    case ClientBuild(a, now) =>
      var b := Build(s.client, a, now);
      if b.entry.None? then s.(client := b.state)
      else
        var p := b.entry.value;
        Send(s.(client := b.state, built := s.built[p.id := p]), Framed(w.me, p.raw), Asked(p))
    case ClientExpire(now) => s.(client := Expire(s.client, now))
    case ClientTake(id) => s.(client := Take(s.client, id))
    case ClientHear(k, consume) => s.(client := Classify(s.client, s.log[k].text, consume).state)
    case NodeHear(n, k, outcome) =>
      var s' := s.(heard := s.heard + [(n, k)]);
      (match NodeReply(w.nodes[n].cfg, s.log[k].text, outcome)
       case None => s'
       case Some(reply) => Send(s', Framed(w.nodes[n].sender, reply), Replied(n, k)))
    case NodeEvent(n, name, kv) =>
      Send(s, Framed(w.nodes[n].sender, EventText(name, kv)), Announced(n))
  }

  /** s is reached from an empty channel by the given steps. */
  ghost predicate Reaches(w: World, start: State, steps: seq<Step>, s: System)
    decreases |steps|, 1
  {
    if steps == [] then s == System(start, map[], [], []) && Fresh(start)
    else exists before :: IsStep(w, start, steps, before, s)
  }

  ghost predicate IsStep(w: World, start: State, steps: seq<Step>, before: System, s: System)
    requires steps != []
    decreases |steps|, 0
  {
    var last := steps[|steps| - 1];
    Reaches(w, start, steps[..|steps| - 1], before) && Enabled(w, before, last) && s == Next(w, before, last)
  }

  // ----- what every line on the channel looks like ------------------------------

  function Tag(id: nat): string {
    "#" + Decimal(id) + " "
  }

  /** A line the client has put on the channel. */
  ghost predicate IsClientLine(p: Pending) {
    p.id < UINT32_SIZE && SafeTarget(p.target) && exists rest :: p.raw == ClientLine(p.target, p.id, rest)
  }

  /** The node parsed exactly this request and found it addressed to itself. */
  predicate Accepted(cfg: NodeConfig, p: Pending) {
    var q := Parse(Cpp, CStr(p.raw));
    q.result == Ok && q.request.hasId && q.request.id == p.id && Addressed(cfg, q.request)
  }

  ghost predicate MessageOk(w: World, built: map<nat, Pending>, log: seq<Message>, i: nat)
    requires i < |log|
  {
    match log[i].origin
    case Asked(p) =>
      p.id in built && built[p.id] == p && log[i].text == Framed(w.me, p.raw) && IsClientLine(p)
    case Replied(n, k) =>
      && n < |w.nodes| && k < i && log[k].origin.Asked?
      && Accepted(w.nodes[n].cfg, log[k].origin.entry)
      && Framed(w.nodes[n].sender, Tag(log[k].origin.entry.id)) <= log[i].text
    case Announced(n) =>
      n < |w.nodes| && Framed(w.nodes[n].sender, "event ") <= log[i].text
  }

  ghost predicate TableOk(s: System) {
    && (forall k :: k in s.built ==> s.built[k].id == k && k < s.client.nextId)
    && (forall k :: k in s.client.pending ==> k in s.built && s.client.pending[k] == s.built[k])
  }

  ghost predicate Inv(w: World, s: System) {
    TableOk(s) && forall i :: 0 <= i < |s.log| ==> MessageOk(w, s.built, s.log, i)
  }

  // ----- request lines at the nodes ------------------------------------------------

  lemma FramedCStr(name: string, a: string, b: string)
    requires NoNul(name) && NoNul(a)
    ensures CStr(Framed(name, a + b)) == Framed(name, a + CStr(b))
  {
    hide CStr;
    var head := name + ": " + a;
    assert Framed(name, a + b) == head + b;
    CStrOver(head, b);
    assert head + CStr(b) == Framed(name, a + CStr(b));
  }

  /** A node that hears the client's line reads the request the client built, id included. */
  lemma NodeReadsRequest(name: string, p: Pending)
    requires IsSender(name) && IsClientLine(p)
    ensures NodeReads(name, p.raw) == Parse(Cpp, CStr(p.raw)) && CarriesId(NodeReads(name, p.raw), p.id)
  {
    hide Parse, CStr, ClientLine, NodeReads, IdAsRead, Pow10;
    var rest :| p.raw == ClientLine(p.target, p.id, rest);
    NodeReadsLine(name, p.raw);
    IdAsReadExactly(p.id);
    ReadOfClientLine(name, p.target, p.id, rest);
  }

  lemma ReplyToRequest(cfg: NodeConfig, name: string, p: Pending, outcome: Outcome)
    requires IsSender(name) && IsClientLine(p)
    ensures match NodeReply(cfg, Framed(name, p.raw), outcome)
            case None => true
            case Some(reply) => Accepted(cfg, p) && Tag(p.id) <= reply
  {
    hide Decimal, Parse, CStr, StripSender, Framed, Addressed, ReplyBody, IsClientLine;
    NodeReadsRequest(name, p);
  }

  /** Replies and events, heard by any node, cause nothing. */
  lemma QuietLine(cfg: NodeConfig, name: string, head: string, text: string, outcome: Outcome)
    requires IsSender(name) && NoNul(head) && Framed(name, head) <= text
    requires (head != "" && head[0] == '#') || (head == "event " && Lower(cfg.name) != "event")
    ensures NodeReply(cfg, text, outcome) == None
  {
    hide Parse, CStr, StripSender, ReplyBody, Lower;
    var rest := text[|Framed(name, head)|..];
    assert text == Framed(name, head + rest);
    FramedCStr(name, head, rest);
    var line := head + CStr(rest);
    SenderIsTransparent(Cpp, name, line);
    if head[0] == '#' {
      HashLineIsMalformed(Cpp, line);
    } else {
      assert line[..6] == "event ";
      EventTargetsEvent(Cpp, line);
      assert Lower("event") == "event" by { EventIsLower(); }
    }
  }

  lemma EventIsLower()
    ensures Lower("event") == "event"
  {
  }

  // ----- every line at the client ---------------------------------------------------

  /** The client's own line, echoed back, never touches the table. */
  lemma EchoFindsNothing(s: State, name: string, p: Pending, consume: bool)
    requires IsSender(name) && IsClientLine(p)
    ensures var c := Classify(s, Framed(name, p.raw), consume);
            c.state == s && (c.inbound.Response? ==> c.inbound == Response(None, None))
  {
    hide Classify, Framed, ClientLine, RequestId, Split, Parse;
    var rest :| p.raw == ClientLine(p.target, p.id, rest);
    EchoTag(p.target, p.id, rest);
    ClassifyFramed(s, name, p.raw, consume);
  }

  /** A reply is matched to the entry of its tag, if that is still pending, and to no other. */
  lemma ReplyFindsItsEntry(s: State, name: string, text: string, id: nat, consume: bool)
    requires IsSender(name) && Framed(name, Tag(id)) <= text
    ensures Classify(s, text, consume).inbound == Response(Some(id), Peek(s, Some(id)))
  {
    hide Decimal, Classify, Split, RequestId;
    var rest := text[|Framed(name, Tag(id))|..];
    assert text == Framed(name, Tag(id) + rest);
    SplitTagged(id, rest);
    DecimalTag(id, Split(rest));
    ClassifyFramed(s, name, Tag(id) + rest, consume);
  }

  lemma StripStart(name: string, line: string)
    requires IsSender(name) && line != "" && !Is(Blank, line[0])
    ensures StripSender(Framed(name, line)) == line
  {
    hide Run, StripSender;
    StripFramed(name, line);
    RunIs(Blank, line, 0);
  }

  lemma EventIsEvent(s: State, name: string, text: string, consume: bool)
    requires IsSender(name) && Framed(name, "event ") <= text
    ensures Classify(s, text, consume) == ClassifyResult(s, EventLine)
  {
    hide StripSender, LooksLikeRequest, RequestId, Split;
    var rest := text[|Framed(name, "event ")|..];
    var line := "event" + (" " + rest);
    assert text == Framed(name, line);
    StripStart(name, line);
    assert AllIn(Visible, "event");
    SplitToken("event", " " + rest);
    EventIsLower();
  }

  /** A reply without a tag is taken for the answer to some id exactly when its own text starts with one. */
  lemma UntaggedReply(s: State, name: string, body: string, consume: bool)
    requires IsSender(name)
    ensures var c := Classify(s, Framed(name, body), consume).inbound;
            c.Response? && c.id.Some? <==> HasRequestId(Split(body))
  {
    hide Classify, Framed, Split;
    ClassifyFramed(s, name, body, consume);
  }

  // ----- the invariant ------------------------------------------------------------

  function LineRest(command: string, args: seq<string>): string {
    command + if args == [] then "" else " " + JoinWithSpaces(args)
  }

  lemma RawLine(dest: string, command: string, id: nat, args: seq<string>)
    ensures var line := BuildRequest(dest, command, Some(id), args);
            line.Some? ==> line.value == ClientLine(dest, id, LineRest(command, args))
  {
    hide Decimal, JoinWithSpaces;
    var ds, tail := Decimal(id), if args == [] then "" else " " + JoinWithSpaces(args);
    assert dest + "#" + ds + " " + command + tail == dest + ("#" + (ds + (" " + (command + tail))));
  }

  lemma BuiltLine(s: State, a: Ask, now: int)
    requires a.requestId.None? && s.nextId < UINT32_SIZE && (a.broadcast || a.target == "" || SafeTarget(a.target))
    ensures var b := Build(s, a, now);
            b.entry.Some? ==> b.entry.value.id == s.nextId && IsClientLine(b.entry.value)
  {
    hide Decimal, LineRest, SafeTarget, ClientLine;
    var b := Build(s, a, now);
    var dest := if a.broadcast then "all" else a.target;
    RawLine(dest, a.command, s.nextId, a.args);
    AllIsSafe();
    assert b.entry.Some? ==> dest != "";
    hide BuildRequest;
    assert b.entry.Some? ==> b.entry.value.raw == ClientLine(dest, s.nextId, LineRest(a.command, a.args));
  }

  lemma AllIsSafe()
    ensures SafeTarget("all")
  {
    hide SafeTarget;
    assert Lower("all") == "all";
    GrammarTargetsAreSafe(Everyone, "all");
  }

  /** Old lines stay in order when entries are added under new ids and lines at the end. */
  lemma LogExtends(w: World, s: System, built: map<nat, Pending>, m: Message, i: nat)
    requires i < |s.log| && MessageOk(w, s.built, s.log, i)
    requires forall k :: k in s.built ==> k in built && built[k] == s.built[k]
    ensures MessageOk(w, built, s.log + [m], i)
  {
    hide Accepted, IsClientLine, Framed, Decimal;
  }

  lemma SendKeeps(w: World, s: System, s': System, m: Message)
    requires Inv(w, s) && TableOk(s') && s'.log == s.log + [m]
    requires forall k :: k in s.built ==> k in s'.built && s'.built[k] == s.built[k]
    requires MessageOk(w, s'.built, s'.log, |s.log|)
    ensures Inv(w, s')
  {
    hide MessageOk, TableOk;
    forall i | 0 <= i < |s'.log| ensures MessageOk(w, s'.built, s'.log, i) {
      if i < |s.log| {
        LogExtends(w, s, s'.built, m, i);
      }
    }
  }

  /** A new entry under a new id leaves the table right. */
  lemma BuildTable(s: System, a: Ask, now: int, s': System)
    requires TableOk(s) && a.requestId.None?
    requires var b := Build(s.client, a, now);
             && s'.client == b.state && (b.entry.Some? ==> b.entry.value.id == s.client.nextId)
             && s'.built == if b.entry.Some? then s.built[b.entry.value.id := b.entry.value] else s.built
    ensures TableOk(s') && forall k :: k in s.built ==> k in s'.built && s'.built[k] == s.built[k]
  {
    BuiltState(s.client, a, now);
    hide Build;
    assert s.client.nextId !in s.built;
  }

  lemma BuildKeeps(w: World, s: System, a: Ask, now: int)
    requires Inv(w, s) && Enabled(w, s, ClientBuild(a, now))
    ensures Inv(w, Next(w, s, ClientBuild(a, now)))
  {
    hide MessageOk, SafeTarget, Build, TableOk, Framed, IsClientLine;
    var b, s' := Build(s.client, a, now), Next(w, s, ClientBuild(a, now));
    BuiltLine(s.client, a, now);
    BuildTable(s, a, now, s');
    if b.entry.Some? {
      AskedOk(w, s'.built, s'.log, |s.log|);
      SendKeeps(w, s, s', Message(Framed(w.me, b.entry.value.raw), Asked(b.entry.value)));
    }
  }

  lemma AskedOk(w: World, built: map<nat, Pending>, log: seq<Message>, i: nat)
    requires i < |log| && log[i].origin.Asked?
    requires var p := log[i].origin.entry;
             p.id in built && built[p.id] == p && log[i].text == Framed(w.me, p.raw) && IsClientLine(p)
    ensures MessageOk(w, built, log, i)
  {
  }

  /** Only a request of the client makes a node speak, and then under that request's tag. */
  lemma HearingCases(w: World, s: System, n: nat, k: nat, outcome: Outcome)
    requires ValidWorld(w) && Inv(w, s) && n < |w.nodes| && k < |s.log|
    ensures var reply := NodeReply(w.nodes[n].cfg, s.log[k].text, outcome);
            reply.Some? ==>
              && s.log[k].origin.Asked? && Accepted(w.nodes[n].cfg, s.log[k].origin.entry)
              && Tag(s.log[k].origin.entry.id) <= reply.value
  {
    hide NodeReply, Accepted, Lower, Decimal;
    assert MessageOk(w, s.built, s.log, k);
    var cfg := w.nodes[n].cfg;
    match s.log[k].origin
    case Asked(p) => ReplyToRequest(cfg, w.me, p, outcome);
    case Replied(n', k') =>
      var tag := Tag(s.log[k'].origin.entry.id);
      QuietLine(cfg, w.nodes[n'].sender, tag, s.log[k].text, outcome);
    case Announced(n') => QuietLine(cfg, w.nodes[n'].sender, "event ", s.log[k].text, outcome);
  }

  lemma FramedPrefix(name: string, a: string, b: string)
    requires a <= b
    ensures Framed(name, a) <= Framed(name, b)
  {
  }

  lemma HearKeeps(w: World, s: System, n: nat, k: nat, outcome: Outcome)
    requires ValidWorld(w) && Inv(w, s) && Enabled(w, s, NodeHear(n, k, outcome))
    ensures Inv(w, Next(w, s, NodeHear(n, k, outcome)))
  {
    hide NodeReply, Accepted, Framed, Decimal, IsClientLine;
    HearingCases(w, s, n, k, outcome);
    var reply, s' := NodeReply(w.nodes[n].cfg, s.log[k].text, outcome), Next(w, s, NodeHear(n, k, outcome));
    if reply.Some? {
      var sender := w.nodes[n].sender;
      FramedPrefix(sender, Tag(s.log[k].origin.entry.id), reply.value);
      SendKeeps(w, s, s', Message(Framed(sender, reply.value), Replied(n, k)));
    }
  }

  lemma EventKeeps(w: World, s: System, n: nat, name: string, kv: CString)
    requires Inv(w, s) && Enabled(w, s, NodeEvent(n, name, kv))
    ensures Inv(w, Next(w, s, NodeEvent(n, name, kv)))
  {
    hide EventText, Framed, Accepted, IsClientLine;
    var s' := Next(w, s, NodeEvent(n, name, kv));
    EventTextStarts(name, kv);
    FramedPrefix(w.nodes[n].sender, "event ", EventText(name, kv));
    SendKeeps(w, s, s', s'.log[|s.log|]);
  }

  lemma ClassifyOnlyRemoves(s: State, raw: string, consume: bool)
    ensures var t := Classify(s, raw, consume).state;
            t.nextId == s.nextId && forall k :: k in t.pending ==> k in s.pending && t.pending[k] == s.pending[k]
  {
    hide StripSender, IsEvent, LooksLikeRequest, RequestId, Split;
  }

  lemma StepKeeps(w: World, s: System, step: Step)
    requires ValidWorld(w) && Inv(w, s) && Enabled(w, s, step)
    ensures Inv(w, Next(w, s, step))
  {
    match step
    case ClientBuild(a, now) => BuildKeeps(w, s, a, now);
    case ClientExpire(now) =>
    case ClientTake(id) =>
    case ClientHear(k, consume) => ClassifyOnlyRemoves(s.client, s.log[k].text, consume);
    case NodeHear(n, k, outcome) => HearKeeps(w, s, n, k, outcome);
    case NodeEvent(n, name, kv) => EventKeeps(w, s, n, name, kv);
  }

  lemma {:induction false} ReachableInv(w: World, start: State, steps: seq<Step>, s: System)
    requires ValidWorld(w) && Reaches(w, start, steps, s)
    ensures Inv(w, s)
    decreases |steps|
  {
    if steps != [] {
      var before :| IsStep(w, start, steps, before, s);
      ReachableInv(w, start, steps[..|steps| - 1], before);
      StepKeeps(w, before, steps[|steps| - 1]);
    }
  }

  // ----- the main results -----------------------------------------------------------

  /**
   Whole-run correlation. Whatever the channel did, if classify_inbound hands out
   an entry for a line, that entry is the one the client built under the reply's
   id, and the line is the reply of a node that heard this very request and found
   it addressed to itself.
   */
  lemma EveryMatchIsGenuine(w: World, start: State, steps: seq<Step>, s: System, i: nat, consume: bool)
    requires ValidWorld(w) && Reaches(w, start, steps, s) && i < |s.log|
    requires var c := Classify(s.client, s.log[i].text, consume).inbound; c.Response? && c.pending.Some?
    ensures var c := Classify(s.client, s.log[i].text, consume).inbound;
            var p := c.pending.value;
            && c.id == Some(p.id) && p.id in s.built && s.built[p.id] == p
            && s.log[i].origin.Replied?
            && (var n, k := s.log[i].origin.node, s.log[i].origin.cause;
                n < |w.nodes| && k < i && s.log[k] == Message(Framed(w.me, p.raw), Asked(p))
                && Accepted(w.nodes[n].cfg, p))
  {
    hide Classify, Accepted, Framed, Decimal, IsClientLine, Lower;
    ReachableInv(w, start, steps, s);
    assert MessageOk(w, s.built, s.log, i);
    match s.log[i].origin
    case Asked(p) => EchoFindsNothing(s.client, w.me, p, consume);
    case Replied(n, k) =>
      assert MessageOk(w, s.built, s.log, k);
      ReplyFindsItsEntry(s.client, w.nodes[n].sender, s.log[i].text, s.log[k].origin.entry.id, consume);
    case Announced(n) => EventIsEvent(s.client, w.nodes[n].sender, s.log[i].text, consume);
  }

  /** And no genuine reply is missed: it finds its entry exactly while that is outstanding. */
  lemma EveryReplyIsMatched(w: World, start: State, steps: seq<Step>, s: System, i: nat, consume: bool)
    requires ValidWorld(w) && Reaches(w, start, steps, s) && i < |s.log| && s.log[i].origin.Replied?
    ensures s.log[i].origin.cause < i && s.log[s.log[i].origin.cause].origin.Asked?
    ensures var p := s.log[s.log[i].origin.cause].origin.entry;
            Classify(s.client, s.log[i].text, consume).inbound
            == Response(Some(p.id), if p.id in s.client.pending then Some(p) else None)
  {
    hide Classify, Accepted, Framed, Decimal, IsClientLine, Lower;
    ReachableInv(w, start, steps, s);
    assert MessageOk(w, s.built, s.log, i);
    var n, k := s.log[i].origin.node, s.log[i].origin.cause;
    assert MessageOk(w, s.built, s.log, k);
    ReplyFindsItsEntry(s.client, w.nodes[n].sender, s.log[i].text, s.log[k].origin.entry.id, consume);
  }

  /** The (node, request) pairs of the replies on the channel, with multiplicity. */
  function ReplyPairs(log: seq<Message>): multiset<(nat, nat)> {
    if log == [] then multiset{}
    else
      var m := log[|log| - 1];
      ReplyPairs(log[..|log| - 1]) + if m.origin.Replied? then multiset{(m.origin.node, m.origin.cause)} else multiset{}
  }

  lemma PairsOfSend(log: seq<Message>, m: Message)
    ensures ReplyPairs(log + [m])
         == ReplyPairs(log) + if m.origin.Replied? then multiset{(m.origin.node, m.origin.cause)} else multiset{}
  {
    assert (log + [m])[..|log|] == log;
  }

  lemma StepPairs(w: World, s: System, step: Step)
    requires Enabled(w, s, step) && ReplyPairs(s.log) <= multiset(s.heard)
    ensures ReplyPairs(Next(w, s, step).log) <= multiset(Next(w, s, step).heard)
  {
    hide NodeReply, Build, Classify, EventText, Framed, ReplyPairs;
    var s' := Next(w, s, step);
    if |s'.log| > |s.log| {
      PairsOfSend(s.log, s'.log[|s.log|]);
    }
  }

  /**
   No reply storm. Over any run the replies on the channel are no more than the
   deliveries, pair by pair: each delivery of a line to a node caused at most one
   reply, every reply answers a request of the client that this node accepted, and
   so replies and events, however often they are heard, caused none.
   */
  lemma {:induction false} NoReplyStorm(w: World, start: State, steps: seq<Step>, s: System)
    requires ValidWorld(w) && Reaches(w, start, steps, s)
    ensures ReplyPairs(s.log) <= multiset(s.heard)
    ensures forall i :: 0 <= i < |s.log| && s.log[i].origin.Replied? ==>
              var n, k := s.log[i].origin.node, s.log[i].origin.cause;
              n < |w.nodes| && k < i && s.log[k].origin.Asked? && Accepted(w.nodes[n].cfg, s.log[k].origin.entry)
    decreases |steps|
  {
    hide Accepted, Inv, Next, Enabled, ReplyPairs, ValidWorld;
    PairsAreHeard(w, start, steps, s);
    ReachableInv(w, start, steps, s);
    RepliesAnswerRequests(w, s);
  }

  lemma RepliesAnswerRequests(w: World, s: System)
    requires Inv(w, s)
    ensures forall i :: 0 <= i < |s.log| && s.log[i].origin.Replied? ==>
              var n, k := s.log[i].origin.node, s.log[i].origin.cause;
              n < |w.nodes| && k < i && s.log[k].origin.Asked? && Accepted(w.nodes[n].cfg, s.log[k].origin.entry)
  {
    hide Accepted, Framed, IsClientLine, Decimal;
    forall i | 0 <= i < |s.log| && s.log[i].origin.Replied?
      ensures var n, k := s.log[i].origin.node, s.log[i].origin.cause;
              n < |w.nodes| && k < i && s.log[k].origin.Asked? && Accepted(w.nodes[n].cfg, s.log[k].origin.entry)
    {
      assert MessageOk(w, s.built, s.log, i);
    }
  }

  lemma {:induction false} PairsAreHeard(w: World, start: State, steps: seq<Step>, s: System)
    requires Reaches(w, start, steps, s)
    ensures ReplyPairs(s.log) <= multiset(s.heard)
    decreases |steps|
  {
    hide Next, Enabled;
    if steps != [] {
      hide ReplyPairs;
      var before :| IsStep(w, start, steps, before, s);
      PairsAreHeard(w, start, steps[..|steps| - 1], before);
      StepPairs(w, before, steps[|steps| - 1]);
    }
  }

  // ----- such runs exist ------------------------------------------------------------

  lemma ReachesNext(w: World, start: State, steps: seq<Step>, before: System, step: Step)
    requires Reaches(w, start, steps, before) && Enabled(w, before, step)
    ensures Reaches(w, start, steps + [step], Next(w, before, step))
  {
    hide Next, Enabled;
    var all := steps + [step];
    assert all[..|all| - 1] == steps;
    assert IsStep(w, start, all, before, Next(w, before, step));
  }

  lemma AcceptedIsAnswered(cfg: NodeConfig, name: string, p: Pending, outcome: Outcome)
    requires IsSender(name) && IsClientLine(p) && Accepted(cfg, p)
    ensures NodeReply(cfg, Framed(name, p.raw), outcome).Some?
  {
    hide Decimal, Parse, CStr, StripSender, Framed, Addressed, ReplyBody, IsClientLine;
    NodeReadsRequest(name, p);
  }

  /**
   Whatever a client asks that some node accepts, one delivery brings a reply that
   finds the entry: a run of two steps from any fresh client.
   */
  lemma AcceptedIsMatched(w: World, start: State, a: Ask, now: int, n: nat, outcome: Outcome, consume: bool)
    returns (s: System)
    requires ValidWorld(w) && Fresh(start) && n < |w.nodes|
    requires Enabled(w, System(start, map[], [], []), ClientBuild(a, now))
    requires var b := Build(start, a, now); b.entry.Some? && Accepted(w.nodes[n].cfg, b.entry.value)
    ensures Reaches(w, start, [ClientBuild(a, now), NodeHear(n, 0, outcome)], s)
    ensures |s.log| == 2 && s.log[1].origin == Replied(n, 0)
    ensures var p := Build(start, a, now).entry.value;
            Classify(s.client, s.log[1].text, consume).inbound == Response(Some(p.id), Some(p))
  {
    hide Build, Classify, Accepted, NodeReply, Framed, IsClientLine, SafeTarget;
    var s0, ask, hear := System(start, map[], [], []), ClientBuild(a, now), NodeHear(n, 0, outcome);
    var p := Build(start, a, now).entry.value;
    assert [] + [ask] == [ask] && [ask] + [hear] == [ask, hear];
    ReachesNext(w, start, [], s0, ask);
    var s1 := Next(w, s0, ask);
    BuiltLine(start, a, now);
    AcceptedIsAnswered(w.nodes[n].cfg, w.me, p, outcome);
    ReachesNext(w, start, [ask], s1, hear);
    s := Next(w, s1, hear);
    BuiltState(start, a, now);
    EveryReplyIsMatched(w, start, [ask, hear], s, 1, consume);
  }

  const PING := Ask("a", "ping", [], None, None, 0, false, false)
  const PING_ENTRY := Pending(1, "a", "ping", [], 0, 15, "a#1 ping", false)

  lemma PingIsBuilt()
    ensures Build(State(15, 1, map[], []), PING, 0).entry == Some(PING_ENTRY)
  {
    assert Decimal(1) == "1";
    assert "a" + "#" + "1" + " " + "ping" + "" == "a#1 ping";
  }

  /** And there is such a request: `ping` to the node `a` under id 1. */
  lemma PingIsAccepted()
    ensures var b := Build(State(15, 1, map[], []), PING, 0);
            SafeTarget("a") && b.entry.Some? && Accepted(NodeConfig("a", "", ""), b.entry.value)
  {
    hide Build, Parse, SafeTarget, CStr, Decimal;
    assert Lower("a") == "a";
    GrammarTargetsAreSafe(Named, "a");
    PingIsBuilt();
    PingLine(Request(Named, "a", true, 1, "ping", []));
    CStrOfWhole("a#1 ping");
  }

  lemma PingLine(r: Request)
    requires r == Request(Named, "a", true, 1, "ping", [])
    ensures Parse(Cpp, "a#1 ping") == Parsed(Ok, r)
  {
    hide Parse;
    assert Lower("a") == "a" && Lower("ping") == "ping" && Decimal(1) == "1";
    assert Outbound.WellFormed(Cpp, r);
    Outbound.ParseOfLine(Cpp, r);
    assert Outbound.Line(r) == "a#1 ping";
  }
}
