/**
 The node side: addressing, reply prefixing and dispatch of src/Dispatcher.cpp,
 event lines of src/McRpc.cpp, and the Python addressing rule beside them.
 */
module Node {
  import opened Text
  import opened Wire
  import opened Buffers
  import opened Framing
  import CppParser
  import Outbound
  import PyParser
  import Registry

  datatype NodeConfig = NodeConfig(name: string, id: string, group: string)

  // ----- addressing -------------------------------------------------------------

  /** Case-insensitive hex prefix, both sides being hex over the prefix. */
  predicate HexPrefix(full: string, prefix: string) {
    && prefix != "" && |prefix| <= |full|
    && AllIn(Hex, prefix) && Lower(full[..|prefix|]) == Lower(prefix)
  }

  predicate Addressed(cfg: NodeConfig, r: Request) {
    match r.kind
    case Everyone => true
    case Self => true
    case Group => cfg.group != "" && Lower(r.target) == Lower(cfg.group)
    case Id => cfg.id != "" && (Lower(r.target) == Lower(cfg.id) || HexPrefix(cfg.id, r.target))
    case Named => cfg.name != "" && Lower(r.target) == Lower(cfg.name)
  }

  /** Dispatcher._addressed of the Python peer. */
  predicate AddressedPython(cfg: NodeConfig, r: Request) {
    match r.kind
    case Everyone => true
    case Self => true
    case Group => cfg.group != "" && Lower(r.target) == Lower(cfg.group)
    case Id => cfg.id != "" && (Lower(cfg.id) == Lower(r.target) || Lower(r.target) <= Lower(cfg.id))
    case Named => cfg.name != "" && Lower(r.target) == Lower(cfg.name)
  }

  lemma LowerHex(a: char, b: char)
    requires LowerChar(a) == LowerChar(b)
    ensures Is(Hex, a) <==> Is(Hex, b)
  {
  }

  lemma HexPrefixIsPrefix(full: string, prefix: string)
    requires prefix != "" && AllIn(Hex, prefix)
    ensures HexPrefix(full, prefix) <==> Lower(prefix) <= Lower(full)
  {
    if |prefix| <= |full| {
      assert Lower(full)[..|prefix|] == Lower(full[..|prefix|]);
    }
  }

  /**
   On any request a parser can produce the two languages accept alike, and the
   whole-id comparison of C++ adds nothing to the prefix match.
   */
  lemma SameAddressing(cfg: NodeConfig, r: Request)
    requires IsTargetText(r.kind, r.target)
    ensures Addressed(cfg, r) <==> AddressedPython(cfg, r)
    ensures r.kind == Id && Lower(r.target) == Lower(cfg.id) ==> HexPrefix(cfg.id, r.target)
  {
    hide Lower;
    if r.kind == Id {
      HexPrefixIsPrefix(cfg.id, r.target);
    }
  }

  ghost predicate NamesDistinct(fleet: seq<NodeConfig>) {
    forall i, j :: 0 <= i < j < |fleet| ==> Lower(fleet[i].name) != Lower(fleet[j].name)
  }

  ghost predicate IdsDistinct(fleet: seq<NodeConfig>, n: nat) {
    && (forall i :: 0 <= i < |fleet| ==> |fleet[i].id| == n)
    && (forall i, j :: 0 <= i < j < |fleet| ==> Lower(fleet[i].id) != Lower(fleet[j].id))
  }

  /** A name or a whole id reaches at most one node of a fleet that keeps them apart. */
  lemma AtMostOneNode(fleet: seq<NodeConfig>, r: Request, n: nat, i: nat, j: nat)
    requires NamesDistinct(fleet) && IdsDistinct(fleet, n)
    requires r.kind == Named || (r.kind == Id && |r.target| == n && IsTargetText(Id, r.target))
    requires i < j < |fleet| && Addressed(fleet[i], r)
    ensures !Addressed(fleet[j], r)
  {
    if r.kind == Id {
      HexPrefixIsPrefix(fleet[i].id, r.target);
      HexPrefixIsPrefix(fleet[j].id, r.target);
      SameAddressing(fleet[i], r);
      SameAddressing(fleet[j], r);
      assert Lower(fleet[i].id) != Lower(fleet[j].id);
    } else {
      assert Lower(fleet[i].name) != Lower(fleet[j].name);
    }
  }

  /** `@p` reaches exactly the nodes whose id starts with p, letter case aside. */
  lemma PrefixReachesItsNodes(cfg: NodeConfig, r: Request)
    requires r.kind == Id && IsTargetText(Id, r.target)
    ensures Addressed(cfg, r) <==> Lower(r.target) <= Lower(cfg.id)
  {
    HexPrefixIsPrefix(cfg.id, r.target);
    if Lower(r.target) <= Lower(cfg.id) {
      assert |cfg.id| >= |r.target| > 0;
    }
  }

  method HexIdPrefixMatch(full: CString, prefix: CString) returns (matches: bool)
    requires (full.Str? ==> NoNul(full.text)) && (prefix.Str? ==> NoNul(prefix.text))
    ensures matches <==> full.Str? && prefix.Str? && HexPrefix(full.text, prefix.text)
  {
    if full.Null? || prefix.Null? || prefix.text == "" {
      return false;
    }
    var f, p := full.text, prefix.text;
    var i := 0;
    while At(p, i) != NUL
      invariant i <= |p| && i <= |f|
      invariant forall j :: 0 <= j < i ==> Is(Hex, p[j]) && LowerChar(f[j]) == LowerChar(p[j])
      decreases |p| - i
    {
      if At(f, i) == NUL {
        assert !(|p| <= |f|);
        return false;
      }
      var a, b := LowerChar(f[i]), LowerChar(p[i]);
      LowerHex(a, f[i]);
      LowerHex(b, p[i]);
      if !Is(Hex, a) || !Is(Hex, b) || a != b {
        if |p| <= |f| && Lower(f[..|p|]) == Lower(p) {
          assert Lower(f[..|p|])[i] == a && Lower(p)[i] == b;
          LowerHex(f[i], p[i]);
        }
        return false;
      }
      i := i + 1;
    }
    assert Lower(f[..|p|]) == Lower(p);
    return true;
  }

  // ----- replies ------------------------------------------------------------------

  /** What a handler leaves: its return value and the body it wrote into its buffer. */
  type Body = s: string | |s| < MAX_REPLY && NoNul(s)

  datatype Outcome = UnknownCommand | Handled(ok: bool, body: Body)

  function ReplyBody(outcome: Outcome): (body: Body)
    ensures body != ""
  {
    match outcome
    case UnknownCommand => "err unknown_command"
    case Handled(ok, body) => if body != "" then body else if ok then "ok" else "err internal"
  }

  function IdPrefix(r: Request): (s: string)
    ensures NoNul(s)
  {
    if r.hasId then "#" + Decimal(r.id) + " " else ""
  }

  function Prefixed(r: Request, body: string): string {
    Push(IdPrefix(r), body)
  }

  lemma IdPrefixFits(r: Request)
    requires r.id < UINT32_SIZE
    ensures |IdPrefix(r)| <= 12
  {
    Decimal32(r.id);
  }

  /**
   A correlated reply carries its body whole or not at all: whole exactly when
   prefix and body together fit the buffer, so a body the buffer itself held can
   still be lost to its own prefix.
   */
  lemma BodyIsWholeOrLost(r: Request, body: string)
    requires r.hasId && body != ""
    ensures Prefixed(r, body) == IdPrefix(r) + body <==> |IdPrefix(r)| + |body| < MAX_REPLY
    ensures Prefixed(r, body) == IdPrefix(r) <==> |IdPrefix(r)| + |body| >= MAX_REPLY
  {
    hide Decimal;
    if |IdPrefix(r)| + |body| < MAX_REPLY {
      assert |IdPrefix(r) + body| > |IdPrefix(r)|;
    }
  }

  /** So a body that fills the buffer is lost to any tag. */
  lemma FullBodyIsLost(r: Request, body: string)
    requires r.hasId && |body| == MAX_REPLY - 1
    ensures Prefixed(r, body) == IdPrefix(r)
  {
    hide Decimal, Prefixed;
    BodyIsWholeOrLost(r, body);
    assert |IdPrefix(r)| > 0;
  }

  /** The whole of one dispatch: the reply text, or nothing. */
  function Dispatched(cfg: NodeConfig, line: string, outcome: Request -> Outcome): Option<string> {
    var p := Parse(Cpp, line);
    if p.result == Ok && Addressed(cfg, p.request) then
      Some(Prefixed(p.request, ReplyBody(outcome(p.request))))
    else None
  }

  datatype HandlerResult = HandlerResult(ok: bool, body: Body)

  /** What the table and the handlers make of a request; `run` is what calling a handler does. */
  function OutcomeOf<H>(entries: seq<Registry.Entry<H>>, run: (H, Request) -> HandlerResult, r: Request): Outcome {
    match Registry.Find(entries, r.command)
    case None => UnknownCommand
    case Some(e) => var h := run(e.handler, r); Handled(h.ok, h.body)
  }

  // ----- the Python peer ----------------------------------------------------------

  /** Dispatcher.dispatch of the Python peer, where nothing bounds the reply. */
  function DispatchedPython<H>(
      cfg: NodeConfig, handlers: map<string, H>, run: (H, Request) -> string, line: string): Option<string>
  {
    var p := Parse(Python, line);
    if p.result == Ok && AddressedPython(cfg, p.request) then
      var c := p.request.command;
      var body := if c in handlers then run(handlers[c], p.request) else "err unknown_command";
      Some(IdPrefix(p.request) + if body == "" then "ok" else body)
    else None
  }

  /** The handler dict after calls of register(): keys lowered, no bound, the last one wins. */
  function HandlersAfter<H>(calls: seq<Registry.Call<H>>): map<string, H> {
    if calls == [] then map[]
    else
      var c := calls[|calls| - 1];
      HandlersAfter(calls[..|calls| - 1])[Lower(c.name) := c.handler]
  }

  class PythonDispatcher<H(0)> {
    var handlers: map<string, H>
    var nodeName: string
    var nodeId: string
    var groupName: string

    function Config(): NodeConfig
      reads this
    {
      NodeConfig(nodeName, nodeId, groupName)
    }

    constructor ()
      ensures handlers == map[] && Config() == NodeConfig("", "", "")
    {
      handlers, nodeName, nodeId, groupName := map[], "", "", "";
    }

    method Register(command: string, handler: H)
      modifies this`handlers
      ensures handlers == old(handlers)[Lower(command) := handler]
    {
      handlers := handlers[Lower(command) := handler];
    }

    method Dispatch(line: string, run: (H, Request) -> string) returns (reply: Option<string>)
      requires NoNul(line)
      ensures reply == DispatchedPython(Config(), handlers, run, line)
    {
      hide Wire.Parse, AddressedPython, IdPrefix;
      var result, req := PyParser.Parse(Str(line));
      if result == Empty {
        return None;
      }
      if result != Ok {
        return None;
      }
      if !AddressedPython(Config(), req) {
        return None;
      }
      var body := if req.command in handlers then run(handlers[req.command], req) else "err unknown_command";
      if body == "" {
        body := "ok";
      }
      return Some(IdPrefix(req) + body);
    }
  }

  /** No registration was refused: the bounded table never was full before a call. */
  ghost predicate AllAccepted<H>(calls: seq<Registry.Call<H>>) {
    forall i :: 0 <= i < |calls| ==> |Registry.RunTable(calls[..i])| < Registry.MAX_COMMANDS
  }

  /** Then the dict holds what the bounded map holds. */
  lemma {:induction false} SameHandlers<H>(calls: seq<Registry.Call<H>>)
    requires AllAccepted(calls)
    ensures var m := Registry.RunMap(calls);
            HandlersAfter(calls).Keys == m.Keys && forall k :: k in m ==> HandlersAfter(calls)[k] == m[k].handler
  {
    if calls != [] {
      hide Lower, Registry.RunTable;
      var front := calls[..|calls| - 1];
      forall i | 0 <= i < |front| ensures |Registry.RunTable(front[..i])| < Registry.MAX_COMMANDS {
        assert front[..i] == calls[..i];
      }
      SameHandlers(front);
      Registry.TableIsMap(front);
    }
  }

  /** Lookup in the table and in the dict find the same handler. */
  lemma SameLookup<H>(calls: seq<Registry.Call<H>>, command: string)
    requires AllAccepted(calls) && Lower(command) == command
    ensures match Registry.Find(Registry.RunTable(calls), command)
            case None => command !in HandlersAfter(calls)
            case Some(e) => command in HandlersAfter(calls) && HandlersAfter(calls)[command] == e.handler
  {
    hide Lower, Registry.RunTable, Registry.Find, HandlersAfter;
    SameHandlers(calls);
    Registry.FindIsLookup(calls, command);
  }

  /** What a handler says, failure without a text included. */
  function Said(h: HandlerResult): string {
    if h.body == "" && !h.ok then "err internal" else h.body
  }

  lemma SameBody<H>(calls: seq<Registry.Call<H>>, run: (H, Request) -> HandlerResult, r: Request)
    requires AllAccepted(calls) && Lower(r.command) == r.command
    ensures var handlers := HandlersAfter(calls);
            var body := if r.command in handlers then Said(run(handlers[r.command], r)) else "err unknown_command";
            ReplyBody(OutcomeOf(Registry.RunTable(calls), run, r)) == if body == "" then "ok" else body
  {
    hide Lower, Registry.RunTable, Registry.Find, HandlersAfter;
    SameLookup(calls, r.command);
  }

  /**
   After the same registrations, none refused, and with handlers that say the same,
   on a line both parsers read alike the two dispatchers give the same answer,
   silence and unknown commands included, exactly when the tagged reply fits the
   C++ buffer.
   */
  lemma DispatchersAgreeExactly<H>(
      cfg: NodeConfig, calls: seq<Registry.Call<H>>, run: (H, Request) -> HandlerResult, line: string)
    requires AllAccepted(calls) && Parse(Cpp, line) == Parse(Python, line)
    ensures var answer := DispatchedPython(cfg, HandlersAfter(calls), (h, r) => Said(run(h, r)), line);
            Dispatched(cfg, line, r => OutcomeOf(Registry.RunTable(calls), run, r)) == answer
            <==> answer.None? || |answer.value| < MAX_REPLY
  {
    hide Parse, Decimal, Addressed, AddressedPython, IdPrefix, OutcomeOf, HandlersAfter, Lower;
    var p := Parse(Cpp, line);
    if p.result == Ok {
      Outbound.AcceptedIsWellFormed(Cpp, line);
      Outbound.WellFormedFacts(Cpp, p.request);
      SameAddressing(cfg, p.request);
      SameBody(calls, run, p.request);
      PushedOrNot(IdPrefix(p.request), ReplyBody(OutcomeOf(Registry.RunTable(calls), run, p.request)));
    }
  }

  lemma PushedOrNot(text: string, piece: string)
    requires piece != ""
    ensures Push(text, piece) == text + piece <==> |text + piece| < MAX_REPLY
  {
    assert |text + piece| > |text|;
  }

  class Dispatcher<H(0)> {
    const registry: Registry.CommandRegistry<H>
    var nodeName: string
    var nodeId: string
    var groupName: string

    ghost predicate Valid()
      reads this, registry, registry.table
    {
      registry.Valid() && NoNul(nodeName) && NoNul(nodeId) && NoNul(groupName)
    }

    function Config(): NodeConfig
      reads this
    {
      NodeConfig(nodeName, nodeId, groupName)
    }

    constructor (registry: Registry.CommandRegistry<H>)
      requires registry.Valid()
      ensures Valid() && this.registry == registry && Config() == NodeConfig("", "", "")
    {
      this.registry := registry;
      nodeName, nodeId, groupName := "", "", "";
    }

    method SetIdentity(name: CString, id: CString, group: CString)
      requires Valid() && (name.Str? ==> NoNul(name.text)) && (id.Str? ==> NoNul(id.text))
      requires group.Str? ==> NoNul(group.text)
      modifies this
      ensures Valid()
      ensures Config() == NodeConfig(if name.Str? then name.text else "", if id.Str? then id.text else "",
                                     if group.Str? then group.text else "")
    {
      nodeName := if name.Str? then name.text else "";
      nodeId := if id.Str? then id.text else "";
      groupName := if group.Str? then group.text else "";
    }

    method IsAddressedToUs(req: Request) returns (ours: bool)
      requires Valid() && NoNul(req.target)
      ensures ours <==> Addressed(Config(), req)
    {
      match req.kind
      case Everyone => return true;
      case Self => return true;
      case Group =>
        var same := Ieq(Str(req.target), Str(groupName));
        return groupName != "" && same;
      case Id =>
        if nodeId == "" {
          return false;
        }
        var same := Ieq(Str(req.target), Str(nodeId));
        var prefix := HexIdPrefixMatch(Str(nodeId), Str(req.target));
        return same || prefix;
      case Named =>
        var same := Ieq(Str(req.target), Str(nodeName));
        return nodeName != "" && same;
    }

    /** `#id ` when the request carried one, then the body if it still fits. */
    method WritePrefixed(reply: ReplyBuffer, req: Request, body: string)
      requires reply.Valid() && NoNul(body) && req.id < UINT32_SIZE
      modifies reply, reply.data
      ensures reply.Valid() && reply.Text() == Prefixed(req, body)
    {
      hide Decimal;
      reply.Clear();
      IdPrefixFits(req);
      if req.hasId {
        var _ := reply.Printf(IdPrefix(req));
        assert reply.Text() == IdPrefix(req) by { assert "" + IdPrefix(req) == IdPrefix(req); }
      }
      var _ := reply.Append(Str(body));
    }

    /** The body of the reply: the handler's, or what stands for it. */
    method BodyFor(req: Request, run: (H, Request) -> HandlerResult) returns (body: Body)
      requires Valid() && NoNul(req.command)
      ensures body == ReplyBody(OutcomeOf(registry.Entries(), run, req))
    {
      var entry := registry.FindCommand(Str(req.command));
      if entry.None? {
        return "err unknown_command";
      }
      var h := run(entry.value.handler, req);
      body := h.body;
      if !h.ok && body == "" {
        body := "err internal";
      }
      if body == "" {
        body := "ok";
      }
    }

    /**
     One inbound line. `run` is what the registered handler does with this very
     request; the parsed request is handed back whenever there is one.
     */
    method Dispatch(line: CString, reply: ReplyBuffer, run: (H, Request) -> HandlerResult)
      returns (replied: bool, outReq: Option<Request>)
      requires Valid() && reply.Valid() && (line.Str? ==> NoNul(line.text))
      requires {reply, reply.data} !! {this, registry, registry.table}
      modifies reply, reply.data
      ensures reply.Valid() && Valid()
      ensures var p := if line.Str? then Parse(Cpp, line.text) else Parsed(Empty, NO_REQUEST);
              outReq == if p.result == Ok then Some(p.request) else None
      ensures var entries := registry.Entries();
              var outcome := r => OutcomeOf(entries, run, r);
              var answer := if line.Str? then Dispatched(Config(), line.text, outcome) else None;
              replied == answer.Some? && reply.Text() == if replied then answer.value else ""
    {
      hide Parse, Addressed, OutcomeOf, ReplyBody, Prefixed;
      reply.Clear();
      var req := new CppParser.RequestBuffers();
      var result := CppParser.Parse(line, req);
      if result != Ok {
        return false, None;
      }
      var parsed := req.Model();
      ParsedIsCText(line.text);
      outReq := Some(parsed);
      var ours := IsAddressedToUs(parsed);
      if !ours {
        return false, outReq;
      }
      var body := BodyFor(parsed, run);
      WritePrefixed(reply, parsed, body);
      return true, outReq;
    }
  }

  lemma IdentIsCText(k: CharClass, s: string)
    requires k == Ident || k == Hex
    requires AllIn(k, s)
    ensures NoNul(s)
  {
    forall i | 0 <= i < |s| ensures s[i] != NUL { assert Is(k, s[i]); }
  }

  /** What the parser accepts can go through C string functions. */
  lemma ParsedIsCText(s: string)
    requires Parse(Cpp, s).result == Ok
    ensures var r := Parse(Cpp, s).request; NoNul(r.target) && NoNul(r.command) && r.id < UINT32_SIZE
  {
    hide *;
    Outbound.AcceptedIsWellFormed(Cpp, s);
    WellFormedIsCText(Parse(Cpp, s).request);
  }

  lemma WellFormedIsCText(r: Request)
    requires Outbound.WellFormed(Cpp, r)
    ensures NoNul(r.target) && NoNul(r.command) && r.id < UINT32_SIZE
  {
    hide Lower, NameKind;
    IdentIsCText(if r.kind == Id then Hex else Ident, r.target);
    IdentIsCText(Ident, r.command);
  }

  // ----- who answers, and what ------------------------------------------------------

  /** Which node a parsed request is for. */
  predicate IsFor(cfg: NodeConfig, r: Request) {
    match r.kind
    case Everyone => true
    case Self => true
    case Group => cfg.group != "" && Lower(r.target) == Lower(cfg.group)
    case Id => Lower(r.target) <= Lower(cfg.id)
    case Named => cfg.name != "" && Lower(r.target) == Lower(cfg.name)
  }

  lemma AddressedMeans(cfg: NodeConfig, r: Request)
    requires IsTargetText(r.kind, r.target)
    ensures (Addressed(cfg, r) <==> IsFor(cfg, r)) && (AddressedPython(cfg, r) <==> IsFor(cfg, r))
  {
    hide Lower;
    SameAddressing(cfg, r);
    if r.kind == Id {
      PrefixReachesItsNodes(cfg, r);
    }
  }

  /** A node answers exactly the lines it parses as requests for itself. */
  lemma AnswersExactly<H>(
      cfg: NodeConfig, line: string, outcome: Request -> Outcome, handlers: map<string, H>, run: (H, Request) -> string)
    ensures Dispatched(cfg, line, outcome).Some?
       <==> Parse(Cpp, line).result == Ok && IsFor(cfg, Parse(Cpp, line).request)
    ensures DispatchedPython(cfg, handlers, run, line).Some?
       <==> Parse(Python, line).result == Ok && IsFor(cfg, Parse(Python, line).request)
  {
    hide Parse, Addressed, AddressedPython, IsFor, Prefixed, IdPrefix, ReplyBody, Outbound.WellFormed;
    if Parse(Cpp, line).result == Ok {
      Outbound.AcceptedIsWellFormed(Cpp, line);
      Outbound.WellFormedFacts(Cpp, Parse(Cpp, line).request);
      AddressedMeans(cfg, Parse(Cpp, line).request);
    }
    if Parse(Python, line).result == Ok {
      Outbound.AcceptedIsWellFormed(Python, line);
      Outbound.WellFormedFacts(Python, Parse(Python, line).request);
      AddressedMeans(cfg, Parse(Python, line).request);
    }
  }

  /** The answer of the C++ node, from the command table and what its handler does. */
  lemma AnswerText<H>(
      cfg: NodeConfig, entries: seq<Registry.Entry<H>>, run: (H, Request) -> HandlerResult, line: string)
    requires Dispatched(cfg, line, r => OutcomeOf(entries, run, r)).Some?
    ensures var r := Parse(Cpp, line).request;
            var body := match Registry.Find(entries, r.command)
                        case None => "err unknown_command"
                        case Some(e) =>
                          var h := run(e.handler, r);
                          if h.body != "" then h.body else if h.ok then "ok" else "err internal";
            var tag := "#" + Decimal(r.id) + " ";
            Dispatched(cfg, line, r => OutcomeOf(entries, run, r)).value ==
              if !r.hasId then body else if |tag| + |body| < 192 then tag + body else tag
  {
    hide Parse, Addressed, Decimal;
    var r := Parse(Cpp, line).request;
    NoTag(r, ReplyBody(OutcomeOf(entries, run, r)));
  }

  lemma NoTag(r: Request, body: Body)
    ensures !r.hasId ==> Prefixed(r, body) == body
  {
    assert "" + body == body;
  }

  /** And of the Python node. */
  lemma AnswerTextPython<H>(cfg: NodeConfig, handlers: map<string, H>, run: (H, Request) -> string, line: string)
    requires DispatchedPython(cfg, handlers, run, line).Some?
    ensures var r := Parse(Python, line).request;
            var said := if r.command in handlers then run(handlers[r.command], r) else "err unknown_command";
            var body := if said != "" then said else "ok";
            DispatchedPython(cfg, handlers, run, line).value ==
              if r.hasId then "#" + Decimal(r.id) + " " + body else body
  {
    hide Parse, AddressedPython, Decimal;
    var r := Parse(Python, line).request;
    var said := if r.command in handlers then run(handlers[r.command], r) else "err unknown_command";
    assert "" + said == said && "" + "ok" == "ok";
  }

  // ----- what never causes a reply ------------------------------------------------

  /** No reply to a request that carried an id is ever dispatched, by any node, for any body. */
  lemma RepliesCauseNoReply(cfg: NodeConfig, sender: string, r: Request, body: string, outcome: Request -> Outcome)
    requires r.hasId && ':' !in sender
    ensures Dispatched(cfg, StripSender(Framed(sender, Prefixed(r, body))), outcome) == None
  {
    hide Parse, Decimal, Addressed, ReplyBody, StripSender, Framed;
    var reply := Prefixed(r, body);
    assert reply != "" && reply[0] == '#';
    SenderIsTransparent(Cpp, sender, reply);
    HashLineIsMalformed(Cpp, reply);
  }

  /** The line of McRpc::onEvent; a name or a payload too long for the buffer is dropped. */
  function EventText(name: string, kv: CString): string {
    var text := Push(Push("", "event "), name);
    if kv.Str? && kv.text != "" then Push(Push(text, " "), kv.text) else text
  }

  method OnEvent(buf: ReplyBuffer, name: string, kv: CString)
    requires buf.Valid() && NoNul(name) && (kv.Str? ==> NoNul(kv.text))
    modifies buf, buf.data
    ensures buf.Valid() && buf.Text() == EventText(name, kv)
  {
    buf.Clear();
    var _ := buf.Append(Str("event "));
    var _ := buf.Append(Str(name));
    if kv.Str? && kv.text != "" {
      var _ := buf.AppendChar(' ');
      var _ := buf.Append(kv);
    }
  }

  /** What an event says: all of it if it fits, and what is dropped if it does not. */
  lemma EventIsWhole(name: string, kv: CString)
    ensures var data := if kv.Str? && kv.text != "" then " " + kv.text else "";
            && (|name| + |data| < 186 ==> EventText(name, kv) == "event " + name + data)
            && (|name| >= 186 && data == "" ==> EventText(name, kv) == "event ")
            && (|name| >= 186 && data != "" ==>
                  EventText(name, kv) == if |data| < 186 then "event " + data else "event  ")
            && (|name| < 186 <= |name| + |data| ==>
                  EventText(name, kv) == if |name| < 185 then "event " + name + " " else "event " + name)
  {
    var data := if kv.Str? && kv.text != "" then " " + kv.text else "";
    assert "" + "event " == "event ";
    if data != "" {
      var k := kv.text;
      assert "event " + " " + k == "event " + data && "event " + name + " " + k == "event " + name + data;
    } else {
      assert "event " + name + "" == "event " + name;
    }
  }

  lemma EventTextStarts(name: string, kv: CString)
    ensures |EventText(name, kv)| >= 6 && EventText(name, kv)[..6] == "event "
  {
    assert "" + "event " == "event ";
    var text := Push(Push("", "event "), name);
    assert |text| >= 6 && text[..6] == "event ";
    var spaced := Push(text, " ");
    assert |spaced| >= 6 && spaced[..6] == "event ";
  }

  lemma TargetIsKept(d: Dialect, r: Request, rest: string)
    requires IsTargetText(r.kind, r.target)
    ensures AfterTarget(d, r, rest).request.kind == r.kind && AfterTarget(d, r, rest).request.target == r.target
  {
    hide Run, Skip, IdValue;
    NoGluedId(d, r);
  }

  /** An event line, if it parses at all, is a request to the name `event`. */
  lemma EventTargetsEvent(d: Dialect, line: string)
    requires |line| >= 6 && line[..6] == "event "
    ensures Parse(d, line).request.kind == Named && Parse(d, line).request.target == "event"
  {
    hide Run, Parse, AfterTarget;
    var rest := line[5..];
    assert line == "event" + rest && rest[0] == line[..6][5] == ' ';
    assert NameKind("event") == Named by { assert Lower("event") == "event"; }
    ParseWireTarget(d, Named, "event", rest);
    TargetIsKept(d, NO_REQUEST.(kind := Named, target := "event"), rest);
  }

  /** No event causes a reply, whatever its name and payload, except at a node named `event`. */
  lemma EventsCauseNoReply(cfg: NodeConfig, sender: string, name: string, kv: CString, outcome: Request -> Outcome)
    requires ':' !in sender && Lower(cfg.name) != "event"
    ensures Dispatched(cfg, StripSender(Framed(sender, EventText(name, kv))), outcome) == None
  {
    hide Parse, EventText, ReplyBody, StripSender, Framed;
    EventTextStarts(name, kv);
    SenderIsTransparent(Cpp, sender, EventText(name, kv));
    EventTargetsEvent(Cpp, EventText(name, kv));
    assert Lower("event") == "event";
  }

  predicate AnswersEvent(cfg: NodeConfig, sender: string, name: string, kv: CString, outcome: Outcome) {
    Dispatched(cfg, StripSender(Framed(sender, EventText(name, kv))), _ => outcome).Some?
  }

  ghost predicate EventsAreQuiet(cfg: NodeConfig, sender: string) {
    forall name, kv, outcome :: !AnswersEvent(cfg, sender, name, kv, outcome)
  }

  lemma EventIsARequestToEvent(d: Dialect)
    ensures var p := Parse(d, "event x"); p.result == Ok && p.request.kind == Named && p.request.target == "event"
  {
    hide Run, Parse;
    var r := Request(Named, "event", false, 0, "x", []);
    assert Lower("event") == "event" && Lower("x") == "x";
    assert Outbound.WellFormed(d, r);
    Outbound.ParseOfLine(d, r);
    assert Outbound.Line(r) == "event x";
  }

  /** The exception is real: events never cause a reply at exactly the nodes not named `event`. */
  lemma EventsAreQuietExactly(cfg: NodeConfig, sender: string)
    requires ':' !in sender
    ensures EventsAreQuiet(cfg, sender) <==> Lower(cfg.name) != "event"
  {
    hide Parse, EventText, ReplyBody, StripSender, Framed, Lower;
    if Lower(cfg.name) != "event" {
      forall name, kv, outcome ensures !AnswersEvent(cfg, sender, name, kv, outcome) {
        EventsCauseNoReply(cfg, sender, name, kv, _ => outcome);
      }
    } else {
      EventOfX();
      EventIsARequestToEvent(Cpp);
      SenderIsTransparent(Cpp, sender, EventText("x", Null));
      assert AnswersEvent(cfg, sender, "x", Null, UnknownCommand);
    }
  }

  lemma EventOfX()
    ensures EventText("x", Null) == "event x" && Lower("event") == "event" && Lower("") == ""
  {
    assert "" + "event " == "event ";
    assert "event " + "x" == "event x";
  }

  // ----- the command the parser renames -------------------------------------------

  /** A handler registered as `discover`, in any case, is never reached by a parsed request. */
  lemma DiscoverIsUnreachable<H>(entries: seq<Registry.Entry<H>>, s: string, i: nat)
    requires Parse(Cpp, s).result == Ok
    requires i < |entries| && Lower(entries[i].name) == "discover"
    ensures Registry.Find(entries, Parse(Cpp, s).request.command) != Some(entries[i])
  {
    hide Parse;
    Outbound.AcceptedIsWellFormed(Cpp, s);
    var c := Parse(Cpp, s).request.command;
    assert Lower(c) == c && c != "discover";
  }
}
