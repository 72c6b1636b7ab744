/** src/McRpc.cpp: what the facade publishes for one inbound chat text. */
module McRpc {
  import opened Text
  import opened Wire
  import opened Buffers
  import opened Node
  import Jitter
  import CppParser

  /** A line handed to the transport, with the delay before it is sent. */
  datatype Publication = Publication(text: string, delayMs: nat)

  function IdentityForJitter(cfg: NodeConfig): string {
    if cfg.id != "" then cfg.id else cfg.name
  }

  function Published(cfg: NodeConfig, text: string, outcome: Request -> Outcome, entropy: nat): Option<Publication>
    requires Jitter.Ascii(IdentityForJitter(cfg)) && entropy < Jitter.ENTROPY_SIZE
  {
    var line := StripSender(text);
    match Dispatched(cfg, line, outcome)
    case None => None
    case Some(reply) =>
      Some(Publication(reply, Jitter.Delay(Parse(Cpp, line).request.kind == Everyone, IdentityForJitter(cfg), entropy)))
  }

  /** Nothing empty is ever published, and only replies to `all` wait in the broadcast window. */
  lemma PublishedInTime(cfg: NodeConfig, text: string, outcome: Request -> Outcome, entropy: nat)
    requires Jitter.Ascii(IdentityForJitter(cfg)) && entropy < Jitter.ENTROPY_SIZE
    requires Published(cfg, text, outcome, entropy).Some?
    ensures var p, kind := Published(cfg, text, outcome, entropy).value, Parse(Cpp, StripSender(text)).request.kind;
            && p.text != ""
            && (kind == Everyone ==> Jitter.BROADCAST_MIN_MS <= p.delayMs < Jitter.BROADCAST_MAX_MS)
            && (kind != Everyone ==> p.delayMs <= Jitter.ADDRESSED_MAX_MS)
  {
    hide Parse, StripSender, Decimal, Addressed, Jitter.SlotSeed, Jitter.SlotOf, Jitter.BroadcastDelay;
    var identity := IdentityForJitter(cfg);
    Jitter.SeedIsAscii(identity);
    Jitter.DelayTellsSlot(Jitter.SlotOf(Jitter.SlotSeed(identity)), entropy);
    var r := Parse(Cpp, StripSender(text)).request;
    var body := ReplyBody(outcome(r));
    if IdPrefix(r) == "" {
      assert "" + body == body;
    }
  }

  /**
   What is published is the reply to the stripped line, unchanged, and its delay is
   that of the node's id or, if it has none, of its name.
   */
  lemma PublishesTheReply(cfg: NodeConfig, text: string, outcome: Request -> Outcome, entropy: nat)
    requires Jitter.Ascii(cfg.id) && Jitter.Ascii(cfg.name) && entropy < Jitter.ENTROPY_SIZE
    ensures var sent, reply := Published(cfg, text, outcome, entropy), Dispatched(cfg, StripSender(text), outcome);
            var seed := Jitter.SlotSeed(if cfg.id != "" then cfg.id else cfg.name);
            && Jitter.Ascii(seed) && (sent.Some? <==> reply.Some?)
            && (sent.Some? ==>
                  && sent.value.text == reply.value
                  && sent.value.delayMs ==
                     if Parse(Cpp, StripSender(text)).request.kind == Everyone
                     then 400 + Jitter.Hash(seed) % 16 * 200 + entropy % 200 else entropy % 121)
  {
    hide Parse, StripSender, Dispatched, Jitter.Delay, Jitter.Hash, Jitter.SlotSeed;
    var identity := if cfg.id != "" then cfg.id else cfg.name;
    Jitter.DelayIs(Parse(Cpp, StripSender(text)).request.kind == Everyone, identity, entropy);
  }

  method HandleInbound<H(0)>(node: Dispatcher<H>, text: CString, run: (H, Request) -> HandlerResult, entropy: nat)
    returns (sent: Option<Publication>)
    requires node.Valid() && (text.Str? ==> NoNul(text.text))
    requires Jitter.Ascii(IdentityForJitter(node.Config())) && entropy < Jitter.ENTROPY_SIZE
    ensures node.Valid()
    ensures var entries := node.registry.Entries();
            sent == if text.Null? then None
                    else Published(node.Config(), text.text, r => OutcomeOf(entries, run, r), entropy)
  {
    hide Parse, StripSender, Addressed, Jitter.Delay;
    if text.Null? {
      return None;
    }
    var line := CppParser.StripSenderPrefix(text);
    StripKeepsCText(text.text);
    var reply := new ReplyBuffer();
    var replied, req := node.Dispatch(Str(line), reply, run);
    if !replied {
      return None;
    }
    var identity := if node.nodeId != "" then node.nodeId else node.nodeName;
    var delay := Jitter.DelayMsFor(req.value, Str(identity), entropy);
    var data := CStr(reply.data[..]);
    reply.ReadsAsText();
    return Some(Publication(data, delay));
  }

  lemma StripKeepsCText(s: string)
    requires NoNul(s)
    ensures NoNul(StripSender(s))
  {
    hide Run;
    var t := StripSender(s);
    assert forall i :: 0 <= i < |t| ==> t[i] == s[|s| - |t| + i];
  }
}
