/** The benchmark client's message accounting: concurrent connections that die, are reborn and share counters. */
module EchoClient {
  import opened PayloadHash

  /** Command line: message length and content, messages per connection, connections, rebirths. */
  datatype Config = Config(payload: seq<Byte>, limit: nat, clients: nat, reborn: nat) {
    ghost predicate Valid() {
      |payload| > 0 && limit > 0 && clients > 0 && reborn > 0
    }

    function TotalMsgCnt(): nat {
      limit * clients * reborn
    }
  }

  /** ClientCtx: which life this is, messages echoed in it, and temp_buf. */
  datatype ClientCtx = ClientCtx(rebornCnt: nat, msgCnt: nat, tempBuf: seq<Byte>)

  /** The connection of a lineage: not open yet, open with a message out, or closed for good. */
  datatype Wire = Connecting | Open(message: seq<Byte>) | Finished

  datatype Lineage = Lineage(ctx: ClientCtx, wire: Wire)

  datatype Context = Context(clients: seq<Lineage>, loopCnt: nat, sendBytesSum: int, recvBytesSum: int)

  /** How a callback ends: it goes on, it calls EndClient, or it aborts. */
  datatype Outcome = Continue | End | Abort

  /** What the loop calls back for; socketsLeft is loop.socket_count() after this connection has been closed. */
  datatype Event =
    | Connected(i: nat)
    | Read(i: nat, piece: seq<Byte>, isMsgEnd: bool, socketsLeft: nat)
    | Closed(i: nat)

  ghost predicate Possible(g: Context, e: Event) {
    match e
    case Connected(i) => i < |g.clients| && g.clients[i].wire.Connecting?
    case Read(i, _, _, _) => i < |g.clients| && g.clients[i].wire.Open?
    case Closed(i) => i < |g.clients|
  }

  /** The on-open callback, WriteFirstMsg. */
  ghost function FirstMsg(g: Context, i: nat): Context
    requires i < |g.clients|
  {
    var ctx := g.clients[i].ctx;
    g.(clients := g.clients[i := Lineage(ctx.(tempBuf := []), Open(ctx.tempBuf))],
       sendBytesSum := g.sendBytesSum + |ctx.tempBuf|)
  }

  /** The on-read callback for a data message. */
  ghost function ReadResult(cfg: Config, g: Context, i: nat, piece: seq<Byte>, isMsgEnd: bool, socketsLeft: nat)
    : (Context, Outcome)
    requires i < |g.clients|
  {
    var was := g.clients[i];
    var buf := was.ctx.tempBuf + piece;
    var recv := g.recvBytesSum + |piece|;
    if !isMsgEnd then
      (g.(clients := g.clients[i := was.(ctx := was.ctx.(tempBuf := buf))], recvBytesSum := recv), Continue)
    else
      var loopCnt := g.loopCnt + 1;
      var ctx := ClientCtx(was.ctx.rebornCnt, was.ctx.msgCnt + 1, buf);
      var h := g.(loopCnt := loopCnt, recvBytesSum := recv);
      if ctx.msgCnt == cfg.limit then
        if |buf| != |cfg.payload| then (h, Abort)
        else if ctx.rebornCnt < cfg.reborn then
          (h.(clients := g.clients[i := Lineage(ClientCtx(ctx.rebornCnt + 1, 0, buf), Connecting)]), Continue)
        else
          (h.(clients := g.clients[i := Lineage(ctx.(tempBuf := []), Finished)]),
           if socketsLeft == 0 then End else Continue)
      else if loopCnt >= cfg.TotalMsgCnt() then
        (h.(clients := g.clients[i := Lineage(ctx, was.wire)]), End)
      else if loopCnt % 0x4000 == 0 && Hash(buf) != Hash(cfg.payload) then
        (h.(clients := g.clients[i := Lineage(ctx, was.wire)]), Abort)
      else
        (h.(clients := g.clients[i := Lineage(ctx.(tempBuf := []), Open(buf))],
            sendBytesSum := g.sendBytesSum + |buf|), Continue)
  }

  /** The on-close callback. */
  ghost function OnClose(cfg: Config, g: Context): Outcome {
    if g.loopCnt >= cfg.TotalMsgCnt() then End else Continue
  }

  ghost function Step(cfg: Config, g: Context, e: Event): (Context, Outcome)
    requires Possible(g, e)
  {
    match e
    case Connected(i) => (FirstMsg(g, i), Continue)
    case Read(i, piece, isMsgEnd, socketsLeft) => ReadResult(cfg, g, i, piece, isMsgEnd, socketsLeft)
    case Closed(i) => (g, OnClose(cfg, g))
  }

  /** The peer sends back each message as it was, in pieces, marking the last one. */
  ghost predicate FaithfulPeer(g: Context, e: Event)
    requires Possible(g, e)
  {
    e.Read? ==>
      var client := g.clients[e.i];
      var echoed := client.ctx.tempBuf + e.piece;
      echoed <= client.wire.message && (e.isMsgEnd <==> echoed == client.wire.message)
  }

  ghost function Echoed(cfg: Config, c: Lineage): int {
    (c.ctx.rebornCnt - 1) * cfg.limit + c.ctx.msgCnt
  }

  /** The messages a lineage has sent: those echoed and the one that is out. */
  ghost function SentMsgs(cfg: Config, c: Lineage): int {
    Echoed(cfg, c) + (if c.wire.Open? then 1 else 0)
  }

  ghost function Missing(c: Lineage): int {
    if c.wire.Open? then |c.wire.message| - |c.ctx.tempBuf| else 0
  }

  ghost function EchoedSum(cfg: Config, cs: seq<Lineage>): int {
    if |cs| == 0 then 0 else EchoedSum(cfg, cs[..|cs| - 1]) + Echoed(cfg, cs[|cs| - 1])
  }

  ghost function SentSum(cfg: Config, cs: seq<Lineage>): int {
    if |cs| == 0 then 0 else SentSum(cfg, cs[..|cs| - 1]) + SentMsgs(cfg, cs[|cs| - 1])
  }

  ghost function MissingSum(cs: seq<Lineage>): int {
    if |cs| == 0 then 0 else MissingSum(cs[..|cs| - 1]) + Missing(cs[|cs| - 1])
  }

  ghost predicate LineageOk(cfg: Config, c: Lineage) {
    && 1 <= c.ctx.rebornCnt <= cfg.reborn
    && match c.wire
       case Connecting => c.ctx.msgCnt == 0 && c.ctx.tempBuf == cfg.payload
       case Open(message) => c.ctx.msgCnt < cfg.limit && message == cfg.payload && c.ctx.tempBuf < message
       case Finished => c.ctx.rebornCnt == cfg.reborn && c.ctx.msgCnt == cfg.limit
  }

  ghost predicate AllFinished(g: Context) {
    forall i :: 0 <= i < |g.clients| ==> g.clients[i].wire.Finished?
  }

  /** The global counters are sums over the lineages: messages echoed, payloads sent, and of those the bytes that
      are not back yet. */
  ghost predicate Accounted(cfg: Config, g: Context) {
    && cfg.Valid()
    && |g.clients| == cfg.clients
    && (forall i :: 0 <= i < |g.clients| ==> LineageOk(cfg, g.clients[i]))
    && g.loopCnt == EchoedSum(cfg, g.clients)
    && g.sendBytesSum == SentSum(cfg, g.clients) * |cfg.payload|
    && g.sendBytesSum - g.recvBytesSum == MissingSum(g.clients)
  }

  ghost function Start(cfg: Config): Context {
    Context(seq(cfg.clients, _ => Lineage(ClientCtx(1, 0, cfg.payload), Connecting)), 0, 0, 0)
  }

  lemma {:induction false} SumUpdate(cfg: Config, cs: seq<Lineage>, i: nat, c: Lineage)
    requires i < |cs|
    ensures EchoedSum(cfg, cs[i := c]) == EchoedSum(cfg, cs) - Echoed(cfg, cs[i]) + Echoed(cfg, c)
    ensures SentSum(cfg, cs[i := c]) == SentSum(cfg, cs) - SentMsgs(cfg, cs[i]) + SentMsgs(cfg, c)
    ensures MissingSum(cs[i := c]) == MissingSum(cs) - Missing(cs[i]) + Missing(c)
  {
    var n := |cs| - 1;
    if i < n {
      SumUpdate(cfg, cs[..n], i, c);
      assert cs[i := c][..n] == cs[..n][i := c];
    } else {
      assert cs[i := c][..n] == cs[..n];
    }
  }

  lemma {:induction false} StartSums(cfg: Config, n: nat)
    ensures var cs := seq(n, _ => Lineage(ClientCtx(1, 0, cfg.payload), Connecting));
            EchoedSum(cfg, cs) == 0 && SentSum(cfg, cs) == 0 && MissingSum(cs) == 0
  {
    if n > 0 {
      StartSums(cfg, n - 1);
      var cs := seq(n, _ => Lineage(ClientCtx(1, 0, cfg.payload), Connecting));
      assert cs[..n - 1] == seq(n - 1, _ => Lineage(ClientCtx(1, 0, cfg.payload), Connecting));
    }
  }

  lemma StartIsAccounted(cfg: Config)
    requires cfg.Valid()
    ensures Accounted(cfg, Start(cfg))
  {
    StartSums(cfg, cfg.clients);
  }

  /** The sum reaches clients * reborn * limit only when every lineage is through. */
  lemma {:induction false} SumBound(cfg: Config, cs: seq<Lineage>)
    requires cfg.Valid() && forall i :: 0 <= i < |cs| ==> LineageOk(cfg, cs[i])
    ensures EchoedSum(cfg, cs) <= |cs| * (cfg.reborn * cfg.limit)
    ensures EchoedSum(cfg, cs) == |cs| * (cfg.reborn * cfg.limit) <==>
            forall i :: 0 <= i < |cs| ==> cs[i].wire.Finished?
  {
    if |cs| > 0 {
      hide LineageOk, Echoed;
      var n := |cs| - 1;
      var full := cfg.reborn * cfg.limit;
      assert forall i :: 0 <= i < n ==> cs[..n][i] == cs[i];
      SumBound(cfg, cs[..n]);
      LineageBound(cfg, cs[n]);
      OneMore(n, full);
    }
  }

  lemma OneMore(n: nat, full: nat)
    ensures (n + 1) * full == n * full + full
  {
  }

  lemma LineageBound(cfg: Config, c: Lineage)
    requires cfg.Valid() && LineageOk(cfg, c)
    ensures Echoed(cfg, c) <= cfg.reborn * cfg.limit
    ensures Echoed(cfg, c) == cfg.reborn * cfg.limit <==> c.wire.Finished?
  {
    var d := cfg.reborn - c.ctx.rebornCnt;
    assert cfg.reborn * cfg.limit == (c.ctx.rebornCnt - 1) * cfg.limit + cfg.limit + d * cfg.limit;
    assert d >= 0 ==> d * cfg.limit >= 0;
  }

  lemma TotalIsProduct(limit: nat, clients: nat, reborn: nat)
    ensures limit * clients * reborn == clients * (reborn * limit)
  {
  }

  /** The total is reached exactly when all lineages have finished their last life. */
  lemma TotalMeansFinished(cfg: Config, g: Context)
    requires Accounted(cfg, g)
    ensures g.loopCnt <= cfg.TotalMsgCnt()
    ensures g.loopCnt >= cfg.TotalMsgCnt() <==> AllFinished(g)
  {
    hide EchoedSum, SentSum, MissingSum, LineageOk;
    SumBound(cfg, g.clients);
    TotalIsProduct(cfg.limit, cfg.clients, cfg.reborn);
  }

  /** A step that changes one lineage and the counters to match keeps the account. */
  lemma ReplaceKeepsAccount(cfg: Config, g: Context, h: Context, i: nat, c: Lineage)
    requires Accounted(cfg, g) && i < |g.clients| && LineageOk(cfg, c)
    requires h.clients == g.clients[i := c]
    requires h.loopCnt == g.loopCnt - Echoed(cfg, g.clients[i]) + Echoed(cfg, c)
    requires h.sendBytesSum - g.sendBytesSum == (SentMsgs(cfg, c) - SentMsgs(cfg, g.clients[i])) * |cfg.payload|
    requires h.sendBytesSum - h.recvBytesSum == g.sendBytesSum - g.recvBytesSum - Missing(g.clients[i]) + Missing(c)
    ensures Accounted(cfg, h)
  {
    hide LineageOk;
    SumUpdate(cfg, g.clients, i, c);
    var sent, length := SentSum(cfg, g.clients), |cfg.payload|;
    Distributes(sent, SentMsgs(cfg, c) - SentMsgs(cfg, g.clients[i]), length);
  }

  lemma Distributes(a: int, b: int, length: nat)
    ensures (a + b) * length == a * length + b * length
  {
  }

  /** Below its limit a lineage keeps the total out of reach. */
  lemma UnfinishedKeepsBelow(cfg: Config, g: Context, i: nat)
    requires Accounted(cfg, g) && i < |g.clients| && !g.clients[i].wire.Finished?
    ensures g.loopCnt < cfg.TotalMsgCnt()
  {
    TotalMeansFinished(cfg, g);
  }

  /** The last message of a lineage's last life has come back and the loop holds no socket any more. */
  ghost predicate LastOut(cfg: Config, g: Context, e: Event)
    requires Possible(g, e)
  {
    && e.Read? && e.isMsgEnd && e.socketsLeft == 0
    && g.clients[e.i].ctx.msgCnt + 1 == cfg.limit && g.clients[e.i].ctx.rebornCnt == cfg.reborn
  }

  /** Every callback with a faithful peer keeps the account and aborts on neither the hash nor the length. It ends
      the benchmark exactly when it is a close callback with every lineage through, or the last message of a
      lineage with no socket left; the total check after a message that is not a connection's last never fires. */
  lemma StepKeepsAccount(cfg: Config, g: Context, e: Event)
    requires Accounted(cfg, g) && Possible(g, e) && FaithfulPeer(g, e)
    ensures Accounted(cfg, Step(cfg, g, e).0)
    ensures Step(cfg, g, e).1 != Abort
    ensures Step(cfg, g, e).1 == End <==>
              || (e.Closed? && AllFinished(g))
              || (e.Read? && e.isMsgEnd && e.socketsLeft == 0
                  && g.clients[e.i].ctx.msgCnt + 1 == cfg.limit && g.clients[e.i].ctx.rebornCnt == cfg.reborn)
  {
    match e
    case Connected(i) =>
      var c := g.clients[i];
      ReplaceKeepsAccount(cfg, g, FirstMsg(g, i), i, FirstMsg(g, i).clients[i]);
    case Read(_, _, _, _) =>
      ReadKeepsAccount(cfg, g, e);
    case Closed(i) =>
      TotalMeansFinished(cfg, g);
  }

  lemma ReadKeepsAccount(cfg: Config, g: Context, e: Event)
    requires Accounted(cfg, g) && e.Read? && Possible(g, e) && FaithfulPeer(g, e)
    ensures var r := ReadResult(cfg, g, e.i, e.piece, e.isMsgEnd, e.socketsLeft);
            Accounted(cfg, r.0) && r.1 == if LastOut(cfg, g, e) then End else Continue
  {
    hide EchoedSum, SentSum, MissingSum;
    var i := e.i;
    var was := g.clients[i];
    var buf := was.ctx.tempBuf + e.piece;
    if !e.isMsgEnd {
      var h := ReadResult(cfg, g, i, e.piece, e.isMsgEnd, e.socketsLeft).0;
      ReplaceKeepsAccount(cfg, g, h, i, h.clients[i]);
    } else {
      assert buf == cfg.payload;
      var done := was.ctx.msgCnt + 1 == cfg.limit;
      // the account with the echo booked and its successor message not yet out
      var booked := if done && was.ctx.rebornCnt < cfg.reborn
                    then Lineage(ClientCtx(was.ctx.rebornCnt + 1, 0, buf), Connecting)
                    else if done then Lineage(ClientCtx(was.ctx.rebornCnt, cfg.limit, []), Finished)
                    else Lineage(ClientCtx(was.ctx.rebornCnt, was.ctx.msgCnt + 1, []), Open(buf));
      var h := Context(g.clients[i := booked], g.loopCnt + 1,
                       g.sendBytesSum + (if done then 0 else |buf|), g.recvBytesSum + |e.piece|);
      ReplaceKeepsAccount(cfg, g, h, i, booked);
      if !done {
        UnfinishedKeepsBelow(cfg, h, i);
      }
    }
  }

  /** A lineage that still goes on has a socket in the loop. */
  ghost predicate CountIsSound(g: Context, e: Event)
    requires Possible(g, e)
  {
    e.Read? && e.socketsLeft == 0 ==>
      forall j :: 0 <= j < |g.clients| && j != e.i ==> g.clients[j].wire.Finished?
  }

  /** With such a socket count the benchmark never ends early: at its end every lineage is through, and the
      configured number of messages went out and came back whole. */
  lemma EndsComplete(cfg: Config, g: Context, e: Event)
    requires Accounted(cfg, g) && Possible(g, e) && FaithfulPeer(g, e) && CountIsSound(g, e)
    requires Step(cfg, g, e).1 == End
    ensures var h := Step(cfg, g, e).0;
            && AllFinished(h) && h.loopCnt == cfg.TotalMsgCnt()
            && h.sendBytesSum == h.recvBytesSum == cfg.TotalMsgCnt() * |cfg.payload|
  {
    hide EchoedSum, SentSum, MissingSum;
    StepKeepsAccount(cfg, g, e);
    AllFinishedTotals(cfg, Step(cfg, g, e).0);
  }

  /** What is checked of a message that has come back, whatever it is: a connection's last one for its length,
      every 16384th other one for its hash, the rest not at all. */
  lemma MessageChecks(cfg: Config, g: Context, e: Event)
    requires Accounted(cfg, g) && e.Read? && Possible(g, e)
    ensures var ctx := g.clients[e.i].ctx;
            var buf := ctx.tempBuf + e.piece;
            && (Step(cfg, g, e).1 == Abort <==>
                  e.isMsgEnd && if ctx.msgCnt + 1 == cfg.limit then |buf| != |cfg.payload|
                                else (g.loopCnt + 1) % 0x4000 == 0 && Hash(buf) != Hash(cfg.payload))
            && (ctx.msgCnt + 1 != cfg.limit ==> Step(cfg, g, e).1 != End)
  {
    var ctx := g.clients[e.i].ctx;
    if e.isMsgEnd && ctx.msgCnt + 1 != cfg.limit {
      hide EchoedSum, SentSum, MissingSum, Hash;
      var booked := Lineage(ClientCtx(ctx.rebornCnt, ctx.msgCnt + 1, []), Open(cfg.payload));
      var h := Context(g.clients[e.i := booked], g.loopCnt + 1,
                       g.sendBytesSum + |cfg.payload|, g.recvBytesSum + Missing(g.clients[e.i]));
      ReplaceKeepsAccount(cfg, g, h, e.i, booked);
      UnfinishedKeepsBelow(cfg, h, e.i);
    }
  }

  /** There, an echo wrong in one byte ends the benchmark. */
  lemma OneWrongByteAborts(cfg: Config, g: Context, e: Event, at: nat, b: Byte)
    requires Accounted(cfg, g) && e.Read? && Possible(g, e) && e.isMsgEnd
    requires g.clients[e.i].ctx.msgCnt + 1 != cfg.limit && (g.loopCnt + 1) % 0x4000 == 0
    requires at < |cfg.payload| && b != cfg.payload[at]
    requires g.clients[e.i].ctx.tempBuf + e.piece == cfg.payload[at := b]
    ensures Step(cfg, g, e).1 == Abort
  {
    MessageChecks(cfg, g, e);
    OneByteIsSeen(cfg.payload, at, b);
  }

  /** There, an echo of the right length passes exactly when its difference from the payload hashes to 0. */
  lemma WrongBytesPassExactly(cfg: Config, g: Context, e: Event)
    requires Accounted(cfg, g) && e.Read? && Possible(g, e) && e.isMsgEnd
    requires g.clients[e.i].ctx.msgCnt + 1 != cfg.limit && (g.loopCnt + 1) % 0x4000 == 0
    requires |g.clients[e.i].ctx.tempBuf + e.piece| == |cfg.payload|
    ensures Step(cfg, g, e).1 != Abort <==> Hash(Xor(g.clients[e.i].ctx.tempBuf + e.piece, cfg.payload)) == 0
  {
    MessageChecks(cfg, g, e);
    CollideExactly(g.clients[e.i].ctx.tempBuf + e.piece, cfg.payload);
  }

  /** The message a lineage has out or goes on with in its next life. */
  ghost function Carried(c: Lineage): seq<Byte>
    requires !c.wire.Finished?
  {
    if c.wire.Connecting? then c.ctx.tempBuf else c.wire.message
  }

  /** Whatever came back, right or wrong, is what goes out next, over a rebirth as well. */
  lemma EchoGoesOut(cfg: Config, g: Context, e: Event)
    requires Possible(g, e) && e.Read? && e.isMsgEnd && Step(cfg, g, e).1 == Continue
    ensures var c := Step(cfg, g, e).0.clients[e.i];
            !c.wire.Finished? ==>
              && Carried(c) == g.clients[e.i].ctx.tempBuf + e.piece
              && (c.wire.Open? ==> c.ctx.tempBuf == [])
  {
  }

  /** A run of callbacks, each possible and from a faithful peer. */
  ghost predicate FaithfulRun(cfg: Config, g: Context, es: seq<Event>)
    decreases |es|
  {
    |es| == 0 || (Possible(g, es[0]) && FaithfulPeer(g, es[0]) && FaithfulRun(cfg, Step(cfg, g, es[0]).0, es[1..]))
  }

  ghost function After(cfg: Config, g: Context, es: seq<Event>): Context
    requires FaithfulRun(cfg, g, es)
    decreases |es|
  {
    if |es| == 0 then g else After(cfg, Step(cfg, g, es[0]).0, es[1..])
  }

  /** The account holds after any interleaving, and the total is reached only with everything finished. */
  lemma {:induction false} RunKeepsAccount(cfg: Config, g: Context, es: seq<Event>)
    requires Accounted(cfg, g) && FaithfulRun(cfg, g, es)
    ensures Accounted(cfg, After(cfg, g, es))
    ensures After(cfg, g, es).loopCnt >= cfg.TotalMsgCnt() <==> AllFinished(After(cfg, g, es))
    decreases |es|
  {
    if |es| == 0 {
      TotalMeansFinished(cfg, g);
    } else {
      StepKeepsAccount(cfg, g, es[0]);
      RunKeepsAccount(cfg, Step(cfg, g, es[0]).0, es[1..]);
    }
  }

  /** So a peer that only echoes neither changes nor repairs what a lineage carries, whatever that is. */
  lemma {:induction false} RunCarries(cfg: Config, g: Context, es: seq<Event>, i: nat)
    requires FaithfulRun(cfg, g, es) && i < |g.clients|
    ensures |After(cfg, g, es).clients| == |g.clients|
    ensures var c := After(cfg, g, es).clients[i];
            !c.wire.Finished? ==> !g.clients[i].wire.Finished? && Carried(c) == Carried(g.clients[i])
    decreases |es|
  {
    if |es| > 0 {
      hide Hash;
      RunCarries(cfg, Step(cfg, g, es[0]).0, es[1..], i);
    }
  }

  lemma {:induction false} NothingMissing(cfg: Config, cs: seq<Lineage>)
    requires forall i :: 0 <= i < |cs| ==> !cs[i].wire.Open?
    ensures MissingSum(cs) == 0 && SentSum(cfg, cs) == EchoedSum(cfg, cs)
  {
    if |cs| > 0 {
      NothingMissing(cfg, cs[..|cs| - 1]);
    }
  }

  /** All finished: every message of the total went out and came back, byte for byte in number. */
  lemma AllFinishedTotals(cfg: Config, g: Context)
    requires Accounted(cfg, g) && AllFinished(g)
    ensures g.loopCnt == cfg.TotalMsgCnt()
    ensures g.sendBytesSum == g.recvBytesSum == cfg.TotalMsgCnt() * |cfg.payload|
  {
    hide EchoedSum, SentSum, MissingSum, LineageOk;
    TotalMeansFinished(cfg, g);
    NothingMissing(cfg, g.clients);
  }

  /** Once all are finished, exactly the configured number of messages went out and came back whole. */
  lemma FinishedTotals(cfg: Config, es: seq<Event>)
    requires cfg.Valid() && FaithfulRun(cfg, Start(cfg), es) && AllFinished(After(cfg, Start(cfg), es))
    ensures After(cfg, Start(cfg), es).loopCnt == cfg.TotalMsgCnt()
    ensures var g := After(cfg, Start(cfg), es);
            g.sendBytesSum == g.recvBytesSum == cfg.TotalMsgCnt() * |cfg.payload|
  {
    StartIsAccounted(cfg);
    RunKeepsAccount(cfg, Start(cfg), es);
    AllFinishedTotals(cfg, After(cfg, Start(cfg), es));
  }

  /** ContextClass: the shared counters and the connections' contexts, updated in place by the callbacks. With a
      faithful peer the account holds between any two of them. */
  class ContextClass {
    const cfg: Config
    const dataHash: bv64
    var clients: seq<Lineage>
    var loopCnt: nat
    var sendBytesSum: int
    var recvBytesSum: int

    ghost function State(): Context
      reads this
    {
      Context(clients, loopCnt, sendBytesSum, recvBytesSum)
    }

    ghost predicate Valid()
      reads this
    {
      Accounted(cfg, State()) && dataHash == Hash(cfg.payload)
    }

    constructor (cfg: Config)
      ensures cfg.Valid() ==> Valid()
      ensures this.cfg == cfg && State() == Start(cfg) && dataHash == Hash(cfg.payload)
    {
      this.cfg, dataHash := cfg, Hash(cfg.payload);
      clients := seq(cfg.clients, _ => Lineage(ClientCtx(1, 0, cfg.payload), Connecting));
      loopCnt, sendBytesSum, recvBytesSum := 0, 0, 0;
      new;
      if cfg.Valid() {
        StartIsAccounted(cfg);
      }
    }

    method OnOpen(i: nat)
      requires Possible(State(), Connected(i))
      modifies this
      ensures State() == FirstMsg(old(State()), i)
      ensures old(Valid()) ==> Valid() && clients[i].wire == Open(cfg.payload) && Missing(clients[i]) == |cfg.payload|
    {
      ghost var before := State();
      var ctx := clients[i].ctx;
      var targetSize := |ctx.tempBuf|;
      clients := clients[i := Lineage(ctx.(tempBuf := []), Open(ctx.tempBuf))];
      sendBytesSum := sendBytesSum + targetSize;
      if Accounted(cfg, before) {
        StepKeepsAccount(cfg, before, Connected(i));
      }
    }

    method OnRead(i: nat, piece: seq<Byte>, isMsgEnd: bool, socketsLeft: nat) returns (outcome: Outcome)
      requires Possible(State(), Read(i, piece, isMsgEnd, socketsLeft)) && dataHash == Hash(cfg.payload)
      modifies this
      ensures var e := Read(i, piece, isMsgEnd, socketsLeft);
              && (State(), outcome) == Step(cfg, old(State()), e)
              && (old(Valid() && FaithfulPeer(State(), e)) ==>
                    Valid() && outcome == if old(LastOut(cfg, State(), e)) then End else Continue)
    {
      ghost var before, e := State(), Read(i, piece, isMsgEnd, socketsLeft);
      outcome := Receive(i, piece, isMsgEnd, socketsLeft);
      if Accounted(cfg, before) && FaithfulPeer(before, e) {
        ReadKeepsAccount(cfg, before, e);
      }
    }

    method Receive(i: nat, piece: seq<Byte>, isMsgEnd: bool, socketsLeft: nat) returns (outcome: Outcome)
      requires Possible(State(), Read(i, piece, isMsgEnd, socketsLeft)) && dataHash == Hash(cfg.payload)
      modifies this
      ensures (State(), outcome) == ReadResult(cfg, old(State()), i, piece, isMsgEnd, socketsLeft)
    {
      var ctx, wire := clients[i].ctx, clients[i].wire;
      ctx := ctx.(tempBuf := ctx.tempBuf + piece);
      recvBytesSum := recvBytesSum + |piece|;
      if !isMsgEnd {
        clients := clients[i := Lineage(ctx, wire)];
        return Continue;
      }
      loopCnt := loopCnt + 1;
      ctx := ctx.(msgCnt := ctx.msgCnt + 1);
      if ctx.msgCnt == cfg.limit {
        if |ctx.tempBuf| != |cfg.payload| {
          return Abort;
        }
        if ctx.rebornCnt < cfg.reborn {
          clients := clients[i := Lineage(ClientCtx(ctx.rebornCnt + 1, 0, ctx.tempBuf), Connecting)];
        } else {
          clients := clients[i := Lineage(ctx.(tempBuf := []), Finished)];
          if socketsLeft == 0 {
            return End;
          }
        }
        return Continue;
      }
      clients := clients[i := Lineage(ctx, wire)];
      if loopCnt >= cfg.TotalMsgCnt() {
        return End;
      }
      if loopCnt % 0x4000 == 0 {
        var tempHash := HashArr(ctx.tempBuf);
        if tempHash != dataHash {
          return Abort;
        }
      }
      var targetSize := |ctx.tempBuf|;
      clients := clients[i := Lineage(ctx.(tempBuf := []), Open(ctx.tempBuf))];
      sendBytesSum := sendBytesSum + targetSize;
      assert clients == old(clients)[i := clients[i]];
      outcome := Continue;
    }

    method Close(i: nat) returns (outcome: Outcome)
      requires Possible(State(), Closed(i))
      ensures outcome == OnClose(cfg, State())
      ensures Valid() ==> (outcome == End <==> AllFinished(State()))
    {
      if Accounted(cfg, State()) {
        TotalMeansFinished(cfg, State());
      }
      outcome := if loopCnt >= cfg.TotalMsgCnt() then End else Continue;
    }
  }
}
