/** The chat server's state: the ChatSystem with its list of observers, each
    connected Client with its nick, and the accept step of the server loop.
    Every write on a client connection is recorded, in order, in the
    system's `deliveries`. */
module Chat {
  import opened Text
  import opened Registry
  import opened Command

  /** The most clients the accept loop lets stay connected. */
  const MaxClients: nat := 1000

  /** What one handled line writes, given the sender and the observer list:
      nothing, one notice on the sender's connection, or one copy of the text
      on every registered connection. */
  function Render(e: Effect, sender: Client, observers: seq<Client>): (r: seq<Delivery<Client>>)
    ensures e.Ignore? ==> r == []
    ensures e.Reply? ==> r == [Delivery(sender, e.text)]
    ensures e.Broadcast? ==> |r| == |observers| && forall k :: 0 <= k < |r| ==> r[k] == Delivery(observers[k], e.text)
  {
    match e
    case Ignore => []
    case Reply(text) => [Delivery(sender, text)]
    case Broadcast(text) => Fanout(observers, text)
  }

  /** The writes of a series of handled lines, in the order they were read. */
  function RenderAll(effects: seq<Effect>, sender: Client, observers: seq<Client>): seq<Delivery<Client>>
    decreases |effects|
  {
    if effects == [] then []
    else RenderAll(effects[..|effects| - 1], sender, observers) + Render(effects[|effects| - 1], sender, observers)
  }

  /** Handling one more line appends that line's writes. */
  lemma RenderAllSnoc(effects: seq<Effect>, e: Effect, sender: Client, observers: seq<Client>)
    ensures RenderAll(effects + [e], sender, observers)
         == RenderAll(effects, sender, observers) + Render(e, sender, observers)
  {
    assert (effects + [e])[..|effects|] == effects;
  }

  /** One turn of the read loop: if the writes so far are those of the
      session over the first `i` lines, and the next line was handled, then
      the writes are those of the session over the first `i + 1` lines. */
  lemma ReadStep(nick: string, id: nat, lines: seq<string>, i: nat, sender: Client,
                 observers: seq<Client>, d0: seq<Delivery<Client>>,
                 nickBefore: string, before: seq<Delivery<Client>>,
                 nickAfter: string, after: seq<Delivery<Client>>)
    requires i < |lines|
    requires var t := Session(nick, id, lines[..i]);
      nickBefore == t.nick && before == d0 + RenderAll(t.effects, sender, observers)
    requires var r := Interpret(nickBefore, id, RemoveCR(lines[i]));
      nickAfter == r.nick && after == before + Render(r.effect, sender, observers)
    ensures var t := Session(nick, id, lines[..i + 1]);
      nickAfter == t.nick && after == d0 + RenderAll(t.effects, sender, observers)
  {
    var t := Session(nick, id, lines[..i]);
    var r := Interpret(nickBefore, id, RemoveCR(lines[i]));
    SessionStep(nick, id, lines, i);
    RenderAllSnoc(t.effects, r.effect, sender, observers);
    Associative(d0, RenderAll(t.effects, sender, observers), Render(r.effect, sender, observers));
  }

  /** Sequence concatenation regroups; stated apart so that ReadStep needs
      only this instance of it. */
  lemma Associative<T>(a: seq<T>, b: seq<T>, c: seq<T>)
    ensures a + b + c == a + (b + c)
  {
  }

  class ChatSystem {
    var observers: seq<Client>
    var deliveries: seq<Delivery<Client>>

    /** Every registered client belongs to this chat system, and no client is
        registered twice (each accepted client is a new object). */
    ghost predicate Valid()
      reads this
    {
      (forall o :: o in observers ==> o.chat == this) && Distinct(observers)
    }

    constructor ()
      ensures observers == [] && deliveries == []
      ensures Valid()
    {
      observers := [];
      deliveries := [];
    }

    /** addObserver: the client is appended to the list. */
    method AddObserver(observer: Client)
      modifies this`observers
      ensures observers == old(observers) + [observer]
      ensures old(Valid()) && observer.chat == this && observer !in old(observers) ==> Valid()
    {
      observers := observers + [observer];
    }

    /** removeObserver: the first entry that is `observer` is cut out. */
    method RemoveObserver(observer: Client)
      modifies this`observers
      ensures observers == RemoveFirst(old(observers), observer)
      ensures old(Valid()) ==> Valid()
    {
      RemoveKeepsNothingNew(observers, observer);
      if Distinct(observers) {
        RemoveDistinct(observers, observer);
      }
      var i := 0;
      while i < |observers|
        invariant 0 <= i <= |observers|
        invariant observers == old(observers)
        invariant observer !in observers[..i]
      {
        if observers[i] == observer {
          RemoveAt(observers, observer, i);
          observers := observers[..i] + observers[i + 1..];
          return;
        }
        i := i + 1;
      }
      assert observers[..i] == observers;
      RemoveAbsent(observers, observer);
    }

    /** broadcast: every registered client is notified, in list order. */
    method Broadcast(message: string, senderID: nat)
      requires Valid()
      modifies this`deliveries
      ensures deliveries == old(deliveries) + Fanout(observers, message)
    {
      var i := 0;
      while i < |observers|
        invariant 0 <= i <= |observers|
        invariant deliveries == old(deliveries) + Fanout(observers[..i], message)
      {
        FanoutAppend(observers[..i], [observers[i]], message);
        assert observers[..i + 1] == observers[..i] + [observers[i]];
        observers[i].Notify(message, senderID);
        i := i + 1;
      }
      assert observers[..i] == observers;
    }

    /** generateClientID: one more than the number of registered clients. */
    function GenerateClientID(): (id: nat)
      reads this
      ensures id == NextId(observers)
    {
      |observers| + 1
    }
  }

  class Client {
    const id: nat
    var nick: string
    const chat: ChatSystem
    var connOpen: bool

    constructor (id: nat, chat: ChatSystem)
      ensures this.id == id && this.chat == chat && nick == "" && connOpen
    {
      this.id := id;
      this.chat := chat;
      nick := "";
      connOpen := true;
    }

    /** conn.Write: the text is written on this client's connection. */
    method Write(text: string)
      modifies chat`deliveries
      ensures chat.deliveries == old(chat.deliveries) + [Delivery(this, text)]
    {
      chat.deliveries := chat.deliveries + [Delivery(this, text)];
    }

    /** Notify: the message is written on this client's connection; the
        sender's ID is not used. */
    method Notify(message: string, senderID: nat)
      modifies chat`deliveries
      ensures chat.deliveries == old(chat.deliveries) + [Delivery(this, message)]
    {
      Write(message);
    }

    /** conn.Close. */
    method Close()
      modifies this`connOpen
      ensures !connOpen
    {
      connOpen := false;
    }

    /** handleNickCommand: behaves as InterpretNick says. */
    method HandleNickCommand(parts: seq<string>)
      requires chat.Valid()
      modifies this`nick, chat`deliveries
      ensures var r := InterpretNick(old(nick), id, parts);
        nick == r.nick && chat.deliveries == old(chat.deliveries) + Render(r.effect, this, chat.observers)
    {
      if |parts| != 2 {
        Notify(UsageMsg, id);
        return;
      }
      var newNick := TrimSpace(parts[1]);
      if newNick == "" {
        Notify(EmptyNickMsg, id);
        return;
      }
      nick := newNick;
      var notifyMsg := "User " + Decimal(id) + " is now known as " + nick + "\n";
      chat.Broadcast(notifyMsg, id);
    }

    /** handleCommand: behaves as Interpret says. */
    method HandleCommand(msg: string)
      requires chat.Valid()
      modifies this`nick, chat`deliveries
      ensures var r := Interpret(old(nick), id, msg);
        nick == r.nick && chat.deliveries == old(chat.deliveries) + Render(r.effect, this, chat.observers)
    {
      var m := TrimSpace(msg);
      if m == "" {
        return;
      }
      if HasPrefix(m, "/") {
        var parts := SplitFirst(m, ' ');
        var command := ToLower(parts[0]);
        if command == NickCommand {
          HandleNickCommand(parts);
        } else {
          Notify(UnknownCmdMsg, id);
        }
      } else {
        var displayMsg := nick + "> " + m + "\n";
        if nick == "" {
          displayMsg := "user:" + Decimal(id) + "> " + m + "\n";
        }
        chat.Broadcast(displayMsg, id);
      }
    }

    /** The read loop of listen: each line, without its carriage returns, is
        handled in turn, as Session says. */
    method ReadLoop(lines: seq<string>)
      requires chat.Valid()
      modifies this`nick, chat`deliveries
      ensures var t := Session(old(nick), id, lines);
        nick == t.nick && chat.deliveries == old(chat.deliveries) + RenderAll(t.effects, this, chat.observers)
    {
      var i := 0;
      while i < |lines|
        invariant 0 <= i <= |lines|
        invariant chat.Valid()
        invariant var t := Session(old(nick), id, lines[..i]);
          nick == t.nick && chat.deliveries == old(chat.deliveries) + RenderAll(t.effects, this, chat.observers)
      {
        ghost var before := chat.deliveries;
        ghost var nick0 := nick;
        HandleCommand(RemoveCR(lines[i]));
        ReadStep(old(nick), id, lines, i, this, chat.observers, old(chat.deliveries), nick0, before, nick, chat.deliveries);
        i := i + 1;
      }
      assert lines[..i] == lines;
    }

    /** listen, for the lines the client sends before the connection ends:
        the welcome message, then the read loop, then the client leaves the
        list and its connection is closed. */
    method Listen(lines: seq<string>)
      requires chat.Valid()
      modifies this`nick, this`connOpen, chat`deliveries, chat`observers
      ensures var t := Session(old(nick), id, lines);
        nick == t.nick
        && chat.deliveries == old(chat.deliveries) + [Delivery(this, WelcomeMessage)]
                              + RenderAll(t.effects, this, old(chat.observers))
      ensures chat.observers == RemoveFirst(old(chat.observers), this)
      ensures this !in chat.observers
      ensures chat.Valid() && !connOpen
    {
      Write(WelcomeMessage);
      ReadLoop(lines);
      RemoveDistinct(chat.observers, this);
      chat.RemoveObserver(this);
      Close();
    }
  }

  /** The accept step: the new client gets the next ID and is registered; when
      that makes more than MaxClients, its connection is closed at once and its
      read loop is not started (started is false), but it stays registered. */
  method Accept(chat: ChatSystem) returns (client: Client, started: bool)
    requires chat.Valid()
    modifies chat`observers
    ensures fresh(client) && client.chat == chat && client.nick == ""
    ensures client.id == NextId(old(chat.observers))
    ensures chat.observers == old(chat.observers) + [client]
    ensures started <==> |chat.observers| <= MaxClients
    ensures client.connOpen == started
    ensures chat.Valid()
  {
    var clientID := chat.GenerateClientID();
    client := new Client(clientID, chat);
    chat.AddObserver(client);
    started := true;
    if |chat.observers| > MaxClients {
      client.Close();
      started := false;
    }
  }

  /** Client IDs are not unique: with clients 1 and 2 connected, client 1
      leaves, and the next client is given ID 2 while client 2 is still
      connected. */
  method ReusedIdScenario() returns (chat: ChatSystem, b: Client, c: Client)
    ensures b != c && b.id == c.id == 2
    ensures chat.observers == [b, c]
  {
    chat := new ChatSystem();
    var a, aStarted := Accept(chat);
    var bStarted;
    b, bStarted := Accept(chat);
    a.Listen([]);
    assert chat.observers == [b];
    var cStarted;
    c, cStarted := Accept(chat);
  }

  /** A rejected client holds its place in the list for good: after
      MaxClients clients, the next one is registered but closed; when the
      first client leaves, the rejected client is still registered, so the
      client after that is rejected too. */
  method OverCapacityScenario() returns (chat: ChatSystem, rejected: Client, later: Client)
    ensures rejected in chat.observers && !rejected.connOpen
    ensures later in chat.observers && !later.connOpen
    ensures |chat.observers| == MaxClients + 1
  {
    chat := new ChatSystem();
    var first, started := Accept(chat);
    var i := 1;
    while i < MaxClients
      invariant 1 <= i <= MaxClients
      invariant chat.Valid() && |chat.observers| == i && chat.observers[0] == first
    {
      var c, cStarted := Accept(chat);
      i := i + 1;
    }
    rejected, started := Accept(chat);
    assert !started;
    RemoveKeepsOthers(chat.observers, first, rejected);
    first.Listen([]);
    later, started := Accept(chat);
  }
}
