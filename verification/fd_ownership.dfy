/**
 Descriptor ownership over whole programs: any script of connects, closes, moves and
 destructions over any number of clients.
 */
module FdOwnership {
  import opened Kernel
  import opened Client

  /**
   One operation on client variables; `answer`, `hostValid` and `reached` are the kernel's and the
   resolver's part.
   */
  datatype Op =
    | Construct(slot: nat)
    | Connect(slot: nat, answer: int, hostValid: bool, reached: bool)
    | Close(slot: nat)
    | MoveConstruct(slot: nat, from: nat)
    | MoveAssign(slot: nat, from: nat)
    | Destroy(slot: nat)

  // ---- what a script means, on values ----

  /** Which descriptor each client variable in scope holds, -1 for none. */
  type Slots = map<nat, int>

  predicate Applies(h: Slots, op: Op) {
    match op
    case Construct(s) => s !in h
    case MoveConstruct(s, from) => s !in h && from in h
    case MoveAssign(s, from) => s in h && from in h
    case _ => op.slot in h
  }

  /** The kernel's answer is a descriptor, and none that another client holds: `connect` has closed its own before. */
  predicate Granted(h: Slots, s: nat, answer: int) {
    answer >= 0 && forall t | t in h && t != s :: h[t] != answer
  }

  function Next(h: Slots, op: Op): Slots
    requires Applies(h, op)
  {
    match op
    case Construct(s) => h[s := -1]
    case Connect(s, answer, hostValid, _) => h[s := if Granted(h, s, answer) && hostValid then answer else -1]
    case Close(s) => h[s := -1]
    case MoveConstruct(s, from) => h[from := -1][s := h[from]]
    case MoveAssign(s, from) => if s == from then h else h[from := -1][s := h[from]]
    case Destroy(s) => h - {s}
  }

  /** Operations on variables that are not in scope are not programs and are skipped. */
  function After(h: Slots, script: seq<Op>): Slots {
    if script == [] then h
    else
      var before, last := After(h, script[..|script| - 1]), script[|script| - 1];
      if Applies(before, last) then Next(before, last) else before
  }

  /** No descriptor has two holders. */
  predicate Exclusive(h: Slots) {
    && (forall s | s in h :: h[s] >= -1)
    && forall s, t | s in h && t in h && s != t && h[s] == h[t] :: h[s] == -1
  }

  lemma {:induction false} AfterPrefix(h: Slots, script: seq<Op>, i: nat)
    requires i < |script|
    ensures var before := After(h, script[..i]);
            After(h, script[..i + 1]) == if Applies(before, script[i]) then Next(before, script[i]) else before
  {
    assert script[..i + 1][..i] == script[..i];
  }

  lemma {:induction false} AfterAll(script: seq<Op>)
    ensures script[..|script|] == script
  {
  }

  class Program {
    const table: Descriptors
    var clients: map<nat, RedisClient>

    /**
     The open descriptors are exactly those held, each by one client, and nothing was ever
     closed that was not open. With `Descriptors.Valid`, every opening has then been closed
     exactly once if no client holds it any more, and not at all otherwise.
     */
    ghost predicate Owns()
      reads this, table, clients.Values
    {
      && table.Valid() && table.strays == 0
      && (forall s | s in clients :: clients[s].Holds(table))
      && (forall s, t | s in clients && t in clients && s != t ::
            clients[s] != clients[t] && (clients[s].fd == clients[t].fd ==> clients[s].fd == -1))
      && (forall f | f in table.open :: Held(f))
    }

    /** The clients in scope are those of the value model, and hold what it says. */
    ghost predicate Matches(h: Slots)
      reads this, clients.Values
    {
      clients.Keys == h.Keys && forall s | s in clients :: clients[s].fd == h[s]
    }

    /** The descriptors that are open are those the value model says are held. */
    ghost predicate OpenAsHeld(h: Slots)
      reads this, table
    {
      forall f :: f in table.open <==> f >= 0 && f in h.Values
    }

    lemma {:induction false} OwnsOpen(h: Slots)
      requires Owns() && Matches(h)
      ensures OpenAsHeld(h)
    {
      forall f | f in table.open
        ensures f >= 0 && f in h.Values
      {
        assert Held(f);
        var s :| s in clients && clients[s].fd == f;
        assert h[s] == f;
      }
      forall f | f >= 0 && f in h.Values
        ensures f in table.open
      {
        var s :| s in h && h[s] == f;
        assert clients[s].Holds(table);
      }
    }

    ghost predicate Held(f: int)
      reads this, clients.Values
    {
      exists s :: s in clients && clients[s].fd == f
    }

    constructor ()
      ensures Owns() && clients == map[] && fresh(table)
    {
      table := new Descriptors();
      clients := map[];
    }

    /** The value model and the kernel agree on whether an answer is possible. */
    lemma {:induction false} GrantedIffFree(h: Slots, s: nat, answer: int)
      requires Owns() && Matches(h) && s in h
      ensures Granted(h, s, answer) <==> answer >= 0 && answer !in table.open - {clients[s].fd}
    {
      if answer >= 0 && answer in table.open - {clients[s].fd} {
        assert Held(answer);
        var t :| t in clients && clients[t].fd == answer;
        assert h[t] == answer;
      }
      if answer >= 0 && !Granted(h, s, answer) {
        var t :| t in h && t != s && h[t] == answer;
        assert clients[t].Holds(table);
      }
    }

    method DoConstruct(s: nat)
      requires Owns() && s !in clients
      modifies this
      ensures Owns() && fresh(clients.Values - old(clients.Values)) && clients.Keys == old(clients.Keys) + {s}
      ensures clients[s].fd == -1 && forall t | t in old(clients) :: clients[t] == old(clients)[t]
    {
      var c := new RedisClient();
      ghost var before := clients;
      clients := clients[s := c];
      assert forall t | t in before :: clients[t] == before[t];
    }

    method DoConnect(s: nat, answer: int, hostValid: bool, reached: bool)
      requires Owns() && s in clients
      modifies table, clients[s]
      ensures Owns() && clients == old(clients)
      ensures var others := old(table.open) - {old(clients[s].fd)};
              clients[s].fd == if answer < 0 || answer in others || !hostValid then -1 else answer
      ensures forall t | t in clients && t != s :: clients[t].fd == old(clients[t].fd)
    {
      var c := clients[s];
      label before:
      var _ := c.Connect(table, answer, hostValid, reached);
      forall f | f in table.open
        ensures Held(f)
      {
        if f == c.fd {
          assert clients[s].fd == f;
        } else {
          var t :| t in clients && old@before(clients[t].fd) == f;
          assert t != s && clients[t].fd == f;
        }
      }
    }

    method DoMoveConstruct(s: nat, from: nat)
      requires Owns() && s !in clients && from in clients
      modifies this, clients.Values
      ensures Owns() && fresh(clients.Values - old(clients.Values)) && clients.Keys == old(clients.Keys) + {s}
      ensures clients[s].fd == old(clients[from].fd) && clients[from].fd == -1
      ensures forall t | t in old(clients) :: clients[t] == old(clients)[t]
      ensures forall t | t in old(clients) && t != from :: clients[t].fd == old(clients[t].fd)
    {
      var c := new RedisClient.MoveFrom(clients[from]);
      ghost var before := clients;
      clients := clients[s := c];
      assert forall t | t in before :: clients[t] == before[t];
      assert clients[s] == c;
    }

    method DoMoveAssign(s: nat, from: nat)
      requires Owns() && s in clients && from in clients
      modifies table, clients[s], clients[from]
      ensures Owns() && clients == old(clients)
      ensures clients[s].fd == old(clients[from].fd) && (s != from ==> clients[from].fd == -1)
      ensures forall t | t in clients && t != s && t != from :: clients[t].fd == old(clients[t].fd)
    {
      label before:
      clients[s].MoveAssign(table, clients[from]);
      assert forall t | t in clients && t != s && t != from :: clients[t].fd == old@before(clients[t].fd);
      if s == from {
        forall f | f in table.open
          ensures Held(f)
        {
          var t :| t in clients && old@before(clients[t].fd) == f;
          assert clients[t].fd == f;
        }
        return;
      }
      forall f | f in table.open
        ensures Held(f)
      {
        var t :| t in clients && old@before(clients[t].fd) == f;
        assert clients[if t == from then s else t].fd == f;
      }
    }

    method DoClose(s: nat)
      requires Owns() && s in clients
      modifies table, clients[s]
      ensures Owns() && clients == old(clients) && clients[s].fd == -1
      ensures forall t | t in clients && t != s :: clients[t].fd == old(clients[t].fd)
    {
      label before:
      clients[s].Close(table);
      forall f | f in table.open
        ensures Held(f)
      {
        var t :| t in clients && old@before(clients[t].fd) == f;
        assert clients[t].fd == f;
      }
    }

    method DoDestroy(s: nat)
      requires Owns() && s in clients
      modifies this, table, clients[s]
      ensures Owns() && clients == old(clients) - {s}
      ensures forall t | t in clients :: clients[t].fd == old(clients[t].fd)
    {
      DoClose(s);
      ghost var before := clients;
      clients := clients - {s};
      forall f | f in table.open
        ensures Held(f)
      {
        var t :| t in before && before[t].fd == f;
        assert t in clients;
      }
    }

    method ConstructAsMeant(s: nat, ghost h: Slots)
      requires Owns() && Matches(h) && Applies(h, Construct(s))
      modifies this
      ensures Owns() && fresh(clients.Values - old(clients.Values)) && Matches(Next(h, Construct(s)))
    {
      DoConstruct(s);
    }

    method ConnectAsMeant(s: nat, answer: int, hostValid: bool, reached: bool, ghost h: Slots)
      requires Owns() && Matches(h) && Applies(h, Connect(s, answer, hostValid, reached))
      modifies table, clients[s]
      ensures Owns() && clients == old(clients) && Matches(Next(h, Connect(s, answer, hostValid, reached)))
    {
      GrantedIffFree(h, s, answer);
      DoConnect(s, answer, hostValid, reached);
    }

    method MoveConstructAsMeant(s: nat, from: nat, ghost h: Slots)
      requires Owns() && Matches(h) && Applies(h, MoveConstruct(s, from))
      modifies this, clients.Values
      ensures Owns() && fresh(clients.Values - old(clients.Values)) && Matches(Next(h, MoveConstruct(s, from)))
    {
      ghost var next := Next(h, MoveConstruct(s, from));
      assert next.Keys == h.Keys + {s} && next[s] == h[from] && next[from] == -1;
      assert forall t | t in h && t != from :: next[t] == h[t];
      DoMoveConstruct(s, from);
    }

    method MoveAssignAsMeant(s: nat, from: nat, ghost h: Slots)
      requires Owns() && Matches(h) && Applies(h, MoveAssign(s, from))
      modifies table, clients[s], clients[from]
      ensures Owns() && clients == old(clients) && Matches(Next(h, MoveAssign(s, from)))
    {
      DoMoveAssign(s, from);
    }

    method DestroyAsMeant(s: nat, ghost h: Slots)
      requires Owns() && Matches(h) && Applies(h, Destroy(s))
      modifies this, table, clients[s]
      ensures Owns() && clients == old(clients) - {s} && Matches(Next(h, Destroy(s)))
    {
      DoDestroy(s);
    }

    method CloseAsMeant(s: nat, ghost h: Slots)
      requires Owns() && Matches(h) && Applies(h, Op.Close(s))
      modifies table, clients[s]
      ensures Owns() && clients == old(clients) && Matches(Next(h, Op.Close(s)))
    {
      DoClose(s);
    }

    /** Every operation does to the clients what it means on values, and open is what is held. */
    method Apply(op: Op, ghost h: Slots)
      requires Owns() && Matches(h) && Applies(h, op)
      modifies this, table, clients.Values
      ensures Owns() && fresh(clients.Values - old(clients.Values))
      ensures Matches(Next(h, op)) && OpenAsHeld(Next(h, op))
    {
      match op {
        case Construct(s) =>
          ConstructAsMeant(s, h);
        case Connect(s, answer, hostValid, reached) =>
          ConnectAsMeant(s, answer, hostValid, reached, h);
        case Close(s) =>
          CloseAsMeant(s, h);
        case MoveConstruct(s, from) =>
          MoveConstructAsMeant(s, from, h);
        case MoveAssign(s, from) =>
          MoveAssignAsMeant(s, from, h);
        case Destroy(s) =>
          DestroyAsMeant(s, h);
      }
      OwnsOpen(Next(h, op));
    }

    /** The variables an operation needs are in scope. */
    predicate Applicable(op: Op)
      reads this
    {
      match op
      case Construct(s) => s !in clients
      case MoveConstruct(s, from) => s !in clients && from in clients
      case MoveAssign(s, from) => s in clients && from in clients
      case _ => op.slot in clients
    }

    /** Any script, from any state. */
    method Run(script: seq<Op>, ghost h: Slots)
      requires Owns() && Matches(h)
      modifies this, table, clients.Values
      ensures Owns() && fresh(clients.Values - old(clients.Values))
      ensures Matches(After(h, script)) && OpenAsHeld(After(h, script))
    {
      for i := 0 to |script|
        invariant Owns() && fresh(clients.Values - old(clients.Values))
        invariant Matches(After(h, script[..i]))
      {
        ghost var now := After(h, script[..i]);
        AfterPrefix(h, script, i);
        if Applicable(script[i]) {
          Apply(script[i], now);
        }
      }
      AfterAll(script);
      OwnsOpen(After(h, script));
    }

    /** When the last client is gone, nothing is open and every opening has been closed exactly once. */
    method DestroyAll()
      requires Owns()
      modifies this, table, clients.Values
      ensures table.open == map[] && table.strays == 0
      ensures forall k | 0 <= k < |table.closes| :: table.closes[k] == 1
    {
      while clients.Keys != {}
        invariant Owns() && fresh(clients.Values - old(clients.Values))
        decreases clients.Keys
      {
        var s :| s in clients.Keys;
        DoDestroy(s);
      }
      assert forall f :: f !in table.open;
    }
  }

  // ---- what the value model says ----

  /** A client that connects to a valid host holds what the kernel answered, and a move hands it over. */
  lemma {:induction false} ConnectThenMove(answer: int, reached: bool)
    requires answer >= 0
    ensures After(map[], [Construct(0), Connect(0, answer, true, reached)]) == map[0 := answer]
    ensures After(map[], [Construct(0), Connect(0, answer, true, reached)] + [MoveConstruct(1, 0)])
            == map[0 := -1, 1 := answer]
  {
    var script := [Construct(0), Connect(0, answer, true, reached), MoveConstruct(1, 0)];
    AfterPrefix(map[], script, 0);
    AfterPrefix(map[], script, 1);
    AfterPrefix(map[], script, 2);
    assert script[..0] == [] && script[..2] == [Construct(0), Connect(0, answer, true, reached)];
    assert script[..3] == script[..2] + [MoveConstruct(1, 0)];
  }

  /** No script makes two clients hold one descriptor. */
  lemma {:induction false} HeldOnce(script: seq<Op>)
    ensures Exclusive(After(map[], script))
  {
    if script != [] {
      HeldOnce(script[..|script| - 1]);
    }
  }
}
