/** Handing roots over in buffers: each call takes back the buffer the client has filled, passes its
    contents on as work, and lends the client a new one, until the client releases the last. */
module RootBuffers {

  /** A vector's allocation, numbered in the order they are made since addresses may be reused. */
  datatype Buffer<T> = Buffer(serial: nat, contents: seq<T>, capacity: nat)

  /** The buffers lent to the client by address, the work created from those returned, and the
      serial numbers of the buffers reclaimed, in order. */
  datatype State<T> = State(lent: map<nat, Buffer<T>>, work: seq<seq<T>>, reclaimed: seq<nat>, made: nat)

  /** What the allocator returns for a new vector. */
  datatype Grant = Grant(address: nat, capacity: nat)

  /** Takes a buffer back and drops what it holds. */
  function Release<T>(s: State<T>, address: nat): State<T>
    requires address in s.lent
  {
    s.(lent := s.lent - {address}, reclaimed := s.reclaimed + [s.lent[address].serial])
  }

  /** Takes a buffer back and passes its items on as work. */
  function Reclaim<T>(s: State<T>, address: nat, length: nat): State<T>
    requires address in s.lent
    requires length <= |s.lent[address].contents|
  {
    Release(s, address).(work := s.work + [s.lent[address].contents[..length]])
  }

  function Lend<T>(s: State<T>, grant: Grant): State<T> {
    s.(lent := s.lent[grant.address := Buffer(s.made, [], grant.capacity)], made := s.made + 1)
  }

  /** What the client may pass back: nothing, or a buffer it holds with its own capacity. */
  predicate MayReturn<T>(s: State<T>, address: nat, length: nat, capacity: nat) {
    address != 0 ==>
      && address in s.lent
      && length <= |s.lent[address].contents|
      && capacity == s.lent[address].capacity
  }

  function Renewed<T>(s: State<T>, address: nat, length: nat): State<T>
    requires address != 0 ==> address in s.lent && length <= |s.lent[address].contents|
  {
    if address == 0 then s else Reclaim(s, address, length)
  }

  function Renew<T>(s: State<T>, address: nat, length: nat, grant: Grant): State<T>
    requires address != 0 ==> address in s.lent && length <= |s.lent[address].contents|
  {
    Lend(Renewed(s, address, length), grant)
  }

  function Fill<T>(s: State<T>, address: nat, items: seq<T>): State<T>
    requires address in s.lent
  {
    s.(lent := s.lent[address := s.lent[address].(contents := items)])
  }

  class RootReporter<T> {
    var lent: map<nat, Buffer<T>>
    var work: seq<seq<T>>
    var reclaimed: seq<nat>
    var made: nat

    ghost function Snapshot(): State<T>
      reads this
    {
      State(lent, work, reclaimed, made)
    }

    constructor ()
      ensures Snapshot() == State(map[], [], [], 0)
    {
      lent, work, reclaimed, made := map[], [], [], 0;
    }

    /** The callback given to the client; `grant` is the fresh allocation. */
    method ReportAndRenewBuffer(address: nat, length: nat, capacity: nat, grant: Grant)
      returns (newAddress: nat, newLength: nat, newCapacity: nat)
      requires MayReturn(Snapshot(), address, length, capacity)
      modifies this
      ensures Snapshot() == Renew(old(Snapshot()), address, length, grant)
      ensures newAddress == grant.address && newLength == 0 && newCapacity == grant.capacity
    {
      if address != 0 {
        var buf := lent[address];
        lent := lent - {address};
        reclaimed := reclaimed + [buf.serial];
        work := work + [buf.contents[..length]];
      }
      lent := lent[grant.address := Buffer(made, [], grant.capacity)];
      made := made + 1;
      newAddress, newLength, newCapacity := grant.address, 0, grant.capacity;
    }

    /** The client is done with a buffer. With a single worker the buffer is a global one and stays. */
    method ReleaseBuffer(address: nat, length: nat, capacity: nat, singleWorker: bool)
      requires address != 0 && MayReturn(Snapshot(), address, length, capacity)
      modifies this
      ensures Snapshot() == if singleWorker then old(Snapshot()) else Release(old(Snapshot()), address)
    {
      if !singleWorker {
        var buf := lent[address];
        lent := lent - {address};
        reclaimed := reclaimed + [buf.serial];
      }
    }
  }

  // ---------------------------------------------------------------- Any number of clients

  /** Buffer number `n` is lent at some address. */
  ghost predicate IsLent<T>(s: State<T>, n: nat) {
    exists a :: a in s.lent && s.lent[a].serial == n
  }

  /** Every buffer made is either lent at one address or has been reclaimed once, and what a lent
      buffer holds fits its capacity. */
  ghost predicate Accounted<T>(s: State<T>) {
    && (forall n: nat :: n < s.made ==> n in s.reclaimed || IsLent(s, n))
    && (forall i, j :: 0 <= i < j < |s.reclaimed| ==> s.reclaimed[i] != s.reclaimed[j])
    && (forall n :: n in s.reclaimed ==> n < s.made)
    && (forall a :: a in s.lent ==> s.lent[a].serial < s.made && s.lent[a].serial !in s.reclaimed)
    && (forall a, b :: a in s.lent && b in s.lent && a != b ==> s.lent[a].serial != s.lent[b].serial)
    && (forall a :: a in s.lent ==> |s.lent[a].contents| <= s.lent[a].capacity)
  }

  /** A returned buffer can be rebuilt from its raw parts: it holds at least the items passed on, and
      these fit the capacity passed with them. */
  lemma ReturnedBufferIsWhole<T>(s: State<T>, address: nat, length: nat, capacity: nat)
    requires Accounted(s)
    requires address != 0 && MayReturn(s, address, length, capacity)
    ensures length <= |s.lent[address].contents| <= capacity
  {
  }

  lemma ReleaseKeepsAccounts<T>(s: State<T>, address: nat)
    requires Accounted(s)
    requires address in s.lent
    ensures Accounted(Release(s, address))
  {
    var back := Release(s, address);
    forall n: nat | n < s.made
      ensures n in back.reclaimed || IsLent(back, n)
    {
      if n != s.lent[address].serial && n !in s.reclaimed {
        var a :| a in s.lent && s.lent[a].serial == n;
        assert a in back.lent && back.lent[a].serial == n;
      }
    }
  }

  lemma ReclaimKeepsAccounts<T>(s: State<T>, address: nat, length: nat)
    requires Accounted(s)
    requires address in s.lent && length <= |s.lent[address].contents|
    ensures Accounted(Reclaim(s, address, length))
  {
    ReleaseKeepsAccounts(s.(work := s.work + [s.lent[address].contents[..length]]), address);
  }

  lemma FreeAddressKeepsAccounts<T>(s: State<T>, grant: Grant)
    requires Accounted(s)
    requires grant.address !in s.lent
    ensures Accounted(Lend(s, grant))
  {
    var next := Lend(s, grant);
    forall n: nat | n < next.made
      ensures n in next.reclaimed || IsLent(next, n)
    {
      if n == s.made {
        assert next.lent[grant.address].serial == n;
      } else if n !in s.reclaimed {
        var a :| a in s.lent && s.lent[a].serial == n;
        assert a in next.lent && next.lent[a].serial == n;
      }
    }
  }

  lemma LentAddressLosesBuffer<T>(s: State<T>, grant: Grant)
    requires Accounted(s)
    requires grant.address in s.lent
    ensures !Accounted(Lend(s, grant))
  {
    var next, lost := Lend(s, grant), s.lent[grant.address].serial;
    assert lost < next.made && lost !in next.reclaimed && !IsLent(next, lost);
  }

  /** A new buffer keeps the accounts exactly when its address is not lent already. */
  lemma LendKeepsAccountsExactly<T>(s: State<T>, grant: Grant)
    requires Accounted(s)
    ensures Accounted(Lend(s, grant)) <==> grant.address !in s.lent
  {
    if grant.address in s.lent {
      LentAddressLosesBuffer(s, grant);
    } else {
      FreeAddressKeepsAccounts(s, grant);
    }
  }

  /** Filling a buffer keeps the accounts exactly when the items fit it. */
  lemma FillKeepsAccountsExactly<T>(s: State<T>, address: nat, items: seq<T>)
    requires Accounted(s)
    requires address in s.lent
    ensures Accounted(Fill(s, address, items)) <==> |items| <= s.lent[address].capacity
  {
    var next := Fill(s, address, items);
    assert next.lent[address].contents == items;
    forall n: nat | n < s.made
      ensures n in next.reclaimed || IsLent(next, n)
    {
      if n !in s.reclaimed {
        var a :| a in s.lent && s.lent[a].serial == n;
        assert a in next.lent && next.lent[a].serial == n;
      }
    }
  }

  /** Clients fill buffers, pass them back for new ones and release them, in any order; the allocator
      answers each call. */
  datatype Event<T> =
    | Filling(address: nat, items: seq<T>)
    | Renewal(returned: nat, length: nat, capacity: nat, grant: Grant)
    | Releasing(returned: nat, length: nat, capacity: nat)

  /** The event names a buffer that is lent. */
  predicate Possible<T>(s: State<T>, e: Event<T>) {
    match e
    case Filling(address, _) => address in s.lent
    case Renewal(address, length, capacity, _) => MayReturn(s, address, length, capacity)
    case Releasing(address, length, capacity) => address != 0 && MayReturn(s, address, length, capacity)
  }

  function Next<T>(s: State<T>, e: Event<T>): State<T>
    requires Possible(s, e)
  {
    match e
    case Filling(address, items) => Fill(s, address, items)
    case Renewal(address, length, _, grant) => Renew(s, address, length, grant)
    case Releasing(address, _, _) => Release(s, address)
  }

  /** Items fit the buffer, and a new buffer is at an address not lent at that moment. */
  predicate Careful<T>(s: State<T>, e: Event<T>)
    requires Possible(s, e)
  {
    match e
    case Filling(address, items) => |items| <= s.lent[address].capacity
    case Renewal(address, length, _, grant) => grant.address !in Renewed(s, address, length).lent
    case Releasing(_, _, _) => true
  }

  lemma EventKeepsAccountsExactly<T>(s: State<T>, e: Event<T>)
    requires Accounted(s) && Possible(s, e)
    ensures Accounted(Next(s, e)) <==> Careful(s, e)
  {
    match e
    case Filling(address, items) => FillKeepsAccountsExactly(s, address, items);
    case Renewal(address, length, _, grant) =>
      if address != 0 {
        ReclaimKeepsAccounts(s, address, length);
      }
      LendKeepsAccountsExactly(Renewed(s, address, length), grant);
    case Releasing(address, _, _) => ReleaseKeepsAccounts(s, address);
  }

  predicate PossibleRun<T>(s: State<T>, events: seq<Event<T>>)
    decreases |events|
  {
    events != [] ==> Possible(s, events[0]) && PossibleRun(Next(s, events[0]), events[1..])
  }

  predicate CarefulRun<T>(s: State<T>, events: seq<Event<T>>)
    requires PossibleRun(s, events)
    decreases |events|
  {
    events != [] ==> Careful(s, events[0]) && CarefulRun(Next(s, events[0]), events[1..])
  }

  ghost predicate AlwaysAccounted<T>(s: State<T>, events: seq<Event<T>>)
    requires PossibleRun(s, events)
    decreases |events|
  {
    Accounted(s) && (events != [] ==> AlwaysAccounted(Next(s, events[0]), events[1..]))
  }

  /** Whatever the clients do, no buffer is ever lost, reclaimed twice or overfilled exactly when
      items fit their buffers and new buffers are at free addresses. */
  lemma {:induction false} BuffersAreAccountedExactly<T>(s: State<T>, events: seq<Event<T>>)
    requires Accounted(s)
    requires PossibleRun(s, events)
    ensures AlwaysAccounted(s, events) <==> CarefulRun(s, events)
    decreases |events|
  {
    if events != [] {
      EventKeepsAccountsExactly(s, events[0]);
      if Careful(s, events[0]) {
        BuffersAreAccountedExactly(Next(s, events[0]), events[1..]);
      }
    }
  }

  function After<T>(s: State<T>, events: seq<Event<T>>): State<T>
    requires PossibleRun(s, events)
    decreases |events|
  {
    if events == [] then s else After(Next(s, events[0]), events[1..])
  }

  lemma {:induction false} LastEvent<T>(s: State<T>, events: seq<Event<T>>)
    requires events != []
    requires PossibleRun(s, events)
    ensures PossibleRun(s, events[..|events| - 1])
    ensures var before, last := After(s, events[..|events| - 1]), events[|events| - 1];
            Possible(before, last) && After(s, events) == Next(before, last)
    decreases |events|
  {
    var n := |events| - 1;
    if n > 0 {
      LastEvent(Next(s, events[0]), events[1..]);
      assert events[1..][..n - 1] == events[..n][1..];
    } else {
      assert events[1..] == [];
    }
  }

  /** What clients last wrote at an address, since a buffer was last lent there. */
  function Written<T>(events: seq<Event<T>>, address: nat): seq<T>
    decreases |events|
  {
    if events == [] then []
    else
      var n := |events| - 1;
      match events[n]
      case Filling(a, items) => if a == address then items else Written(events[..n], address)
      case Renewal(_, _, _, grant) => if grant.address == address then [] else Written(events[..n], address)
      case Releasing(_, _, _) => Written(events[..n], address)
  }

  /** The capacity of the last buffer lent at an address. */
  function Granted<T>(events: seq<Event<T>>, address: nat): nat
    decreases |events|
  {
    if events == [] then 0
    else
      var n := |events| - 1;
      if events[n].Renewal? && events[n].grant.address == address then events[n].grant.capacity
      else Granted(events[..n], address)
  }

  /** For each buffer passed back, in order, as many of the items written in it as the client says. */
  function Packets<T>(events: seq<Event<T>>): seq<seq<T>>
    decreases |events|
  {
    if events == [] then []
    else
      var n := |events| - 1;
      match events[n]
      case Renewal(address, length, _, _) =>
        var items := Written(events[..n], address);
        if address == 0 then Packets(events[..n])
        else Packets(events[..n]) + [if length <= |items| then items[..length] else items]
      case _ => Packets(events[..n])
  }

  /** Over every run of any number of clients from the start, the packets of work are exactly the
      leading items that clients wrote in the buffers they passed back, as many as they said and in the
      order of the calls; and every lent buffer holds what was last written in it and has the capacity
      it was granted with. Nothing written in a released buffer is passed on. */
  lemma {:induction false} WorkIsWhatWasReturned<T>(events: seq<Event<T>>)
    requires PossibleRun(State(map[], [], [], 0), events)
    ensures var end := After(State(map[], [], [], 0), events);
            && end.work == Packets(events)
            && forall a :: a in end.lent ==>
                 end.lent[a].contents == Written(events, a) && end.lent[a].capacity == Granted(events, a)
    decreases |events|
  {
    if events != [] {
      LastEvent(State(map[], [], [], 0), events);
      WorkIsWhatWasReturned(events[..|events| - 1]);
    }
  }

  // ---------------------------------------------------------------- Runs of one client

  /** The client writes items into its buffer and passes it back, receiving a new one. */
  datatype Turn<T> = Turn(items: seq<T>, grant: Grant)

  /** Items fit the buffer in hand, and each new buffer is at an address not lent at that moment. */
  predicate Polite<T>(s: State<T>, held: nat, turns: seq<Turn<T>>)
    requires held in s.lent && held != 0
    decreases |turns|
  {
    turns != [] ==>
      && |turns[0].items| <= s.lent[held].capacity
      && turns[0].grant.address != 0
      && turns[0].grant.address !in Renewed(Fill(s, held, turns[0].items), held, |turns[0].items|).lent
      && Polite(TakeTurn(s, held, turns[0]), turns[0].grant.address, turns[1..])
  }

  function TakeTurn<T>(s: State<T>, held: nat, turn: Turn<T>): State<T>
    requires held in s.lent && held != 0
  {
    Renew(Fill(s, held, turn.items), held, |turn.items|, turn.grant)
  }

  function Play<T>(s: State<T>, held: nat, turns: seq<Turn<T>>): State<T>
    requires held in s.lent && held != 0
    requires Polite(s, held, turns)
    decreases |turns|
  {
    if turns == [] then s else Play(TakeTurn(s, held, turns[0]), turns[0].grant.address, turns[1..])
  }

  function Filled<T>(turns: seq<Turn<T>>): seq<seq<T>> {
    if turns == [] then [] else [turns[0].items] + Filled(turns[1..])
  }

  function CountFrom(first: nat, n: nat): seq<nat> {
    seq(n, i requires 0 <= i => first + i)
  }

  /** The client holds one buffer, the one made last; all earlier ones have been reclaimed, once
      each and in order. */
  predicate OneLent<T>(s: State<T>, held: nat) {
    && s.lent.Keys == {held}
    && s.made > 0
    && s.reclaimed == CountFrom(0, s.made - 1)
    && s.lent[held].serial == s.made - 1
  }

  lemma TurnKeepsOneLent<T>(s: State<T>, held: nat, turn: Turn<T>)
    requires held != 0
    requires OneLent(s, held)
    ensures OneLent(TakeTurn(s, held, turn), turn.grant.address)
    ensures TakeTurn(s, held, turn).work == s.work + [turn.items]
    ensures TakeTurn(s, held, turn).made == s.made + 1
  {
    var filled := Fill(s, held, turn.items);
    var back := Reclaim(filled, held, |turn.items|);
    assert filled.lent.Keys == {held};
    assert back.lent.Keys == {};
    assert turn.items[..|turn.items|] == turn.items;
    assert CountFrom(0, s.made) == CountFrom(0, s.made - 1) + [s.made - 1];
  }

  /** The buffer in hand after some turns. */
  function HeldAfter<T>(held: nat, turns: seq<Turn<T>>): nat {
    if turns == [] then held else turns[|turns| - 1].grant.address
  }

  /** A polite turn is a careful filling and a careful renewal. */
  lemma TurnKeepsAccounts<T>(s: State<T>, held: nat, turn: Turn<T>)
    requires held in s.lent && held != 0
    requires Accounted(s)
    requires |turn.items| <= s.lent[held].capacity
    requires turn.grant.address !in Renewed(Fill(s, held, turn.items), held, |turn.items|).lent
    ensures Accounted(TakeTurn(s, held, turn))
  {
    var filled := Fill(s, held, turn.items);
    EventKeepsAccountsExactly(s, Filling(held, turn.items));
    EventKeepsAccountsExactly(filled, Renewal(held, |turn.items|, filled.lent[held].capacity, turn.grant));
  }

  lemma {:induction false} PlayKeepsAccounts<T>(s: State<T>, held: nat, turns: seq<Turn<T>>)
    requires held in s.lent && held != 0
    requires Accounted(s)
    requires Polite(s, held, turns)
    ensures Accounted(Play(s, held, turns))
    decreases |turns|
  {
    if turns != [] {
      TurnKeepsAccounts(s, held, turns[0]);
      PlayKeepsAccounts(TakeTurn(s, held, turns[0]), turns[0].grant.address, turns[1..]);
    }
  }

  lemma {:induction false} PlayDelivers<T>(s: State<T>, held: nat, turns: seq<Turn<T>>)
    requires held != 0
    requires OneLent(s, held)
    requires Polite(s, held, turns)
    ensures OneLent(Play(s, held, turns), HeldAfter(held, turns))
    ensures Play(s, held, turns).work == s.work + Filled(turns)
    ensures Play(s, held, turns).made == s.made + |turns|
    decreases |turns|
  {
    if turns != [] {
      var next, rest := TakeTurn(s, held, turns[0]), turns[1..];
      TurnKeepsOneLent(s, held, turns[0]);
      PlayDelivers(next, turns[0].grant.address, rest);
      assert Play(s, held, turns) == Play(next, turns[0].grant.address, rest);
      assert HeldAfter(held, turns) == HeldAfter(turns[0].grant.address, rest);
      Associative(s.work, [turns[0].items], Filled(rest));
    }
  }

  lemma Associative<T>(a: seq<T>, b: seq<T>, c: seq<T>)
    ensures (a + b) + c == a + (b + c)
  {
  }

  /** Releasing the last buffer leaves none lent and every buffer reclaimed, once each and in order. */
  lemma ReleaseEndsRun<T>(s: State<T>, held: nat)
    requires OneLent(s, held)
    ensures var done := Release(s, held);
            && done.lent == map[]
            && done.reclaimed == CountFrom(0, s.made)
  {
    assert Release(s, held).lent.Keys == {};
    assert CountFrom(0, s.made) == CountFrom(0, s.made - 1) + [s.made - 1];
  }

  function FirstLoan<T>(first: Grant): State<T> {
    Renew(State(map[], [], [], 0), 0, 0, first)
  }

  lemma FirstLoanIsAccounted<T>(first: Grant)
    ensures Accounted<T>(FirstLoan(first))
    ensures OneLent<T>(FirstLoan(first), first.address)
  {
    LendKeepsAccountsExactly<T>(State(map[], [], [], 0), first);
    assert FirstLoan<T>(first).lent.Keys == {first.address};
    assert CountFrom(0, 0) == [];
  }

  /** A whole run, from the first call, which returns nothing, to the release of the last buffer: the
      packets of work are exactly what was filled in, turn by turn; until the release only the buffer
      in hand is lent, and after it every buffer made has been reclaimed exactly once, in order, and
      none is lent. */
  lemma RunDeliversEverythingOnce<T>(first: Grant, turns: seq<Turn<T>>)
    requires first.address != 0
    requires Polite(FirstLoan(first), first.address, turns)
    ensures var end := Play(FirstLoan(first), first.address, turns);
            var held := HeldAfter(first.address, turns);
            && Accounted(end) && OneLent(end, held)
            && end.made == |turns| + 1
            && var done := Release(end, held);
            && Accounted(done)
            && done.work == Filled(turns)
            && done.lent == map[]
            && done.reclaimed == CountFrom(0, |turns| + 1)
            && done.made == |turns| + 1
  {
    FirstLoanIsAccounted<T>(first);
    RunEnds(FirstLoan(first), first.address, turns);
    assert [] + Filled(turns) == Filled(turns);
  }

  lemma RunEnds<T>(s: State<T>, held: nat, turns: seq<Turn<T>>)
    requires held != 0
    requires Accounted(s) && OneLent(s, held)
    requires Polite(s, held, turns)
    ensures var end, last := Play(s, held, turns), HeldAfter(held, turns);
            && Accounted(end) && OneLent(end, last)
            && end.made == s.made + |turns|
            && var done := Release(end, last);
            && Accounted(done)
            && done.work == s.work + Filled(turns)
            && done.lent == map[]
            && done.reclaimed == CountFrom(0, s.made + |turns|)
            && done.made == s.made + |turns|
  {
    PlayDelivers(s, held, turns);
    PlayKeepsAccounts(s, held, turns);
    ReleaseKeepsAccounts(Play(s, held, turns), HeldAfter(held, turns));
    ReleaseEndsRun(Play(s, held, turns), HeldAfter(held, turns));
  }
}
