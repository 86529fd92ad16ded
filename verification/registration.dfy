/**
 * The device identity registry: the state `bot` (ID -> self-reported address)
 * and `clocks` (ID -> clock offset), and the `/reg` handler that looks an
 * address up and, if it is new, appends it under the next ID.
 */
module Registration {
  import opened Wrappers
  import opened Clock
  import Decimal

  /** A decoded `/reg` request with the coordinator's arrival time. */
  datatype RegRequest = RegRequest(ip: string, clock: int64, arrival: int64)

  /** The registry as a value: bot[id] is a device's address, clocks[id] its offset. */
  datatype Devices = Devices(bot: seq<string>, clocks: seq<int64>)

  const NoDevices: Devices := Devices([], [])

  predicate Distinct(s: seq<string>) {
    forall i, j :: 0 <= i < j < |s| ==> s[i] != s[j]
  }

  /** One offset per device, and no address under two IDs. */
  predicate WellFormed(d: Devices) {
    |d.bot| == |d.clocks| && Distinct(d.bot)
  }

  /**
   * The scan for an address already registered. Every ID is visited and the
   * last match is kept, so among equal addresses the highest ID wins.
   */
  function Lookup(bot: seq<string>, ip: string): (r: Option<nat>)
    ensures r.None? <==> ip !in bot
    ensures r.Some? ==> r.value < |bot| && bot[r.value] == ip
    ensures r.Some? ==> forall j :: r.value < j < |bot| ==> bot[j] != ip
    decreases |bot|
  {
    if bot == [] then None
    else if bot[|bot| - 1] == ip then Some(|bot| - 1)
    else Lookup(bot[..|bot| - 1], ip)
  }

  /** In a registry without duplicates the ID found is the only one holding ip. */
  lemma LookupUnique(bot: seq<string>, ip: string, id: nat)
    requires Distinct(bot)
    requires id < |bot| && bot[id] == ip
    ensures Lookup(bot, ip) == Some(id)
  {
  }

  /**
   * One registration: the registry afterwards and the ID answered. A known
   * address gets its ID back and nothing changes; a new one is appended under
   * ID len(bot) with the offset arrival - clock.
   */
  function Registered(d: Devices, req: RegRequest): (r: (Devices, nat))
    ensures r.1 < |r.0.bot| && r.0.bot[r.1] == req.ip
    ensures |r.0.bot| - |d.bot| == |r.0.clocks| - |d.clocks| <= 1
  {
    match Lookup(d.bot, req.ip)
    case Some(id) => (d, id)
    case None => (Devices(d.bot + [req.ip], d.clocks + [ClockOffset(req.arrival, req.clock)]), |d.bot|)
  }

  /** Re-registering a known address answers its ID and changes nothing. */
  lemma RegisterKnown(d: Devices, req: RegRequest)
    requires WellFormed(d)
    requires req.ip in d.bot
    ensures Registered(d, req).0 == d
    ensures forall id :: 0 <= id < |d.bot| && d.bot[id] == req.ip ==> Registered(d, req).1 == id
  {
  }

  /**
   * Registering a new address answers the number of devices before it, only
   * appends, and stores arrival - clock as that device's offset.
   */
  lemma RegisterNew(d: Devices, req: RegRequest)
    requires req.ip !in d.bot
    ensures var (d', id) := Registered(d, req);
      id == |d.bot| && |d'.bot| == |d.bot| + 1 && |d'.clocks| == |d.clocks| + 1
      && d'.bot[..|d.bot|] == d.bot && d'.clocks[..|d.clocks|] == d.clocks
      && d'.bot[id] == req.ip && d'.clocks[|d.clocks|] == ClockOffset(req.arrival, req.clock)
  {
    var d' := Registered(d, req).0;
    assert d'.bot[..|d.bot|] == d.bot;
    assert d'.clocks[..|d.clocks|] == d.clocks;
  }

  /** A registration leaves every earlier entry of bot and clocks in place. */
  lemma RegisterNewOrKnown(d: Devices, req: RegRequest)
    ensures var d' := Registered(d, req).0;
      |d.bot| <= |d'.bot| && |d.clocks| <= |d'.clocks|
      && d'.bot[..|d.bot|] == d.bot && d'.clocks[..|d.clocks|] == d.clocks
  {
    if req.ip !in d.bot {
      RegisterNew(d, req);
    }
  }

  /** Registration keeps addresses unique and bot and clocks of equal length. */
  lemma RegisterPreservesWellFormed(d: Devices, req: RegRequest)
    requires WellFormed(d)
    ensures WellFormed(Registered(d, req).0)
  {
    if req.ip !in d.bot {
      var b := Registered(d, req).0.bot;
      assert b == d.bot + [req.ip];
      forall i, j | 0 <= i < j < |b| ensures b[i] != b[j] {
        if j == |d.bot| {
          assert b[i] == d.bot[i];
        }
      }
    }
  }

  /**
   * Registering the same address twice answers the same ID both times and the
   * second call changes nothing, whatever clock and arrival time it carries.
   */
  lemma RegisterIdempotent(d: Devices, first: RegRequest, again: RegRequest)
    requires WellFormed(d)
    requires again.ip == first.ip
    ensures var (d1, id1) := Registered(d, first);
      Registered(d1, again) == (d1, id1)
  {
    var (d1, id1) := Registered(d, first);
    RegisterPreservesWellFormed(d, first);
    LookupUnique(d1.bot, first.ip, id1);
  }

  /** Address resolution: the address stored under id, or None for an unknown ID. */
  function Resolve(bot: seq<string>, id: int): (r: Option<string>)
    ensures r.Some? <==> 0 <= id < |bot|
    ensures r.Some? ==> r.value == bot[id]
  {
    if 0 <= id < |bot| then Some(bot[id]) else None
  }

  /**
   * After a registration its ID resolves to the registered address, every ID
   * known before resolves as it did, and no ID beyond the registry resolves.
   */
  lemma RegisteredResolves(d: Devices, req: RegRequest)
    ensures var (d', id) := Registered(d, req);
      Resolve(d'.bot, id) == Some(req.ip)
      && (forall k :: 0 <= k < |d.bot| ==> Resolve(d'.bot, k) == Resolve(d.bot, k))
      && (forall k :: k < 0 || k >= |d'.bot| ==> Resolve(d'.bot, k) == None)
  {
  }

  /** The coordinator's registry, updated in place by the `/reg` handler. */
  class Registry {
    var bot: seq<string>
    var clocks: seq<int64>

    ghost function State(): Devices
      reads this
    {
      Devices(bot, clocks)
    }

    ghost predicate Valid()
      reads this
    {
      WellFormed(State())
    }

    /** The empty registry made at start-up. */
    constructor ()
      ensures Valid() && State() == NoDevices
    {
      bot := [];
      clocks := [];
    }

    /**
     * The scan over all IDs for an equal address, starting from -1 for "not
     * found" and keeping the last match.
     */
    method Find(ip: string) returns (id: int)
      ensures id == -1 <==> ip !in bot
      ensures id != -1 ==> 0 <= id < |bot| && bot[id] == ip
      ensures id != -1 ==> forall j :: id < j < |bot| ==> bot[j] != ip
    {
      id := -1;
      for i := 0 to |bot|
        invariant id == -1 <==> ip !in bot[..i]
        invariant id != -1 ==> 0 <= id < i && bot[id] == ip
        invariant id != -1 ==> forall j :: id < j < i ==> bot[j] != ip
      {
        assert bot[..i + 1] == bot[..i] + [bot[i]];
        if bot[i] == ip {
          id := i;
        }
      }
      assert bot[..|bot|] == bot;
    }

    /** The `/reg` handler's registry update, answering the device's ID. */
    method Register(ip: string, clock: int64, arrival: int64) returns (id: nat)
      requires Valid()
      modifies this
      ensures Valid()
      ensures (State(), id) == Registered(old(State()), RegRequest(ip, clock, arrival))
    {
      ghost var before := State();
      var found := Find(ip);
      if found == -1 {
        id := |bot|;
        bot := bot + [ip];
        clocks := clocks + [ClockOffset(arrival, clock)];
      } else {
        id := found;
      }
      RegisterPreservesWellFormed(before, RegRequest(ip, clock, arrival));
    }

    /** The whole `/reg` exchange: register, then answer the ID in decimal. */
    method HandleRegistration(ip: string, clock: int64, arrival: int64) returns (reply: string)
      requires Valid()
      modifies this
      ensures Valid()
      ensures var (d, id) := Registered(old(State()), RegRequest(ip, clock, arrival));
        State() == d && reply == Decimal.Itoa(id)
    {
      var id := Register(ip, clock, arrival);
      reply := Decimal.Itoa(id);
    }
  }

  /**
   * A device at 10.0.0.5 registers with clock 1000 when the coordinator reads
   * 1050, then again with clock 2000: both times it is answered ID 0, and the
   * offset kept is 50 from the first registration.
   */
  method ReRegistrationKeepsFirstOffset() returns (first: nat, second: nat, offsets: seq<int64>)
    ensures first == 0 && second == 0
    ensures offsets == [50]
  {
    var r := new Registry();
    first := r.Register("10.0.0.5", 1000, 1050);
    second := r.Register("10.0.0.5", 2000, 2050);
    offsets := r.clocks;
  }
}
