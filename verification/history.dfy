/**
 * A run of registrations from the empty registry, one after another: which
 * IDs the devices receive and which offsets are kept.
 */
module RegistrationHistory {
  import opened Clock
  import opened Registration

  /** The registry and the IDs answered after the registrations regs, in order. */
  function RegisterAll(regs: seq<RegRequest>): (r: (Devices, seq<nat>))
    ensures |r.1| == |regs|
    decreases |regs|
  {
    if regs == [] then (NoDevices, [])
    else
      var (d, ids) := RegisterAll(regs[..|regs| - 1]);
      var (d', id) := Registered(d, regs[|regs| - 1]);
      (d', ids + [id])
  }

  /** The distinct addresses of regs, in the order of their first registration. */
  function FirstSeen(regs: seq<RegRequest>): seq<string>
    decreases |regs|
  {
    if regs == [] then []
    else
      var seen := FirstSeen(regs[..|regs| - 1]);
      var ip := regs[|regs| - 1].ip;
      if ip in seen then seen else seen + [ip]
  }

  /** regs[i] is the first registration of its address. */
  predicate IsFirst(regs: seq<RegRequest>, i: int)
    requires 0 <= i < |regs|
  {
    forall j :: 0 <= j < i ==> regs[j].ip != regs[i].ip
  }

  lemma {:induction false} FirstSeenMembers(regs: seq<RegRequest>, ip: string)
    ensures ip in FirstSeen(regs) <==> exists j :: 0 <= j < |regs| && regs[j].ip == ip
    decreases |regs|
  {
    if regs != [] {
      var p := regs[..|regs| - 1];
      FirstSeenMembers(p, ip);
      if exists j :: 0 <= j < |p| && p[j].ip == ip {
        var j :| 0 <= j < |p| && p[j].ip == ip;
        assert regs[j].ip == ip;
      }
      if exists j :: 0 <= j < |regs| && regs[j].ip == ip {
        var j :| 0 <= j < |regs| && regs[j].ip == ip;
        if j < |p| {
          assert p[j].ip == ip;
        }
      }
    }
  }

  /** The registry after the run regs is well formed and holds exactly its distinct addresses. */
  predicate HoldsFirstSeen(regs: seq<RegRequest>) {
    var d := RegisterAll(regs).0;
    WellFormed(d) && d.bot == FirstSeen(regs)
  }

  /** regs[i] was answered the ID under which its address is stored after the run. */
  predicate AnsweredAt(regs: seq<RegRequest>, i: int)
    requires 0 <= i < |regs|
  {
    var (d, ids) := RegisterAll(regs);
    ids[i] < |d.bot| && d.bot[ids[i]] == regs[i].ip
  }

  /** One more registration extends the distinct addresses as it extends bot. */
  lemma HoldsFirstSeenStep(regs: seq<RegRequest>)
    requires regs != []
    requires HoldsFirstSeen(regs[..|regs| - 1])
    ensures HoldsFirstSeen(regs)
  {
    var p := regs[..|regs| - 1];
    RegisterPreservesWellFormed(RegisterAll(p).0, regs[|regs| - 1]);
  }

  /** One more registration keeps every earlier answer pointing at its address. */
  lemma AnsweredAtEarlier(regs: seq<RegRequest>, i: int)
    requires 0 <= i < |regs| - 1
    requires AnsweredAt(regs[..|regs| - 1], i)
    ensures AnsweredAt(regs, i)
  {
    var p := regs[..|regs| - 1];
    RegisterNewOrKnown(RegisterAll(p).0, regs[|regs| - 1]);
    assert p[i] == regs[i];
  }

  /**
   * The registry after a run holds exactly the distinct addresses, in order of
   * first registration, with one offset each; every registration was answered
   * the ID under which its address is stored.
   */
  lemma {:induction false} RunRegistry(regs: seq<RegRequest>)
    ensures HoldsFirstSeen(regs)
    ensures forall i :: 0 <= i < |regs| ==> AnsweredAt(regs, i)
    decreases |regs|
  {
    if regs != [] {
      var n := |regs| - 1;
      RunRegistry(regs[..n]);
      HoldsFirstSeenStep(regs);
      forall i | 0 <= i < |regs|
        ensures AnsweredAt(regs, i)
      {
        if i < n {
          AnsweredAtEarlier(regs, i);
        }
      }
    }
  }

  /**
   * If regs[i] is the first registration of its address, it was answered the
   * number of distinct addresses registered before it, and the registry keeps
   * the offset computed from it under that ID.
   */
  predicate FirstKeptAt(regs: seq<RegRequest>, i: int)
    requires 0 <= i < |regs|
  {
    var (d, ids) := RegisterAll(regs);
    IsFirst(regs, i) ==>
      ids[i] == |FirstSeen(regs[..i])|
      && ids[i] < |d.clocks|
      && d.clocks[ids[i]] == ClockOffset(regs[i].arrival, regs[i].clock)
  }

  /** One more registration keeps what FirstKeptAt says of every earlier one. */
  lemma FirstKeptAtEarlier(regs: seq<RegRequest>, i: int)
    requires 0 <= i < |regs| - 1
    requires FirstKeptAt(regs[..|regs| - 1], i)
    ensures FirstKeptAt(regs, i)
  {
    var n := |regs| - 1;
    var p := regs[..n];
    var (d, ids) := RegisterAll(p);
    var d' := Registered(d, regs[n]).0;
    RegisterNewOrKnown(d, regs[n]);
    assert p[..i] == regs[..i];
    assert p[i] == regs[i];
    if IsFirst(regs, i) {
      assert IsFirst(p, i);
      assert d'.clocks[ids[i]] == d.clocks[ids[i]];
    }
  }

  /** FirstKeptAt holds of the last registration of a run. */
  lemma FirstKeptAtLast(regs: seq<RegRequest>)
    requires regs != []
    ensures FirstKeptAt(regs, |regs| - 1)
  {
    var n := |regs| - 1;
    var p := regs[..n];
    var last := regs[n];
    if IsFirst(regs, n) {
      RunRegistry(p);
      var d := RegisterAll(p).0;
      assert HoldsFirstSeen(p);
      FirstSeenMembers(p, last.ip);
      assert last.ip !in d.bot;
      RegisterNew(d, last);
    }
  }

  /**
   * The first registration of an address gets as ID the number of distinct
   * addresses registered before it, so the k-th distinct address gets ID k-1,
   * and the offset kept for that ID is the one computed from that first
   * registration's arrival time and clock.
   */
  lemma {:induction false} RunFirstRegistrations(regs: seq<RegRequest>)
    ensures forall i :: 0 <= i < |regs| ==> FirstKeptAt(regs, i)
    decreases |regs|
  {
    if regs != [] {
      var n := |regs| - 1;
      RunFirstRegistrations(regs[..n]);
      forall i | 0 <= i < |regs|
        ensures FirstKeptAt(regs, i)
      {
        if i < n {
          FirstKeptAtEarlier(regs, i);
        } else {
          FirstKeptAtLast(regs);
        }
      }
    }
  }

  /** Registrations of the same address are answered the same ID. */
  lemma SameAddressSameId(regs: seq<RegRequest>, i: int, j: int)
    requires 0 <= i < |regs| && 0 <= j < |regs|
    requires regs[i].ip == regs[j].ip
    ensures RegisterAll(regs).1[i] == RegisterAll(regs).1[j]
  {
    RunRegistry(regs);
    var (d, ids) := RegisterAll(regs);
    assert AnsweredAt(regs, i) && AnsweredAt(regs, j);
    assert HoldsFirstSeen(regs);
    assert d.bot[ids[i]] == d.bot[ids[j]];
  }

  /** Registrations of different addresses are answered different IDs. */
  lemma DifferentAddressDifferentId(regs: seq<RegRequest>, i: int, j: int)
    requires 0 <= i < |regs| && 0 <= j < |regs|
    requires regs[i].ip != regs[j].ip
    ensures RegisterAll(regs).1[i] != RegisterAll(regs).1[j]
  {
    RunRegistry(regs);
    assert AnsweredAt(regs, i) && AnsweredAt(regs, j);
  }

  /** No ID is skipped: every ID below the registry's size was answered to some registration. */
  lemma {:induction false} NoIdSkipped(regs: seq<RegRequest>, k: int)
    requires 0 <= k < |RegisterAll(regs).0.bot|
    ensures exists i :: 0 <= i < |regs| && RegisterAll(regs).1[i] == k
  {
    RunRegistry(regs);
    var (d, ids) := RegisterAll(regs);
    assert HoldsFirstSeen(regs);
    FirstSeenMembers(regs, d.bot[k]);
    var i :| 0 <= i < |regs| && regs[i].ip == d.bot[k];
    assert AnsweredAt(regs, i);
    assert d.bot[ids[i]] == d.bot[k];
  }
}
