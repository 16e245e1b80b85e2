/**
 * The multicast membership manager of the network module (built with
 * UDP_MULTICAST_DISCOVERY): net_ipv4_multicast_join and net_ipv4_multicast_leave over
 * one interface's table of IPv4 multicast addresses, each entry used or not and joined
 * or not. A successful join or leave notifies NET_EVENT_IPV4_MCAST_JOIN or
 * NET_EVENT_IPV4_MCAST_LEAVE; those notifications are kept as a log.
 */
module Multicast {
  import opened StatusReducer

  datatype Ipv4Addr = Ipv4Addr(a: bv8, b: bv8, c: bv8, d: bv8)

  /** The sample's group address 239.255.255.250 (mcast_addr). */
  const SAMPLE_GROUP: Ipv4Addr := Ipv4Addr(239, 255, 255, 250)

  /** A net_mgmt_event_notify_with_info call: the event and the group address it carries. */
  datatype McastNotice = JoinNotice(addr: Ipv4Addr) | LeaveNotice(addr: Ipv4Addr)

  /**
   * What join and leave report. Ok is the success path, whose C return value is not
   * defined (see ReturnCodeAsWritten); the others are -EALREADY, -ENOMEM, -ENOENT, -EINVAL.
   */
  datatype McastResult = Ok | AlreadyJoined | OutOfMemory | NotFound | Invalid

  /**
   * One interface's multicast table: each used entry's address and whether it is joined,
   * the number of entries the interface has room for, and the notices emitted so far.
   */
  datatype McastTable = McastTable(capacity: nat, entries: map<Ipv4Addr, bool>, notices: seq<McastNotice>)

  ghost predicate TableValid(t: McastTable)
  {
    |t.entries| <= t.capacity
  }

  /** net_ipv4_multicast_join. */
  function JoinSpec(t: McastTable, addr: Ipv4Addr): (r: (McastResult, McastTable))
    ensures addr in t.entries && t.entries[addr] ==> r == (AlreadyJoined, t)
    ensures addr !in t.entries && |t.entries| >= t.capacity ==> r == (OutOfMemory, t)
    ensures r.0 == Ok <==> (addr in t.entries && !t.entries[addr]) || (addr !in t.entries && |t.entries| < t.capacity)
    ensures r.0 == Ok ==>
              r.1 == t.(entries := t.entries[addr := true], notices := t.notices + [JoinNotice(addr)])
    ensures TableValid(t) ==> TableValid(r.1)
  {
    if addr in t.entries && t.entries[addr] then (AlreadyJoined, t)
    else if addr !in t.entries && |t.entries| >= t.capacity then (OutOfMemory, t)
    else (Ok, t.(entries := t.entries[addr := true], notices := t.notices + [JoinNotice(addr)]))
  }

  /**
   * net_ipv4_multicast_leave. removeFails is net_if_ipv4_maddr_rm reporting that it found
   * nothing to remove after the lookup found the entry (another thread removed it first).
   */
  function LeaveSpec(t: McastTable, addr: Ipv4Addr, removeFails: bool): (r: (McastResult, McastTable))
    ensures addr !in t.entries ==> r == (NotFound, t)
    ensures addr in t.entries && removeFails ==> r == (Invalid, t)
    ensures r.0 == Ok <==> addr in t.entries && !removeFails
    ensures r.0 == Ok ==>
              r.1 == t.(entries := t.entries - {addr}, notices := t.notices + [LeaveNotice(addr)])
    ensures TableValid(t) ==> TableValid(r.1)
  {
    if addr !in t.entries then (NotFound, t)
    else if removeFails then (Invalid, t)
    else (Ok, t.(entries := t.entries - {addr}, notices := t.notices + [LeaveNotice(addr)]))
  }

  /**
   * Joining the same group twice: the first join succeeds with one JOIN notice, the second
   * reports already-joined and changes nothing.
   */
  lemma JoinTwice(t: McastTable, addr: Ipv4Addr)
    requires addr in t.entries || |t.entries| < t.capacity
    requires !(addr in t.entries && t.entries[addr])
    ensures var (r1, t1) := JoinSpec(t, addr);
            var (r2, t2) := JoinSpec(t1, addr);
            r1 == Ok && t1.notices == t.notices + [JoinNotice(addr)] &&
            r2 == AlreadyJoined && t2 == t1
  {
  }

  /**
   * The sample's group on a fresh interface with room for it: the first join makes it the
   * one joined entry with one JOIN notice, and a second join reports already-joined.
   */
  lemma SampleGroupJoinTwice(capacity: nat)
    requires capacity > 0
    ensures var (r1, t1) := JoinSpec(McastTable(capacity, map[], []), SAMPLE_GROUP);
            r1 == Ok && t1 == McastTable(capacity, map[SAMPLE_GROUP := true], [JoinNotice(SAMPLE_GROUP)]) &&
            JoinSpec(t1, SAMPLE_GROUP) == (AlreadyJoined, t1)
  {
    JoinTwice(McastTable(capacity, map[], []), SAMPLE_GROUP);
  }

  /** A join followed by a leave removes the group, keeps every other entry and emits JOIN then LEAVE. */
  lemma JoinThenLeave(t: McastTable, addr: Ipv4Addr)
    requires (JoinSpec(t, addr)).0 == Ok
    ensures var (r2, t2) := LeaveSpec(JoinSpec(t, addr).1, addr, false);
            r2 == Ok && t2.entries == t.entries - {addr} &&
            t2.notices == t.notices + [JoinNotice(addr), LeaveNotice(addr)]
  {
  }

  /** Leaving a group that is not in the table always reports not-found and changes nothing, however often. */
  lemma LeaveAbsentIdempotent(t: McastTable, addr: Ipv4Addr, removeFails: bool)
    requires addr !in t.entries
    ensures LeaveSpec(t, addr, removeFails) == (NotFound, t)
    ensures LeaveSpec(LeaveSpec(t, addr, removeFails).1, addr, removeFails) == (NotFound, t)
  {
  }

  /** The event a notice raises on the network stack. */
  function NoticeEvent(n: McastNotice): NetEvent
  {
    match n
    case JoinNotice(_) => Ipv4McastJoin
    case LeaveNotice(_) => Ipv4McastLeave
  }

  /**
   * A successful join's notice, handed to the registered multicast callback with a
   * successful publish, makes the bus carry CONNECTED; a successful leave's, DISCONNECTED.
   */
  lemma NoticesDriveStatus(t: McastTable, addr: Ipv4Addr, removeFails: bool, s: NetState)
    requires McastCallback in s.registered && !s.fatal
    ensures JoinSpec(t, addr).0 == Ok ==>
              Step(s, Delivery(McastCallback, NoticeEvent(JoinSpec(t, addr).1.notices[|t.notices|]), 0)).published
                == s.published + [Connected]
    ensures LeaveSpec(t, addr, removeFails).0 == Ok ==>
              Step(s, Delivery(McastCallback, NoticeEvent(LeaveSpec(t, addr, removeFails).1.notices[|t.notices|]), 0)).published
                == s.published + [Disconnected]
  {
  }

  /** The errno values the two functions return. */
  const EALREADY: int := 120
  const ENOMEM: int := 12
  const ENOENT: int := 2
  const EINVAL: int := 22

  /**
   * The int the two functions return as written: on success they return the local `ret`,
   * which is never assigned, so the caller gets whatever value `uninitialised` was.
   */
  function ReturnCodeAsWritten(r: McastResult, uninitialised: int): int
  {
    match r
    case Ok => uninitialised
    case AlreadyJoined => -EALREADY
    case OutOfMemory => -ENOMEM
    case NotFound => -ENOENT
    case Invalid => -EINVAL
  }

  /** As written, a successful join can hand its caller -ENOMEM, the same value a full table does. */
  lemma SuccessIndistinguishableAsWritten()
    ensures ReturnCodeAsWritten(Ok, -ENOMEM) == ReturnCodeAsWritten(OutOfMemory, 0)
  {
  }

  /** The evidently intended return value: zero on success, a negative errno otherwise. */
  function ReturnCode(r: McastResult): (c: int)
    ensures c == 0 <==> r == Ok
    ensures c <= 0
  {
    ReturnCodeAsWritten(r, 0)
  }

  /** With success returning zero, the caller can tell every outcome apart. */
  lemma ReturnCodeInjective(r1: McastResult, r2: McastResult)
    requires ReturnCode(r1) == ReturnCode(r2)
    ensures r1 == r2
  {
  }

  /** One interface's multicast address table (struct net_if_ipv4's mcast slots). */
  class McastInterface {
    const capacity: nat
    var entries: map<Ipv4Addr, bool>
    var notices: seq<McastNotice>

    ghost predicate Valid()
      reads this
    {
      |entries| <= capacity
    }

    function Table(): McastTable
      reads this
    {
      McastTable(capacity, entries, notices)
    }

    /** An interface with room for capacity multicast addresses (NET_IF_MAX_IPV4_MADDR), none used. */
    constructor (capacity: nat)
      ensures Valid() && Table() == McastTable(capacity, map[], [])
    {
      this.capacity := capacity;
      entries := map[];
      notices := [];
    }

    /** net_ipv4_multicast_join; ret is the int the corrected function returns. */
    method Join(addr: Ipv4Addr) returns (r: McastResult, ret: int)
      requires Valid()
      modifies this
      ensures Valid()
      ensures (r, Table()) == JoinSpec(old(Table()), addr)
      ensures ret == ReturnCode(r)
    {
      r := JoinResult(addr);
      ret := ReturnCode(r);
    }

    /** The lookup, add, join and notification steps of net_ipv4_multicast_join. */
    method JoinResult(addr: Ipv4Addr) returns (r: McastResult)
      requires Valid()
      modifies this
      ensures Valid()
      ensures (r, Table()) == JoinSpec(old(Table()), addr)
    {
      // net_if_ipv4_maddr_lookup and net_if_ipv4_maddr_is_joined
      if addr in entries && entries[addr] {
        return AlreadyJoined;
      }
      if addr !in entries {
        // net_if_ipv4_maddr_add takes a free slot, if there is one
        if |entries| >= capacity {
          return OutOfMemory;
        }
        entries := entries[addr := false];
      }
      // net_if_ipv4_maddr_join, then the JOIN notification
      ghost var before := old(entries);
      entries := entries[addr := true];
      assert entries == before[addr := true];
      notices := notices + [JoinNotice(addr)];
      r := Ok;
    }

    /** net_ipv4_multicast_leave; ret is the int the corrected function returns. */
    method Leave(addr: Ipv4Addr, removeFails: bool) returns (r: McastResult, ret: int)
      requires Valid()
      modifies this
      ensures Valid()
      ensures (r, Table()) == LeaveSpec(old(Table()), addr, removeFails)
      ensures ret == ReturnCode(r)
    {
      r := LeaveResult(addr, removeFails);
      ret := ReturnCode(r);
    }

    /** The lookup, remove, leave and notification steps of net_ipv4_multicast_leave. */
    method LeaveResult(addr: Ipv4Addr, removeFails: bool) returns (r: McastResult)
      requires Valid()
      modifies this
      ensures Valid()
      ensures (r, Table()) == LeaveSpec(old(Table()), addr, removeFails)
    {
      if addr !in entries {
        return NotFound;
      }
      if removeFails {
        return Invalid;
      }
      // net_if_ipv4_maddr_rm, then the LEAVE notification for the removed address
      entries := entries - {addr};
      notices := notices + [LeaveNotice(addr)];
      r := Ok;
    }
  }
}
