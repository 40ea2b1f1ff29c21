/** Address allocation policy: static binding, then the client's previous address, then the least usable one. */
module Allocator {
  import opened Base
  import opened Config
  import opened LeaseFile
  import opened LeaseStorage

  predicate Reserved(cfg: DhcpConfig, ip: u32) {
    ip == cfg.subnet.Network() || ip == cfg.subnet.Broadcast() || ip == cfg.serverIp || ip in cfg.StaticIps()
  }

  /** An address `mac` may be given from the pool. */
  predicate Usable(cfg: DhcpConfig, s: Store, mac: Mac, now: nat, ip: u32) {
    !Reserved(cfg, ip) && !s.TakenByOther(ip, mac, now) && !s.IsQuarantined(ip, now)
  }

  /** The client's own lease, live or not, still names a usable pool address. */
  predicate OwnUsable(cfg: DhcpConfig, s: Store, mac: Mac, now: nat) {
    mac in s.byMac && cfg.InPool(s.byMac[mac].ip) && Usable(cfg, s, mac, now, s.byMac[mac].ip)
  }

  /** The least address from `from` to `end` that passes the test. */
  function FirstPassing(test: u32 -> bool, from: nat, end: u32): (r: Option<u32>)
    ensures r.Some? ==> from <= r.value <= end && test(r.value)
    ensures forall ip: u32 :: from <= ip <= end && test(ip) ==> r.Some? && r.value <= ip
    decreases end + 1 - from
  {
    if from > end then None
    else if test(from) then Some(from)
    else FirstPassing(test, from + 1, end)
  }

  /** The address `mac` would be given. */
  function Assign(cfg: DhcpConfig, s: Store, mac: Mac, now: nat): Option<u32> {
    var st := cfg.StaticFor(mac);
    if st.Some? then Some(st.value.ip)
    else if OwnUsable(cfg, s, mac, now) then Some(s.byMac[mac].ip)
    else FirstPassing((ip: u32) => Usable(cfg, s, mac, now, ip), cfg.poolStart, cfg.poolEnd)
  }

  /** Only which pool addresses pass matters. */
  lemma {:induction false} SameTestSameFirst(p: u32 -> bool, q: u32 -> bool, from: nat, end: u32)
    requires forall ip: u32 :: from <= ip <= end ==> p(ip) == q(ip)
    ensures FirstPassing(p, from, end) == FirstPassing(q, from, end)
    decreases end + 1 - from
  {
    if from <= end && !p(from) {
      SameTestSameFirst(p, q, from + 1, end);
    }
  }

  /** The source's search: static binding, sticky lease, then a scan of the pool with early return. */
  method AssignIp(cfg: DhcpConfig, store: LeaseStore, mac: Mac, now: nat) returns (r: Option<u32>)
    ensures r == Assign(cfg, store.View(), mac, now)
  {
    var st := cfg.StaticFor(mac);
    if st.Some? {
      return Some(st.value.ip);
    }
    var s := store.View();
    var lease := store.Get(mac);
    if lease.Some? {
      var ip := lease.value.ip;
      if ip >= cfg.poolStart && ip <= cfg.poolEnd
         && !Reserved(cfg, ip) && !s.TakenByOther(ip, mac, now) && !s.IsQuarantined(ip, now) {
        return Some(ip);
      }
    }
    r := ScanPool(cfg.poolStart, cfg.poolEnd, (ip: u32) => Usable(cfg, s, mac, now, ip));
  }

  method ScanPool(start: u32, end: u32, test: u32 -> bool) returns (r: Option<u32>)
    ensures r == FirstPassing(test, start, end)
  {
    var ip: nat := start;
    while ip <= end
      invariant FirstPassing(test, ip, end) == FirstPassing(test, start, end)
    {
      if test(ip) {
        return Some(ip);
      }
      ip := ip + 1;
    }
    r := None;
  }

  // ---- What an assignment is ----

  /** A client without a static binding gets its own previous address if usable, else the least usable pool address. */
  lemma AssignMeaning(cfg: DhcpConfig, s: Store, mac: Mac, now: nat)
    requires cfg.StaticFor(mac).None?
    ensures var r := Assign(cfg, s, mac, now);
            && (r.Some? ==> cfg.InPool(r.value) && Usable(cfg, s, mac, now, r.value))
            && (OwnUsable(cfg, s, mac, now) ==> r == Some(s.byMac[mac].ip))
            && (!OwnUsable(cfg, s, mac, now) ==>
                  forall ip: u32 :: cfg.InPool(ip) && Usable(cfg, s, mac, now, ip) ==> r.Some? && r.value <= ip)
            && (r.None? <==> forall ip: u32 :: cfg.InPool(ip) ==> !Usable(cfg, s, mac, now, ip))
  {
    var test := (ip: u32) => Usable(cfg, s, mac, now, ip);
    if !OwnUsable(cfg, s, mac, now) {
      var r := FirstPassing(test, cfg.poolStart, cfg.poolEnd);
      assert Assign(cfg, s, mac, now) == r;
      forall ip: u32 | cfg.InPool(ip) && Usable(cfg, s, mac, now, ip)
        ensures r.Some? && r.value <= ip
      {
        assert test(ip);
      }
    }
  }

  /** In a usable configuration only static bindings are reserved within the pool. */
  lemma ReservedInPool(cfg: DhcpConfig, ip: u32)
    requires Valid(cfg) && cfg.InPool(ip)
    ensures Reserved(cfg, ip) <==> ip in cfg.StaticIps()
  {
    PoolIsHostRange(cfg, ip);
  }

  /** No client without a static binding is ever given the server, network or broadcast address, or a static one. */
  lemma AssignAvoids(cfg: DhcpConfig, s: Store, mac: Mac, now: nat)
    requires Valid(cfg) && Assign(cfg, s, mac, now).Some?
    ensures var ip := Assign(cfg, s, mac, now).value;
            && HostAddress(cfg.subnet, ip)
            && (cfg.StaticFor(mac).None? ==> ip != cfg.serverIp && ip !in cfg.StaticIps() && !s.IsQuarantined(ip, now))
            && (ip in cfg.StaticIps() <==> cfg.StaticFor(mac).Some?)
  {
    if cfg.StaticFor(mac).None? {
      AssignMeaning(cfg, s, mac, now);
      PoolIsHostRange(cfg, Assign(cfg, s, mac, now).value);
    } else {
      var st := cfg.StaticFor(mac).value;
      var i :| 0 <= i < |cfg.statics| && cfg.statics[i] == st;
    }
  }

  /** The server's own address goes to a client exactly when the configuration binds it to that client. */
  lemma ServerAddressExactly(cfg: DhcpConfig, s: Store, mac: Mac, now: nat)
    requires Valid(cfg)
    ensures Assign(cfg, s, mac, now) == Some(cfg.serverIp) <==>
            cfg.StaticFor(mac).Some? && cfg.StaticFor(mac).value.ip == cfg.serverIp
  {
    if Assign(cfg, s, mac, now).Some? {
      AssignAvoids(cfg, s, mac, now);
    }
  }

  /** A quarantined address goes to a client exactly when the configuration binds it to that client. */
  lemma QuarantinedExactly(cfg: DhcpConfig, s: Store, mac: Mac, now: nat, ip: u32)
    requires s.IsQuarantined(ip, now)
    ensures Assign(cfg, s, mac, now) == Some(ip) <==> cfg.StaticFor(mac).Some? && cfg.StaticFor(mac).value.ip == ip
  {
    if cfg.StaticFor(mac).None? {
      AssignMeaning(cfg, s, mac, now);
    }
  }

  /** An address under another client's live lease goes to a client exactly when it is bound to that client. */
  lemma TakenExactly(cfg: DhcpConfig, s: Store, mac: Mac, now: nat, ip: u32)
    requires s.TakenByOther(ip, mac, now)
    ensures Assign(cfg, s, mac, now) == Some(ip) <==> cfg.StaticFor(mac).Some? && cfg.StaticFor(mac).value.ip == ip
  {
    if cfg.StaticFor(mac).None? {
      AssignMeaning(cfg, s, mac, now);
    }
  }

  lemma StaticIsHost(cfg: DhcpConfig, mac: Mac)
    requires Valid(cfg) && cfg.StaticFor(mac).Some?
    ensures HostAddress(cfg.subnet, cfg.StaticFor(mac).value.ip) && cfg.StaticFor(mac).value.ip != 0
  {
    var i :| 0 <= i < |cfg.statics| && cfg.statics[i] == cfg.StaticFor(mac).value;
  }

  /**
   Such bindings pass validation: any usable configuration accepts one more static lease on any free host address, the
   server's own included, and the client gets it whatever the store holds: a quarantine, another client's live lease.
   */
  lemma AnyHostMayBeBound(cfg: DhcpConfig, s: Store, mac: Mac, ip: u32, now: nat)
    requires Valid(cfg) && HostAddress(cfg.subnet, ip) && ip !in cfg.StaticIps() && cfg.StaticFor(mac).None?
    ensures var wider := cfg.(statics := cfg.statics + [StaticLease("host", mac, ip)]);
            Valid(wider) && Assign(wider, s, mac, now) == Some(ip)
  {
    var bound := StaticLease("host", mac, ip);
    var wider := cfg.(statics := cfg.statics + [bound]);
    MoreStatics(cfg, bound);
    assert bound in wider.statics by {
      assert wider.statics[|cfg.statics|] == bound;
    }
    var found := wider.StaticFor(mac).value;
    assert found in cfg.statics || found == bound;
  }

  lemma ServerAddressMayBeBound(cfg: DhcpConfig, s: Store, mac: Mac, now: nat)
    requires Valid(cfg) && cfg.serverIp !in cfg.StaticIps() && cfg.StaticFor(mac).None?
    ensures var wider := cfg.(statics := cfg.statics + [StaticLease("host", mac, cfg.serverIp)]);
            Valid(wider) && Assign(wider, s, mac, now) == Some(wider.serverIp)
  {
    AnyHostMayBeBound(cfg, s, mac, cfg.serverIp, now);
  }

  /** A quarantine set a moment ago does not stop it. */
  lemma QuarantinedMayBeBound(cfg: DhcpConfig, s: Store, mac: Mac, ip: u32, until: u64, now: nat)
    requires Valid(cfg) && HostAddress(cfg.subnet, ip) && ip !in cfg.StaticIps() && cfg.StaticFor(mac).None?
    requires now < until
    ensures var wider, held := cfg.(statics := cfg.statics + [StaticLease("host", mac, ip)]), s.Quarantine(ip, until);
            held.IsQuarantined(ip, now) && Valid(wider) && Assign(wider, held, mac, now) == Some(ip)
  {
    AnyHostMayBeBound(cfg, s.Quarantine(ip, until), mac, ip, now);
  }

  /** Nor does another client's lease. */
  lemma TakenMayBeBound(cfg: DhcpConfig, s: Store, mac: Mac, l: Lease, now: nat)
    requires Valid(cfg) && HostAddress(cfg.subnet, l.ip) && l.ip !in cfg.StaticIps() && cfg.StaticFor(mac).None?
    requires l.mac != mac && l.expiresAt > now
    ensures var wider, taken := cfg.(statics := cfg.statics + [StaticLease("host", mac, l.ip)]), s.Insert(l);
            taken.TakenByOther(l.ip, mac, now) && Valid(wider) && Assign(wider, taken, mac, now) == Some(l.ip)
  {
    var taken := s.Insert(l);
    assert l.mac in taken.byMac && taken.byMac[l.mac] == l;
    AnyHostMayBeBound(cfg, taken, mac, l.ip, now);
  }

  lemma MoreStatics(cfg: DhcpConfig, bound: StaticLease)
    requires Valid(cfg) && HostAddress(cfg.subnet, bound.ip)
    requires bound.ip !in cfg.StaticIps() && cfg.StaticFor(bound.mac).None?
    ensures Valid(cfg.(statics := cfg.statics + [bound]))
  {
    var more := cfg.statics + [bound];
    assert forall i :: 0 <= i < |cfg.statics| ==> cfg.statics[i] in cfg.statics;
    assert DistinctStatics(more);
    assert AllHosts(cfg.subnet, more);
  }

  // ---- Counting the pool ----

  function PoolFrom(lo: nat, hi: nat): (r: set<u32>)
    requires hi < TWO_32
    ensures forall ip: u32 :: ip in r <==> lo <= ip <= hi
    ensures |r| == if lo <= hi then hi - lo + 1 else 0
    decreases hi + 1 - lo
  {
    if lo > hi then {} else {lo} + PoolFrom(lo + 1, hi)
  }

  function Pool(cfg: DhcpConfig): set<u32> {
    PoolFrom(cfg.poolStart, cfg.poolEnd)
  }

  function StaticsInPool(cfg: DhcpConfig): set<u32> {
    set ip | ip in cfg.StaticIps() && cfg.InPool(ip)
  }

  /** Pool addresses under a live lease of some other client. */
  function TakenInPool(cfg: DhcpConfig, s: Store, mac: Mac, now: nat): set<u32> {
    set k | k in s.byMac && s.byMac[k].mac != mac && s.byMac[k].expiresAt > now && cfg.InPool(s.byMac[k].ip)
      :: s.byMac[k].ip
  }

  function QuarantinedInPool(cfg: DhcpConfig, s: Store, now: nat): set<u32> {
    set ip | ip in s.declined && s.declined[ip] > now && cfg.InPool(ip)
  }

  function Blocked(cfg: DhcpConfig, s: Store, mac: Mac, now: nat): set<u32> {
    StaticsInPool(cfg) + TakenInPool(cfg, s, mac, now) + QuarantinedInPool(cfg, s, now)
  }

  lemma UsableIsUnblocked(cfg: DhcpConfig, s: Store, mac: Mac, now: nat, ip: u32)
    requires Valid(cfg) && cfg.InPool(ip)
    ensures Usable(cfg, s, mac, now, ip) <==> ip !in Blocked(cfg, s, mac, now)
  {
    ReservedInPool(cfg, ip);
    assert ip in TakenInPool(cfg, s, mac, now) <==> s.TakenByOther(ip, mac, now);
  }

  function UsableInPool(cfg: DhcpConfig, s: Store, mac: Mac, now: nat): set<u32> {
    set ip | ip in Pool(cfg) && Usable(cfg, s, mac, now, ip)
  }

  /** The pool splits into the usable and the blocked addresses. */
  lemma UsableOrBlocked(cfg: DhcpConfig, s: Store, mac: Mac, now: nat)
    requires Valid(cfg)
    ensures UsableInPool(cfg, s, mac, now) == Pool(cfg) - Blocked(cfg, s, mac, now)
    ensures Blocked(cfg, s, mac, now) <= Pool(cfg)
  {
    forall ip | ip in Pool(cfg)
      ensures ip in UsableInPool(cfg, s, mac, now) <==> ip !in Blocked(cfg, s, mac, now)
    {
      UsableIsUnblocked(cfg, s, mac, now, ip);
    }
    BlockedInPool(cfg, s, mac, now);
  }

  lemma BlockedInPool(cfg: DhcpConfig, s: Store, mac: Mac, now: nat)
    ensures Blocked(cfg, s, mac, now) <= Pool(cfg)
  {
  }

  lemma NoneMeansNoUsable(cfg: DhcpConfig, s: Store, mac: Mac, now: nat)
    requires cfg.StaticFor(mac).None?
    ensures Assign(cfg, s, mac, now).None? <==> UsableInPool(cfg, s, mac, now) == {}
  {
    AssignMeaning(cfg, s, mac, now);
    var r := Assign(cfg, s, mac, now);
    if r.Some? {
      assert r.value in UsableInPool(cfg, s, mac, now);
    }
  }

  /** Exhaustion is reported exactly when static, taken and quarantined addresses cover the whole pool. */
  lemma ExhaustedExactly(cfg: DhcpConfig, s: Store, mac: Mac, now: nat)
    requires Valid(cfg) && cfg.StaticFor(mac).None?
    ensures Assign(cfg, s, mac, now).None? <==> Blocked(cfg, s, mac, now) == Pool(cfg)
  {
    NoneMeansNoUsable(cfg, s, mac, now);
    UsableOrBlocked(cfg, s, mac, now);
  }

  /** The pool never looks exhausted while it is not: fewer blocked addresses than pool addresses means an answer. */
  lemma NoFalseExhaustion(cfg: DhcpConfig, s: Store, mac: Mac, now: nat)
    requires Valid(cfg)
    requires |Blocked(cfg, s, mac, now)| < cfg.poolEnd - cfg.poolStart + 1
    ensures Assign(cfg, s, mac, now).Some?
  {
    if cfg.StaticFor(mac).None? {
      ExhaustedExactly(cfg, s, mac, now);
    }
  }

  /** Leases sit on pool addresses that no static binding uses. */
  predicate Confined(cfg: DhcpConfig, m: LeaseMap) {
    forall k :: k in m ==> cfg.InPool(m[k].ip) && m[k].ip !in cfg.StaticIps()
  }

  function IpsOf(m: LeaseMap): set<u32> {
    set k | k in m :: m[k].ip
  }

  lemma {:induction false} InjectiveCount(m: LeaseMap)
    requires IpInjective(m)
    ensures |IpsOf(m)| == |m|
    decreases |m|
  {
    if m != map[] {
      var k :| k in m;
      var rest := m - {k};
      InjectiveCount(rest);
      IpsOfStep(m, k);
    }
  }

  lemma IpsOfStep(m: LeaseMap, k: Mac)
    requires IpInjective(m) && k in m
    ensures IpsOf(m) == IpsOf(m - {k}) + {m[k].ip} && m[k].ip !in IpsOf(m - {k})
  {
    var rest := m - {k};
    assert forall x :: x in m <==> x == k || x in rest;
    assert forall x :: x in rest ==> rest[x] == m[x] && m[x].ip in IpsOf(rest);
  }

  /** Confined, conflict-free leases number at most the pool size less the static addresses in it. */
  lemma CapacityBound(cfg: DhcpConfig, m: LeaseMap)
    requires Confined(cfg, m) && IpInjective(m) && cfg.poolStart <= cfg.poolEnd
    ensures |m| + |StaticsInPool(cfg)| <= cfg.poolEnd - cfg.poolStart + 1
  {
    InjectiveCount(m);
    var both := IpsOf(m) + StaticsInPool(cfg);
    assert IpsOf(m) !! StaticsInPool(cfg);
    assert |both| == |m| + |StaticsInPool(cfg)|;
    assert both <= Pool(cfg);
    SubsetSize(Pool(cfg), both);
  }
}
