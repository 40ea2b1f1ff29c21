/** Server configuration and its semantic validation. */
module Config {
  import opened Base
  import opened Ip
  import MacText

  datatype StaticLease = StaticLease(name: string, mac: Mac, ip: u32)

  datatype DhcpConfig = DhcpConfig(
    iface: string,
    serverIp: u32,
    subnet: Cidr,
    subnetMask: u32,
    poolStart: u32,
    poolEnd: u32,
    router: Option<u32>,
    dns: seq<u32>,
    leaseTime: u32,
    leaseFile: string,
    statics: seq<StaticLease>)
  {
    /** The first static binding for this address. */
    function StaticFor(mac: Mac): (r: Option<StaticLease>)
      ensures r.Some? ==> r.value in statics && r.value.mac == mac
      ensures r.None? <==> forall s :: s in statics ==> s.mac != mac
    {
      FindStatic(statics, mac)
    }

    function StaticIps(): set<u32> {
      set s | s in statics :: s.ip
    }

    predicate InPool(ip: u32) {
      poolStart <= ip <= poolEnd
    }
  }

  function FindStatic(statics: seq<StaticLease>, mac: Mac): (r: Option<StaticLease>)
    ensures r.Some? ==> r.value in statics && r.value.mac == mac
    ensures r.None? <==> forall s :: s in statics ==> s.mac != mac
  {
    if statics == [] then None
    else if statics[0].mac == mac then Some(statics[0])
    else
      assert forall s :: s in statics <==> s == statics[0] || s in statics[1..];
      FindStatic(statics[1..], mac)
  }

  // ---- What a usable configuration is ----

  /** An address a host may carry: strictly between the network and the broadcast address. */
  predicate HostAddress(subnet: Cidr, ip: u32) {
    subnet.Network() < ip < subnet.Broadcast()
  }

  predicate AllHosts(subnet: Cidr, statics: seq<StaticLease>) {
    forall i :: 0 <= i < |statics| ==> HostAddress(subnet, statics[i].ip)
  }

  predicate DistinctStatics(statics: seq<StaticLease>) {
    forall i, j :: 0 <= i < j < |statics| ==> statics[i].mac != statics[j].mac && statics[i].ip != statics[j].ip
  }

  predicate Valid(cfg: DhcpConfig) {
    && cfg.iface != "" && cfg.leaseFile != ""
    && |cfg.dns| <= 63
    && cfg.subnetMask == cfg.subnet.Netmask()
    && HostAddress(cfg.subnet, cfg.serverIp)
    && HostAddress(cfg.subnet, cfg.poolStart)
    && HostAddress(cfg.subnet, cfg.poolEnd)
    && (cfg.router.Some? ==> HostAddress(cfg.subnet, cfg.router.value))
    && cfg.poolStart <= cfg.poolEnd
    && cfg.leaseTime > 0
    && !cfg.InPool(cfg.serverIp)
    && AllHosts(cfg.subnet, cfg.statics)
    && DistinctStatics(cfg.statics)
  }

  // ---- Validation as the source performs it ----

  datatype ConfigError =
    | EmptyInterface
    | EmptyLeaseFile
    | TooManyDns(count: nat)
    | MaskMismatch(expected: u32)
    | OutsideSubnet(ip: u32)
    | PoolReversed
    | ZeroLeaseTime
    | NetworkOrBroadcast(ip: u32)
    | ServerInPool
    | DuplicateMac(mac: string)
    | DuplicateIp(ip: u32)

  method CheckInSubnet(cfg: DhcpConfig, ip: u32, errors: seq<ConfigError>) returns (r: seq<ConfigError>)
    ensures r == [] <==> errors == [] && cfg.subnet.Network() <= ip <= cfg.subnet.Broadcast()
  {
    ContainsIsInterval(cfg.subnet, ip);
    r := errors;
    if !cfg.subnet.Contains(ip) {
      r := r + [OutsideSubnet(ip)];
    }
  }

  method CheckFields(cfg: DhcpConfig) returns (errors: seq<ConfigError>)
    ensures errors == [] <==>
            cfg.iface != "" && cfg.leaseFile != "" && |cfg.dns| <= 63 && cfg.subnetMask == cfg.subnet.Netmask()
  {
    errors := [];
    if cfg.iface == "" {
      errors := errors + [EmptyInterface];
    }
    if cfg.leaseFile == "" {
      errors := errors + [EmptyLeaseFile];
    }
    if |cfg.dns| > 63 {
      errors := errors + [TooManyDns(|cfg.dns|)];
    }
    if cfg.subnet.Netmask() != cfg.subnetMask {
      errors := errors + [MaskMismatch(cfg.subnet.Netmask())];
    }
  }

  method CheckMembership(cfg: DhcpConfig, before: seq<ConfigError>) returns (errors: seq<ConfigError>)
    ensures errors == [] <==>
            && before == []
            && cfg.subnet.Network() <= cfg.serverIp <= cfg.subnet.Broadcast()
            && cfg.subnet.Network() <= cfg.poolStart <= cfg.subnet.Broadcast()
            && cfg.subnet.Network() <= cfg.poolEnd <= cfg.subnet.Broadcast()
            && (cfg.router.Some? ==> cfg.subnet.Network() <= cfg.router.value <= cfg.subnet.Broadcast())
            && cfg.poolStart <= cfg.poolEnd && cfg.leaseTime > 0
  {
    errors := CheckInSubnet(cfg, cfg.serverIp, before);
    errors := CheckInSubnet(cfg, cfg.poolStart, errors);
    errors := CheckInSubnet(cfg, cfg.poolEnd, errors);
    if cfg.router.Some? {
      errors := CheckInSubnet(cfg, cfg.router.value, errors);
    }
    if cfg.poolStart > cfg.poolEnd {
      errors := errors + [PoolReversed];
    }
    if cfg.leaseTime == 0 {
      errors := errors + [ZeroLeaseTime];
    }
  }

  method CheckNotEdge(ip: u32, network: u32, broadcast: u32, before: seq<ConfigError>)
    returns (errors: seq<ConfigError>)
    ensures errors == [] <==> before == [] && ip != network && ip != broadcast
  {
    errors := before;
    if ip == network || ip == broadcast {
      errors := errors + [NetworkOrBroadcast(ip)];
    }
  }

  method CheckKeyAddresses(cfg: DhcpConfig, network: u32, broadcast: u32, before: seq<ConfigError>)
    returns (errors: seq<ConfigError>)
    ensures errors == [] <==>
            && before == []
            && cfg.serverIp != network && cfg.serverIp != broadcast
            && cfg.poolStart != network && cfg.poolStart != broadcast
            && cfg.poolEnd != network && cfg.poolEnd != broadcast
            && (cfg.router.Some? ==> cfg.router.value != network && cfg.router.value != broadcast)
            && !cfg.InPool(cfg.serverIp)
  {
    errors := CheckNotEdge(cfg.serverIp, network, broadcast, before);
    errors := CheckNotEdge(cfg.poolStart, network, broadcast, errors);
    errors := CheckNotEdge(cfg.poolEnd, network, broadcast, errors);
    if cfg.router.Some? {
      errors := CheckNotEdge(cfg.router.value, network, broadcast, errors);
    }
    if cfg.serverIp >= cfg.poolStart && cfg.serverIp <= cfg.poolEnd {
      errors := errors + [ServerInPool];
    }
  }

  /** No error is reported exactly for a usable configuration. */
  method Validate(cfg: DhcpConfig) returns (errors: seq<ConfigError>)
    ensures errors == [] <==> Valid(cfg)
    ensures errors == [] <==> Serves(cfg)
  {
    ValidExactlyServes(cfg);
    errors := CheckFields(cfg);
    errors := CheckMembership(cfg, errors);
    errors := CheckKeyAddresses(cfg, cfg.subnet.Network(), cfg.subnet.Broadcast(), errors);
    errors := CheckStatics(cfg, errors);
  }

  method CheckStaticIp(cfg: DhcpConfig, ip: u32, before: seq<ConfigError>) returns (errors: seq<ConfigError>)
    ensures errors == [] <==> before == [] && HostAddress(cfg.subnet, ip)
  {
    errors := CheckInSubnet(cfg, ip, before);
    errors := CheckNotEdge(ip, cfg.subnet.Network(), cfg.subnet.Broadcast(), errors);
  }

  method CheckRepeat(mac: string, ip: u32, seenMac: map<string, string>, seenIp: map<u32, string>,
                     before: seq<ConfigError>)
    returns (errors: seq<ConfigError>)
    ensures errors == [] <==> before == [] && mac !in seenMac && ip !in seenIp
  {
    errors := before;
    if mac in seenMac {
      errors := errors + [DuplicateMac(mac)];
    }
    if ip in seenIp {
      errors := errors + [DuplicateIp(ip)];
    }
  }

  /** The loop over the static bindings, with its two maps of what was seen before. */
  method CheckStatics(cfg: DhcpConfig, before: seq<ConfigError>) returns (errors: seq<ConfigError>)
    ensures errors == [] <==> before == [] && DistinctStatics(cfg.statics) && AllHosts(cfg.subnet, cfg.statics)
  {
    errors := before;
    var statics := cfg.statics;
    var seenMac: map<string, string> := map[];
    var seenIp: map<u32, string> := map[];
    for i := 0 to |statics|
      invariant seenMac.Keys == SeenMacs(statics, i)
      invariant seenIp.Keys == SeenIps(statics, i)
      invariant errors == [] <==> before == [] && FirstUsable(cfg.subnet, statics, i)
    {
      var s := statics[i];
      errors := CheckStaticIp(cfg, s.ip, errors);
      var mac := PrintedMac(s);
      errors := CheckRepeat(mac, s.ip, seenMac, seenIp, errors);
      SeenMeansRepeated(statics, i);
      SeenStep(statics, i);
      seenMac := seenMac[mac := s.name];
      seenIp := seenIp[s.ip := s.name];
    }
    FirstUsableMeaning(cfg.subnet, statics, |statics|);
    assert statics[..|statics|] == statics;
  }

  /** The first `n` bindings pass: each carries a host address and repeats nothing before it. */
  predicate FirstUsable(subnet: Cidr, statics: seq<StaticLease>, n: nat)
    requires n <= |statics|
  {
    n > 0 ==>
      FirstUsable(subnet, statics, n - 1) && HostAddress(subnet, statics[n - 1].ip) && !Repeated(statics, n - 1)
  }

  lemma {:induction false} FirstUsableMeaning(subnet: Cidr, statics: seq<StaticLease>, n: nat)
    requires n <= |statics|
    ensures FirstUsable(subnet, statics, n) <==> DistinctStatics(statics[..n]) && AllHosts(subnet, statics[..n])
  {
    if n > 0 {
      FirstUsableMeaning(subnet, statics, n - 1);
      StaticsStep(subnet, statics, n - 1);
    }
  }

  function PrintedMac(s: StaticLease): string {
    MacText.Display(s.mac)
  }

  function SeenMacs(statics: seq<StaticLease>, n: nat): set<string>
    requires n <= |statics|
  {
    set k | 0 <= k < n :: PrintedMac(statics[k])
  }

  function SeenIps(statics: seq<StaticLease>, n: nat): set<u32>
    requires n <= |statics|
  {
    set k | 0 <= k < n :: statics[k].ip
  }

  lemma SeenStep(statics: seq<StaticLease>, n: nat)
    requires n < |statics|
    ensures SeenMacs(statics, n + 1) == SeenMacs(statics, n) + {PrintedMac(statics[n])}
    ensures SeenIps(statics, n + 1) == SeenIps(statics, n) + {statics[n].ip}
  {
  }

  predicate Repeated(statics: seq<StaticLease>, n: nat)
    requires n < |statics|
  {
    exists k :: 0 <= k < n && (statics[k].mac == statics[n].mac || statics[k].ip == statics[n].ip)
  }

  /** Looking up printed addresses finds exactly the repeated ones, because printing is one-to-one. */
  lemma SeenMeansRepeated(statics: seq<StaticLease>, n: nat)
    requires n < |statics|
    ensures PrintedMac(statics[n]) in SeenMacs(statics, n) || statics[n].ip in SeenIps(statics, n)
       <==> Repeated(statics, n)
  {
    forall k | 0 <= k < n && PrintedMac(statics[k]) == PrintedMac(statics[n])
      ensures statics[k].mac == statics[n].mac
    {
      MacText.DisplayInjective(statics[k].mac, statics[n].mac);
    }
    if Repeated(statics, n) {
      var k :| 0 <= k < n && (statics[k].mac == statics[n].mac || statics[k].ip == statics[n].ip);
      assert PrintedMac(statics[k]) in SeenMacs(statics, n) && statics[k].ip in SeenIps(statics, n);
    }
  }

  lemma StaticsStep(subnet: Cidr, statics: seq<StaticLease>, n: nat)
    requires n < |statics|
    ensures DistinctStatics(statics[..n + 1]) <==> DistinctStatics(statics[..n]) && !Repeated(statics, n)
    ensures AllHosts(subnet, statics[..n + 1]) <==> AllHosts(subnet, statics[..n]) && HostAddress(subnet, statics[n].ip)
  {
    var longer := statics[..n + 1];
    assert forall k :: 0 <= k < n ==> longer[k] == statics[..n][k] == statics[k];
    assert longer[n] == statics[n];
  }

  // ---- What the allocator relies on ----

  /** In a usable configuration the pool avoids the three fixed addresses, so only static bindings reserve in it. */
  lemma PoolIsHostRange(cfg: DhcpConfig, ip: u32)
    requires Valid(cfg) && cfg.InPool(ip)
    ensures HostAddress(cfg.subnet, ip) && cfg.subnet.Contains(ip)
    ensures ip != cfg.serverIp && ip != cfg.subnet.Network() && ip != cfg.subnet.Broadcast()
  {
    ContainsIsInterval(cfg.subnet, ip);
  }

  /** Static bindings are a one-to-one map: the address found for a MAC belongs to no other MAC. */
  lemma StaticForIsInjective(cfg: DhcpConfig, a: Mac, b: Mac)
    requires Valid(cfg)
    requires cfg.StaticFor(a).Some? && cfg.StaticFor(b).Some?
    requires cfg.StaticFor(a).value.ip == cfg.StaticFor(b).value.ip
    ensures a == b
  {
    var i :| 0 <= i < |cfg.statics| && cfg.statics[i] == cfg.StaticFor(a).value;
    var j :| 0 <= j < |cfg.statics| && cfg.statics[j] == cfg.StaticFor(b).value;
    assert !(i < j) && !(j < i);
  }

  // ---- What a usable configuration is to a client ----

  /**
   The announced mask describes the subnet and nothing else; server, router, every pool address and every bound address
   are host addresses of it; no address has two owners.
   */
  ghost predicate Serves(cfg: DhcpConfig) {
    var lo, hi := cfg.subnet.Network(), cfg.subnet.Broadcast();
    && Describes(cfg.subnetMask, cfg.subnet)
    && lo < cfg.serverIp < hi
    && (cfg.router.Some? ==> lo < cfg.router.value < hi)
    && cfg.InPool(cfg.poolStart)
    && (forall ip: u32 :: cfg.InPool(ip) ==> lo < ip < hi && ip != cfg.serverIp)
    && (forall st :: st in cfg.statics ==> lo < st.ip < hi)
    && (forall i, j :: 0 <= i < |cfg.statics| && 0 <= j < |cfg.statics| && i != j ==>
          cfg.statics[i].mac != cfg.statics[j].mac && cfg.statics[i].ip != cfg.statics[j].ip)
    && 0 < cfg.leaseTime && |cfg.dns| < 64 && |cfg.iface| > 0 && |cfg.leaseFile| > 0
  }

  lemma ValidServes(cfg: DhcpConfig)
    requires Valid(cfg)
    ensures Serves(cfg)
  {
    DescribesExactly(cfg.subnetMask, cfg.subnet);
    StaticsServe(cfg.subnet, cfg.statics);
  }

  lemma StaticsServe(subnet: Cidr, statics: seq<StaticLease>)
    requires AllHosts(subnet, statics) && DistinctStatics(statics)
    ensures forall st :: st in statics ==> HostAddress(subnet, st.ip)
    ensures forall i, j :: 0 <= i < |statics| && 0 <= j < |statics| && i != j ==>
              statics[i].mac != statics[j].mac && statics[i].ip != statics[j].ip
  {
    forall st | st in statics
      ensures HostAddress(subnet, st.ip)
    {
      var i :| 0 <= i < |statics| && statics[i] == st;
    }
  }

  lemma ServingIsValid(cfg: DhcpConfig)
    requires Serves(cfg)
    ensures Valid(cfg)
  {
    DescribesExactly(cfg.subnetMask, cfg.subnet);
    assert cfg.InPool(cfg.poolStart) && cfg.InPool(cfg.poolEnd);
    assert forall i :: 0 <= i < |cfg.statics| ==> cfg.statics[i] in cfg.statics;
  }

  lemma ValidExactlyServes(cfg: DhcpConfig)
    ensures Valid(cfg) <==> Serves(cfg)
  {
    if Valid(cfg) {
      ValidServes(cfg);
    }
    if Serves(cfg) {
      ServingIsValid(cfg);
    }
  }

  /** By the mask it is told, a client finds server, router and every other client on its own link. */
  lemma EveryoneIsOnLink(cfg: DhcpConfig, a: u32, b: u32)
    requires Valid(cfg) && MayBeUsed(cfg, a) && MayBeUsed(cfg, b)
    ensures And(a, cfg.subnetMask) == And(b, cfg.subnetMask)
    ensures HostAddress(cfg.subnet, a)
  {
    ValidServes(cfg);
  }

  predicate MayBeUsed(cfg: DhcpConfig, ip: u32) {
    cfg.InPool(ip) || ip in cfg.StaticIps() || ip == cfg.serverIp || cfg.router == Some(ip)
  }

  // ---- Which subnets can be served ----

  /** The smallest service of a subnet: the server on the first host address, a pool of the second. */
  function SmallestConfig(subnet: Cidr): DhcpConfig
    requires subnet.Network() + 2 < TWO_32
  {
    var first: u32, second: u32 := subnet.Network() + 1, subnet.Network() + 2;
    DhcpConfig("eth0", first, subnet, subnet.Netmask(), second, second, None, [], 1, "leases", [])
  }

  /** Room for a server and a pool: four addresses, two of them network and broadcast. */
  lemma SubnetRoom(subnet: Cidr)
    ensures subnet.prefix <= 30 <==> subnet.Network() + 3 <= subnet.Broadcast()
  {
    SubnetSize(subnet);
    assert Pow2(0) == 1 && Pow2(1) == 2 && Pow2(2) == 4;
    if subnet.prefix <= 30 {
      Pow2Order(2, 32 - subnet.prefix);
    }
  }

  lemma SmallestIsValid(subnet: Cidr)
    requires subnet.Network() + 3 <= subnet.Broadcast()
    ensures Valid(SmallestConfig(subnet))
  {
  }

  lemma ValidNeedsRoom(cfg: DhcpConfig)
    requires Valid(cfg)
    ensures cfg.subnet.Network() + 3 <= cfg.subnet.Broadcast()
  {
  }

  /** Some configuration of a subnet passes validation exactly when its prefix is at most 30. */
  lemma ServableExactly(subnet: Cidr)
    ensures (exists cfg :: Valid(cfg) && cfg.subnet == subnet) <==> subnet.prefix <= 30
  {
    SubnetRoom(subnet);
    if subnet.prefix <= 30 {
      SmallestIsValid(subnet);
      assert SmallestConfig(subnet).subnet == subnet;
    } else {
      forall cfg | Valid(cfg) && cfg.subnet == subnet
        ensures false
      {
        ValidNeedsRoom(cfg);
      }
    }
  }
}
