/** The lease store: dynamic leases by MAC, and declined addresses held out of the pool. */
module LeaseStorage {
  import opened Base
  import opened Text
  import opened LeaseFile

  datatype PurgeStats = PurgeStats(leases: nat, quarantined: nat)

  /** The leases of `m` that have not expired at `now`. */
  function Live(m: LeaseMap, now: nat): LeaseMap {
    map k | k in m && m[k].expiresAt > now :: m[k]
  }

  function LiveQuarantine(declined: map<u32, u64>, now: nat): map<u32, u64> {
    map ip | ip in declined && declined[ip] > now :: declined[ip]
  }

  /** The value of a lease store. */
  datatype Store = Store(byMac: LeaseMap, declined: map<u32, u64>) {
    function Insert(l: Lease): Store {
      this.(byMac := byMac[l.mac := l])
    }

    function Remove(mac: Mac): Store {
      this.(byMac := byMac - {mac})
    }

    function Quarantine(ip: u32, until: u64): Store {
      this.(declined := declined[ip := until])
    }

    predicate IsQuarantined(ip: u32, now: nat) {
      ip in declined && declined[ip] > now
    }

    function Purge(now: nat): Store {
      Store(Live(byMac, now), LiveQuarantine(declined, now))
    }

    /** Some other MAC holds an unexpired lease on this address. */
    predicate TakenByOther(ip: u32, mac: Mac, now: nat) {
      exists k :: k in byMac && byMac[k].ip == ip && byMac[k].mac != mac && byMac[k].expiresAt > now
    }
  }

  /** An entry survives a purge unchanged if it expires later than now, and goes otherwise. */
  lemma PurgeKeepsExactly(s: Store, now: nat, mac: Mac, ip: u32)
    ensures var r := s.Purge(now);
            && (mac in r.byMac <==> mac in s.byMac && s.byMac[mac].expiresAt > now)
            && (mac in r.byMac ==> r.byMac[mac] == s.byMac[mac])
            && (ip in r.declined <==> ip in s.declined && s.declined[ip] > now)
            && (ip in r.declined ==> r.declined[ip] == s.declined[ip])
  {
  }

  /** Purging twice is purging once, at the later time. */
  lemma PurgeTwice(s: Store, t: nat, now: nat)
    requires t <= now
    ensures s.Purge(t).Purge(now) == s.Purge(now)
  {
  }

  // ---- The store as the source keeps it ----

  class LeaseStore {
    var byMac: LeaseMap
    var declined: map<u32, u64>

    function View(): Store
      reads this
    {
      Store(byMac, declined)
    }

    /** Load line by line: blank lines and comments are skipped, so is a malformed line. */
    constructor Load(text: string)
      ensures View() == Store(LoadText(text), map[])
    {
      var loaded: LeaseMap := map[];
      var lines := Lines(text);
      assert lines[0..] == lines;
      for idx := 0 to |lines|
        invariant LoadLines(lines[idx..], loaded) == LoadText(text)
      {
        assert lines[idx..][0] == lines[idx] && lines[idx..][1..] == lines[idx + 1..];
        var line := Trim(lines[idx]);
        if line == "" || line[0] == '#' {
          continue;
        }
        var l := ParseLine(line);
        if l.Some? {
          loaded := loaded[l.value.mac := l.value];
        }
      }
      byMac := loaded;
      declined := map[];
    }

    function Get(mac: Mac): Option<Lease>
      reads this
    {
      if mac in byMac then Some(byMac[mac]) else None
    }

    method Insert(l: Lease)
      modifies this`byMac
      ensures View() == old(View()).Insert(l)
    {
      byMac := byMac[l.mac := l];
    }

    method Remove(mac: Mac) returns (removed: Option<Lease>)
      modifies this`byMac
      ensures removed == old(Get(mac))
      ensures View() == old(View()).Remove(mac)
    {
      removed := Get(mac);
      byMac := byMac - {mac};
    }

    method Quarantine(ip: u32, until: u64)
      modifies this`declined
      ensures View() == old(View()).Quarantine(ip, until)
    {
      declined := declined[ip := until];
    }

    /** A zero lease count means no lease was dropped, so the lease file need not change. */
    method PurgeExpired(now: nat) returns (stats: PurgeStats)
      modifies this
      ensures View() == old(View()).Purge(now)
      ensures stats.leases == |old(byMac)| - |byMac| && stats.quarantined == |old(declined)| - |declined|
      ensures stats.leases == 0 <==> byMac == old(byMac)
      ensures stats.quarantined == 0 <==> declined == old(declined)
    {
      SubmapSize(byMac, Live(byMac, now));
      SubmapSize(declined, LiveQuarantine(declined, now));
      var leasesBefore := |byMac|;
      byMac := Live(byMac, now);
      var quarantinedBefore := |declined|;
      declined := LiveQuarantine(declined, now);
      stats := PurgeStats(leasesBefore - |byMac|, quarantinedBefore - |declined|);
    }

    /** All leases in the order a walk of the hash map happens to meet them. */
    method Values() returns (order: seq<Lease>)
      requires Storable(byMac)
      ensures Enumerates(order, byMac)
    {
      order := [];
      var rest := byMac.Keys;
      ghost var met: LeaseMap := map[];
      while rest != {}
        invariant met.Keys + rest == byMac.Keys && met.Keys !! rest
        invariant forall k :: k in met ==> met[k] == byMac[k]
        invariant Enumerates(order, met)
      {
        var k :| k in rest;
        EnumeratesStep(order, met, byMac[k]);
        met := met[k := byMac[k]];
        rest := rest - {k};
        order := order + [byMac[k]];
      }
      assert met == byMac;
    }

    /** The text that replaces the lease file: every lease once, ascending by address. */
    method Save() returns (out: string, order: seq<Lease>)
      requires Storable(byMac)
      ensures Enumerates(order, byMac) && out == TextOf(SortByIp(order))
      ensures LoadText(out) == NormalMap(byMac)
    {
      order := Values();
      var sorted := SortByIp(order);
      out := Print(sorted);
      SortEnumerates(order, byMac);
      LoadSaved(sorted, byMac);
    }
  }

  method Print(sorted: seq<Lease>) returns (out: string)
    ensures out == TextOf(sorted)
  {
    out := "";
    assert sorted[0..] == sorted;
    for i := 0 to |sorted|
      invariant out + TextOf(sorted[i..]) == TextOf(sorted)
    {
      var rest := sorted[i..];
      assert rest[0] == sorted[i] && rest[1..] == sorted[i + 1..];
      out := Appended(out, LeaseLine(sorted[i]) + "\n", TextOf(sorted[i + 1..]));
    }
    assert out + "" == out;
  }

  function Appended(out: string, line: string, ghost rest: string): (r: string)
    ensures r == out + line && r + rest == out + (line + rest)
  {
    out + line
  }

  lemma {:induction false} SubsetSize<T>(big: set<T>, small: set<T>)
    requires small <= big
    ensures |small| <= |big|
    ensures |small| == |big| ==> small == big
  {
    if small != {} {
      var x :| x in small;
      SubsetSize(big - {x}, small - {x});
      assert small == small - {x} + {x} && big == big - {x} + {x};
    } else if |big| == 0 {
      assert big == {};
    }
  }

  lemma SubmapSize<K, V>(big: map<K, V>, small: map<K, V>)
    requires small.Keys <= big.Keys && forall k :: k in small ==> small[k] == big[k]
    ensures |small| <= |big|
    ensures |small| == |big| <==> small == big
  {
    SubsetSize(big.Keys, small.Keys);
    assert |big| == |big.Keys| && |small| == |small.Keys|;
  }
}
