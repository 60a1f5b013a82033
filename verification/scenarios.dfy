/**
 The scenarios of ipfiltering_test.go, and one about single-host CIDRs,
 replayed on the model. Each states what the parsers of Go's `net` package
 return for the strings involved and nothing more.
 */
module Scenarios {
  import opened Wrappers
  import opened Net
  import opened IpFiltering

  /** The IPv4 address `a.b.c.d`. */
  function V4Addr(a: Byte, b: Byte, c: Byte, d: Byte): IP {
    RawIP(V4, [a, b, c, d])
  }

  /**
   TestSingleIP: with block by default and one allowed address, that
   address passes and its neighbour does not, whether asked by string or
   by parsed address.
   */
  method SingleIPScenario(parsers: Parsers) returns (allowed1: bool, blocked2: bool, netAllowed1: bool, netBlocked2: bool)
    requires parsers.parseCIDR("222.25.118.1") == None
    requires parsers.parseIP("222.25.118.1") == Some(V4Addr(222, 25, 118, 1))
    requires parsers.parseIP("222.25.118.2") == Some(V4Addr(222, 25, 118, 2))
    ensures allowed1 && blocked2 && netAllowed1 && netBlocked2
  {
    var f := New(parsers, Options(["222.25.118.1"], [], true));
    assert f.ips == map[V4Addr(222, 25, 118, 1) := true] && f.subnets == [];
    allowed1 := Allowed(parsers, f, "222.25.118.1");
    blocked2 := Blocked(parsers, f, "222.25.118.2");
    netAllowed1 := NetAllowed(f, Some(V4Addr(222, 25, 118, 1)));
    netBlocked2 := NetBlocked(f, Some(V4Addr(222, 25, 118, 2)));
  }

  /**
   TestSubnetIP: allowing `10.0.0.0/16` under block by default lets in
   addresses of that /16 and keeps out one of `10.42.0.0/16`.
   */
  method SubnetScenario(parsers: Parsers) returns (allowed1: bool, allowed2: bool, blocked3: bool)
    requires parsers.parseCIDR("10.0.0.0/16") == Some(Cidr(V4Addr(10, 0, 0, 0), Net16()))
    requires parsers.parseIP("10.0.0.1") == Some(V4Addr(10, 0, 0, 1))
    requires parsers.parseIP("10.0.42.1") == Some(V4Addr(10, 0, 42, 1))
    requires parsers.parseIP("10.42.0.1") == Some(V4Addr(10, 42, 0, 1))
    ensures allowed1 && allowed2 && blocked3
  {
    var f := New(parsers, Options(["10.0.0.0/16"], [], true));
    SubnetStoreBuilt(parsers);
    SubnetVerdict(V4Addr(10, 0, 0, 1));
    SubnetVerdict(V4Addr(10, 0, 42, 1));
    SubnetVerdict(V4Addr(10, 42, 0, 1));
    allowed1 := Allowed(parsers, f, "10.0.0.1");
    allowed2 := Allowed(parsers, f, "10.0.42.1");
    blocked3 := Blocked(parsers, f, "10.42.0.1");
  }

  /** The network `10.0.0.0/16`. */
  function Net16(): IPNet {
    RawIPNet(V4, [10, 0, 0, 0], 16)
  }

  /** The store TestSubnetIP builds: one allowing range and a denying default. */
  function SubnetStore(): Filter {
    Filter(false, map[], [Subnet("10.0.0.0/16", Net16(), true)])
  }

  /** `New` builds exactly that store from the options of TestSubnetIP. */
  lemma SubnetStoreBuilt(parsers: Parsers)
    requires parsers.parseCIDR("10.0.0.0/16") == Some(Cidr(V4Addr(10, 0, 0, 0), Net16()))
    ensures New(parsers, Options(["10.0.0.0/16"], [], true)) == SubnetStore()
  {
    var blocked := ApplyAll(parsers, Empty(false), [], false);
    assert blocked == Empty(false);
    assert ApplyAll(parsers, blocked, ["10.0.0.0/16"], true)
        == ApplyAll(parsers, ToggleIP(parsers, blocked, "10.0.0.0/16", true).0, [], true);
  }

  /** `10.0.0.0/16` holds exactly the IPv4 addresses that start with 10.0. */
  lemma Net16Members(a: IP)
    ensures Contains(Net16(), a) <==> a.family == V4 && a.bytes[0] == 10 && a.bytes[1] == 0
  {
    ByteAlignedContains(Net16(), a);
    if a.family == V4 {
      assert a.bytes[..2] == [a.bytes[0], a.bytes[1]];
    }
  }

  /** The store of TestSubnetIP admits exactly the addresses of `10.0.0.0/16`. */
  lemma SubnetVerdict(a: IP)
    ensures Verdict(SubnetStore(), Some(a)) <==> a.family == V4 && a.bytes[0] == 10 && a.bytes[1] == 0
  {
    var f := SubnetStore();
    Net16Members(a);
    if Contains(Net16(), a) {
      assert f.subnets[0].allowed && Contains(f.subnets[0].network, a);
    }
  }

  /**
   TestDynamicList: with no rules everything passes; blocking an address
   at run time keeps it out from then on.
   */
  method DynamicScenario(parsers: Parsers) returns (allowedBefore: bool, recorded: bool, blockedAfter: bool)
    requires parsers.parseCIDR("116.31.116.51") == None
    requires parsers.parseIP("116.31.116.51") == Some(V4Addr(116, 31, 116, 51))
    ensures allowedBefore && recorded && blockedAfter
  {
    var f := New(parsers, Options([], [], false));
    allowedBefore := Allowed(parsers, f, "116.31.116.51");
    var step := BlockIP(parsers, f, "116.31.116.51");
    recorded := step.1;
    blockedAfter := Blocked(parsers, step.0, "116.31.116.51");
  }

  /**
   A /32 is filed as an exact entry, so blocking an enclosing /24 later
   leaves that one address allowed while its neighbours are blocked.
   */
  method SingleHostScenario(parsers: Parsers) returns (hostAllowed: bool, neighbourBlocked: bool)
    requires parsers.parseCIDR("203.0.113.5/32") == Some(Cidr(V4Addr(203, 0, 113, 5), Host5()))
    requires parsers.parseCIDR("203.0.113.0/24") == Some(Cidr(V4Addr(203, 0, 113, 0), Net24()))
    requires parsers.parseIP("203.0.113.5") == Some(V4Addr(203, 0, 113, 5))
    requires parsers.parseIP("203.0.113.6") == Some(V4Addr(203, 0, 113, 6))
    ensures hostAllowed && neighbourBlocked
  {
    var f := New(parsers, Options([], [], false));
    f := AllowIP(parsers, f, "203.0.113.5/32").0;
    f := BlockIP(parsers, f, "203.0.113.0/24").0;
    SingleHostStoreBuilt(parsers);
    SingleHostVerdict(V4Addr(203, 0, 113, 5));
    SingleHostVerdict(V4Addr(203, 0, 113, 6));
    Net24Members(V4Addr(203, 0, 113, 6));
    hostAllowed := Allowed(parsers, f, "203.0.113.5");
    neighbourBlocked := Blocked(parsers, f, "203.0.113.6");
  }

  /** The single-host network `203.0.113.5/32`. */
  function Host5(): IPNet {
    RawIPNet(V4, [203, 0, 113, 5], 32)
  }

  /** The network `203.0.113.0/24`. */
  function Net24(): IPNet {
    RawIPNet(V4, [203, 0, 113, 0], 24)
  }

  /** The store after allowing the /32 and then blocking the /24. */
  function SingleHostStore(): Filter {
    Filter(true, map[V4Addr(203, 0, 113, 5) := true], [Subnet("203.0.113.0/24", Net24(), false)])
  }

  /** The /32 lands in the exact table and the /24 in the range list. */
  lemma SingleHostStoreBuilt(parsers: Parsers)
    requires parsers.parseCIDR("203.0.113.5/32") == Some(Cidr(V4Addr(203, 0, 113, 5), Host5()))
    requires parsers.parseCIDR("203.0.113.0/24") == Some(Cidr(V4Addr(203, 0, 113, 0), Net24()))
    ensures
      var f := New(parsers, Options([], [], false));
      var g := AllowIP(parsers, f, "203.0.113.5/32").0;
      BlockIP(parsers, g, "203.0.113.0/24").0 == SingleHostStore()
  {
    var f := New(parsers, Options([], [], false));
    assert f == Empty(true);
  }

  /** `203.0.113.0/24` holds exactly the IPv4 addresses that start with 203.0.113. */
  lemma Net24Members(a: IP)
    ensures Contains(Net24(), a) <==> a.family == V4 && a.bytes[0] == 203 && a.bytes[1] == 0 && a.bytes[2] == 113
  {
    ByteAlignedContains(Net24(), a);
    if a.family == V4 {
      assert a.bytes[..3] == [a.bytes[0], a.bytes[1], a.bytes[2]];
    }
  }

  /** That store admits the /32's address and every address outside the /24, and nothing else. */
  lemma SingleHostVerdict(a: IP)
    ensures Verdict(SingleHostStore(), Some(a)) <==> a == V4Addr(203, 0, 113, 5) || !Contains(Net24(), a)
  {
    var h := SingleHostStore();
    if a != V4Addr(203, 0, 113, 5) && Contains(Net24(), a) {
      assert Contains(h.subnets[0].network, a);
    }
  }
}
