/**
 The address classifier of ipfiltering.go: a rule store made of an
 exact-address table, an insertion-ordered list of range rules and a default
 verdict, the operations that change it, and the allow/deny decision.

 The store is an immutable value; every Go method that mutates the receiver
 is a function returning the new store (and, for `ToggleIP`, Go's boolean
 result beside it). The parsers of Go's `net` package arrive as a `Parsers`
 value.
 */
module IpFiltering {
  import opened Wrappers
  import opened Net

  /** One range rule (Go's `subnet`): the spec string it was registered under, its network and its verdict. */
  datatype Subnet = Subnet(str: string, network: IPNet, allowed: bool)

  /** The rule store (Go's `IpFiltering`); `true` in `ips` means allowed. */
  datatype Filter = Filter(defaultAllowed: bool, ips: map<IP, bool>, subnets: seq<Subnet>)

  /** The configuration `New` reads (Go's `Options` without its logger). */
  datatype Options = Options(allowedIPs: seq<string>, blockedIPs: seq<string>, blockByDefault: bool)

  /** What a rule spec denotes once parsed, in the order `ToggleIP` tries the parsers. */
  datatype Rule = ExactRule(addr: IP) | RangeRule(network: IPNet) | NoRule

  /**
   How `ToggleIP` reads a spec: a CIDR first, filed as an exact address when
   its mask covers the whole address, else as a range; otherwise a plain
   address; otherwise nothing.
   */
  function Classify(parsers: Parsers, s: string): (r: Rule)
    ensures r.NoRule? <==> parsers.parseCIDR(s).None? && parsers.parseIP(s).None?
    ensures r.RangeRule? ==> !SingleHost(r.network) && parsers.parseCIDR(s).Some?
    ensures r.ExactRule? && parsers.parseCIDR(s).None? ==> parsers.parseIP(s) == Some(r.addr)
    ensures parsers.parseCIDR(s).Some? && SingleHost(parsers.parseCIDR(s).value.network) ==>
      r == ExactRule(parsers.parseCIDR(s).value.ip)
    ensures parsers.parseCIDR(s).Some? && !SingleHost(parsers.parseCIDR(s).value.network) ==>
      r == RangeRule(parsers.parseCIDR(s).value.network)
  {
    match parsers.parseCIDR(s)
    case Some(c) =>
      if SingleHost(c.network) then ExactRule(c.ip) else RangeRule(c.network)
    case None =>
      match parsers.parseIP(s)
      case Some(a) => ExactRule(a)
      case None => NoRule
  }

  /** Some range rule was registered under spec string `s`. */
  predicate HasSubnet(subnets: seq<Subnet>, s: string) {
    exists i | 0 <= i < |subnets| :: subnets[i].str == s
  }

  /** Entry `i` is the first one registered under `s`. */
  predicate IsFirst(subnets: seq<Subnet>, s: string, i: nat)
    requires i < |subnets|
  {
    subnets[i].str == s && forall j | 0 <= j < i :: subnets[j].str != s
  }

  /**
   The insert-or-update of a range rule: the first entry registered under
   the same spec string gets the new verdict and keeps its place and its
   network; without one, a new entry goes to the end.
   */
  function Upsert(subnets: seq<Subnet>, s: string, network: IPNet, allowed: bool): (r: seq<Subnet>)
    ensures !HasSubnet(subnets, s) ==> r == subnets + [Subnet(s, network, allowed)]
    ensures HasSubnet(subnets, s) ==>
      && |r| == |subnets|
      && forall i | 0 <= i < |subnets| ::
           r[i] == if IsFirst(subnets, s, i) then subnets[i].(allowed := allowed) else subnets[i]
  {
    if subnets == [] then
      [Subnet(s, network, allowed)]
    else if subnets[0].str == s then
      [subnets[0].(allowed := allowed)] + subnets[1..]
    else
      [subnets[0]] + Upsert(subnets[1..], s, network, allowed)
  }

  /** Some range rule containing `a` is an allow rule. */
  predicate AllowMatch(subnets: seq<Subnet>, a: IP) {
    exists i | 0 <= i < |subnets| :: subnets[i].allowed && Contains(subnets[i].network, a)
  }

  /** Some range rule contains `a`. */
  predicate AnyMatch(subnets: seq<Subnet>, a: IP) {
    exists i | 0 <= i < |subnets| :: Contains(subnets[i].network, a)
  }

  /**
   The decision rule the filter promises, stated without its loop: an
   address that did not parse is denied; an exact entry decides alone;
   otherwise an allowing range wins over any blocking range, a blocking
   range alone denies, and with no range at all the default applies.
   */
  function Verdict(f: Filter, ip: Option<IP>): bool {
    match ip
    case None => false
    case Some(a) =>
      if a in f.ips then f.ips[a]
      else if AllowMatch(f.subnets, a) then true
      else if AnyMatch(f.subnets, a) then false
      else f.defaultAllowed
  }

  /**
   The store invariant every reachable store keeps: spec strings of range
   rules are unique, and each range rule holds the multi-address network its
   spec string parses to.
   */
  predicate Valid(parsers: Parsers, f: Filter) {
    && (forall i, j | 0 <= i < j < |f.subnets| :: f.subnets[i].str != f.subnets[j].str)
    && (forall i | 0 <= i < |f.subnets| :: Classify(parsers, f.subnets[i].str) == RangeRule(f.subnets[i].network))
  }

  /**
   Go's `ToggleIP`: records `s` with verdict `allowed` and reports whether
   `s` parsed at all.
   */
  function ToggleIP(parsers: Parsers, f: Filter, s: string, allowed: bool): (r: (Filter, bool))
    ensures r.1 <==> parsers.parseCIDR(s).Some? || parsers.parseIP(s).Some?
    ensures !r.1 ==> r.0 == f
    ensures r.0.defaultAllowed == f.defaultAllowed
    ensures Valid(parsers, f) ==> Valid(parsers, r.0)
    ensures Classify(parsers, s).ExactRule? ==>
      && r.0.subnets == f.subnets
      && r.0.ips == f.ips[Classify(parsers, s).addr := allowed]
      && Verdict(r.0, Some(Classify(parsers, s).addr)) == allowed
      && forall b :: b != Classify(parsers, s).addr ==> Verdict(r.0, Some(b)) == Verdict(f, Some(b))
    ensures Classify(parsers, s).RangeRule? ==>
      && r.0.ips == f.ips
      && |f.subnets| <= |r.0.subnets| <= |f.subnets| + 1
      && forall b :: b in f.ips ==> Verdict(r.0, Some(b)) == f.ips[b]
  {
    match Classify(parsers, s)
    case ExactRule(a) => (f.(ips := f.ips[a := allowed]), true)
    case RangeRule(n) => (f.(subnets := Upsert(f.subnets, s, n, allowed)), true)
    case NoRule => (f, false)
  }

  /** Go's `AllowIP`. */
  function AllowIP(parsers: Parsers, f: Filter, s: string): (r: (Filter, bool))
    ensures r.1 <==> !Classify(parsers, s).NoRule?
    ensures Classify(parsers, s).ExactRule? ==> Verdict(r.0, Some(Classify(parsers, s).addr))
  {
    ToggleIP(parsers, f, s, true)
  }

  /** Go's `BlockIP`. */
  function BlockIP(parsers: Parsers, f: Filter, s: string): (r: (Filter, bool))
    ensures r.1 <==> !Classify(parsers, s).NoRule?
    ensures Classify(parsers, s).ExactRule? ==> !Verdict(r.0, Some(Classify(parsers, s).addr))
  {
    ToggleIP(parsers, f, s, false)
  }

  /**
   Go's `ToggleDefault`: only addresses that no rule mentions change their
   verdict, and they take the new default.
   */
  function ToggleDefault(f: Filter, allowed: bool): (r: Filter)
    ensures r.ips == f.ips && r.subnets == f.subnets
    ensures forall a :: a !in f.ips && !AnyMatch(f.subnets, a) ==> Verdict(r, Some(a)) == allowed
    ensures forall a :: a in f.ips || AnyMatch(f.subnets, a) ==> Verdict(r, Some(a)) == Verdict(f, Some(a))
  {
    f.(defaultAllowed := allowed)
  }

  /** One of `New`'s loops: `ToggleIP` on every spec in order, results ignored. */
  function ApplyAll(parsers: Parsers, f: Filter, specs: seq<string>, allowed: bool): (r: Filter)
    ensures r.defaultAllowed == f.defaultAllowed
    ensures Valid(parsers, f) ==> Valid(parsers, r)
    decreases |specs|
  {
    if specs == [] then f
    else ApplyAll(parsers, ToggleIP(parsers, f, specs[0], allowed).0, specs[1..], allowed)
  }

  /** The store with no rules. */
  function Empty(defaultAllowed: bool): Filter {
    Filter(defaultAllowed, map[], [])
  }

  /** Go's `New`: block list first, allow list second, default from `BlockByDefault`. */
  function New(parsers: Parsers, opts: Options): (f: Filter)
    ensures f.defaultAllowed == !opts.blockByDefault
    ensures Valid(parsers, f)
    ensures opts.allowedIPs == [] && opts.blockedIPs == [] ==>
      forall a :: Verdict(f, Some(a)) == !opts.blockByDefault
  {
    var blocked := ApplyAll(parsers, Empty(!opts.blockByDefault), opts.blockedIPs, false);
    ApplyAll(parsers, blocked, opts.allowedIPs, true)
  }

  /**
   Go's `NetAllowed`: the exact table first, then one pass over every range
   rule that stops at the first allowing match.
   */
  method NetAllowed(f: Filter, ip: Option<IP>) returns (allowed: bool)
    ensures allowed == Verdict(f, ip)
    ensures ip.None? ==> !allowed
    ensures ip.Some? && ip.value in f.ips ==> allowed == f.ips[ip.value]
    ensures ip.Some? && ip.value !in f.ips ==>
      (allowed <==> AllowMatch(f.subnets, ip.value) || (!AnyMatch(f.subnets, ip.value) && f.defaultAllowed))
  {
    if ip.None? {
      return false;
    }
    var a := ip.value;
    if a in f.ips {
      return f.ips[a];
    }
    var blocked := false;
    var i := 0;
    while i < |f.subnets|
      invariant 0 <= i <= |f.subnets|
      invariant forall j | 0 <= j < i :: !(f.subnets[j].allowed && Contains(f.subnets[j].network, a))
      invariant blocked <==> exists j | 0 <= j < i :: Contains(f.subnets[j].network, a)
    {
      var sn := f.subnets[i];
      if Contains(sn.network, a) {
        if sn.allowed {
          return true;
        }
        blocked := true;
      }
      i := i + 1;
    }
    if blocked {
      return false;
    }
    return f.defaultAllowed;
  }

  /** Go's `Allowed`: parse, then decide; text that is no address is denied. */
  method Allowed(parsers: Parsers, f: Filter, s: string) returns (allowed: bool)
    ensures allowed == Verdict(f, parsers.parseIP(s))
    ensures parsers.parseIP(s).None? ==> !allowed
  {
    allowed := NetAllowed(f, parsers.parseIP(s));
  }

  /** Go's `Blocked`: exactly the addresses `Allowed` refuses. */
  method Blocked(parsers: Parsers, f: Filter, s: string) returns (blocked: bool)
    ensures blocked == !Verdict(f, parsers.parseIP(s))
    ensures parsers.parseIP(s).None? ==> blocked
  {
    var allowed := Allowed(parsers, f, s);
    blocked := !allowed;
  }

  /** Go's `NetBlocked`: exactly the addresses `NetAllowed` refuses. */
  method NetBlocked(f: Filter, ip: Option<IP>) returns (blocked: bool)
    ensures blocked == !Verdict(f, ip)
  {
    var allowed := NetAllowed(f, ip);
    blocked := !allowed;
  }
}
