/**
 Properties relating the store transitions of ipfiltering.go to its
 decision: what a range rule does to the addresses it covers and to the
 others, that the last write to a spec wins, and what `New` promises about
 its two lists.
 */
module FilterProperties {
  import opened Wrappers
  import opened Net
  import opened IpFiltering

  /** Some range rule registered under a spec other than `s` allows `a`. */
  predicate OtherAllows(subnets: seq<Subnet>, s: string, a: IP) {
    exists i | 0 <= i < |subnets| :: subnets[i].str != s && subnets[i].allowed && Contains(subnets[i].network, a)
  }

  /**
   `after` is `before` with only entry `k` written: the entry registered
   under the same spec string, or a new last one.
   */
  predicate WrittenAt(before: seq<Subnet>, after: seq<Subnet>, k: nat, entry: Subnet) {
    && k <= |before|
    && |after| == (if k == |before| then |before| + 1 else |before|)
    && after[k] == entry
    && forall i | 0 <= i < |after| && i != k :: after[i] == before[i] && before[i].str != entry.str
  }

  /** Recording a range spec in a valid store writes a single entry and no exact one. */
  lemma ToggleRangeShape(parsers: Parsers, f: Filter, s: string, allowed: bool)
    requires Valid(parsers, f) && Classify(parsers, s).RangeRule?
    ensures var r := ToggleIP(parsers, f, s, allowed).0;
      && r.ips == f.ips
      && exists k: nat :: WrittenAt(f.subnets, r.subnets, k, Subnet(s, Classify(parsers, s).network, allowed))
  {
    var subs := f.subnets;
    var r := ToggleIP(parsers, f, s, allowed).0;
    var entry := Subnet(s, Classify(parsers, s).network, allowed);
    assert r.subnets == Upsert(subs, s, entry.network, allowed);
    if HasSubnet(subs, s) {
      var k :| 0 <= k < |subs| && subs[k].str == s;
      assert IsFirst(subs, s, k);
      assert subs[k].network == entry.network by {
        assert Classify(parsers, subs[k].str) == RangeRule(subs[k].network);
      }
      forall i | 0 <= i < |subs| && i != k
        ensures r.subnets[i] == subs[i] && subs[i].str != s
      {
        assert !IsFirst(subs, s, i);
      }
      assert WrittenAt(subs, r.subnets, k, entry);
    } else {
      assert WrittenAt(subs, r.subnets, |subs|, entry);
    }
  }

  /**
   After a range rule is recorded, an address it covers and that has no
   exact entry is allowed exactly when the new verdict is allow or some other
   range rule allows it: the rule's earlier verdict no longer matters.
   */
  lemma ToggleRangeCovered(parsers: Parsers, f: Filter, s: string, allowed: bool, a: IP)
    requires Valid(parsers, f)
    requires Classify(parsers, s).RangeRule?
    requires Contains(Classify(parsers, s).network, a) && a !in f.ips
    ensures Verdict(ToggleIP(parsers, f, s, allowed).0, Some(a)) <==> allowed || OtherAllows(f.subnets, s, a)
  {
    var subs := f.subnets;
    var r := ToggleIP(parsers, f, s, allowed).0.subnets;
    ToggleRangeShape(parsers, f, s, allowed);
    var k: nat :| WrittenAt(subs, r, k, Subnet(s, Classify(parsers, s).network, allowed));
    assert AnyMatch(r, a) by {
      assert Contains(r[k].network, a);
    }
    if OtherAllows(subs, s, a) {
      var i :| 0 <= i < |subs| && subs[i].str != s && subs[i].allowed && Contains(subs[i].network, a);
      assert i != k && r[i] == subs[i];
    }
    if AllowMatch(r, a) && !allowed {
      var i :| 0 <= i < |r| && r[i].allowed && Contains(r[i].network, a);
      assert i != k && r[i] == subs[i];
    }
  }

  /**
   Recording a range rule changes the verdict of no address outside its
   network.
   */
  lemma ToggleRangeOutside(parsers: Parsers, f: Filter, s: string, allowed: bool, a: IP)
    requires Valid(parsers, f)
    requires Classify(parsers, s).RangeRule?
    requires !Contains(Classify(parsers, s).network, a)
    ensures Verdict(ToggleIP(parsers, f, s, allowed).0, Some(a)) == Verdict(f, Some(a))
  {
    var subs := f.subnets;
    var r := ToggleIP(parsers, f, s, allowed).0.subnets;
    var entry := Subnet(s, Classify(parsers, s).network, allowed);
    ToggleRangeShape(parsers, f, s, allowed);
    var k: nat :| WrittenAt(subs, r, k, entry);
    if k < |subs| {
      assert subs[k].network == entry.network by {
        assert Classify(parsers, subs[k].str) == RangeRule(subs[k].network);
      }
    }
    WriteOutsideKeepsMatches(subs, r, k, entry, a);
  }

  /** Rewriting one entry whose network misses `a` leaves every match of `a` as it was. */
  lemma WriteOutsideKeepsMatches(before: seq<Subnet>, after: seq<Subnet>, k: nat, entry: Subnet, a: IP)
    requires WrittenAt(before, after, k, entry) && !Contains(entry.network, a)
    requires k < |before| ==> before[k].network == entry.network
    ensures AllowMatch(after, a) == AllowMatch(before, a)
    ensures AnyMatch(after, a) == AnyMatch(before, a)
  {
    if AllowMatch(before, a) {
      var i :| 0 <= i < |before| && before[i].allowed && Contains(before[i].network, a);
      assert after[i] == before[i];
    }
    if AnyMatch(before, a) {
      var i :| 0 <= i < |before| && Contains(before[i].network, a);
      assert after[i] == before[i];
    }
    if AllowMatch(after, a) {
      var i :| 0 <= i < |after| && after[i].allowed && Contains(after[i].network, a);
      assert i != k && after[i] == before[i];
    }
    if AnyMatch(after, a) {
      var i :| 0 <= i < |after| && Contains(after[i].network, a);
      assert i != k && after[i] == before[i];
    }
  }

  /** Two updates of the same spec string leave what the second alone leaves. */
  lemma {:induction false} UpsertTwice(subnets: seq<Subnet>, s: string, network: IPNet, first: bool, second: bool)
    ensures Upsert(Upsert(subnets, s, network, first), s, network, second) == Upsert(subnets, s, network, second)
  {
    if subnets != [] && subnets[0].str != s {
      UpsertTwice(subnets[1..], s, network, first, second);
    }
  }

  /**
   The last verdict recorded for a spec wins: toggling `s` twice gives the
   store (and the result) of toggling it once with the second verdict. With
   equal verdicts this is idempotence.
   */
  lemma ToggleLastWins(parsers: Parsers, f: Filter, s: string, first: bool, second: bool)
    ensures ToggleIP(parsers, ToggleIP(parsers, f, s, first).0, s, second) == ToggleIP(parsers, f, s, second)
  {
    match Classify(parsers, s)
    case ExactRule(a) =>
      assert f.ips[a := first][a := second] == f.ips[a := second];
    case RangeRule(n) =>
      UpsertTwice(f.subnets, s, n, first, second);
    case NoRule =>
  }

  /**
   A spec that parses as a CIDR is recorded by what the CIDR denotes: a
   single-host network goes to the exact table under its address, any other
   network is written to the range list under the spec string.
   */
  lemma ToggleCidr(parsers: Parsers, f: Filter, s: string, c: Cidr, allowed: bool)
    requires parsers.parseCIDR(s) == Some(c)
    ensures SingleHost(c.network) ==> ToggleIP(parsers, f, s, allowed) == (f.(ips := f.ips[c.ip := allowed]), true)
    ensures !SingleHost(c.network) ==>
      ToggleIP(parsers, f, s, allowed) == (f.(subnets := Upsert(f.subnets, s, c.network, allowed)), true)
  {
  }

  /**
   An address recorded exactly keeps its verdict when a range is recorded
   afterwards, even one that contains it: the exact table is consulted first.
   */
  lemma ExactSurvivesRange(parsers: Parsers, f: Filter, s: string, t: string, v: bool, w: bool)
    requires Classify(parsers, s).ExactRule? && Classify(parsers, t).RangeRule?
    ensures
      var g := ToggleIP(parsers, f, s, v).0;
      Verdict(ToggleIP(parsers, g, t, w).0, Some(Classify(parsers, s).addr)) == v
  {
  }

  /** An exact entry that already holds the verdict being applied survives the whole list. */
  lemma {:induction false} ApplyAllKeepsExact(parsers: Parsers, f: Filter, specs: seq<string>, allowed: bool, a: IP)
    requires a in f.ips && f.ips[a] == allowed
    ensures var r := ApplyAll(parsers, f, specs, allowed); a in r.ips && r.ips[a] == allowed
    decreases |specs|
  {
    if specs != [] {
      var g := ToggleIP(parsers, f, specs[0], allowed).0;
      assert a in g.ips && g.ips[a] == allowed;
      ApplyAllKeepsExact(parsers, g, specs[1..], allowed, a);
    }
  }

  /** Every exact spec of the list ends up with the list's verdict. */
  lemma {:induction false} ApplyAllWritesExact(parsers: Parsers, f: Filter, specs: seq<string>, allowed: bool, s: string)
    requires s in specs && Classify(parsers, s).ExactRule?
    ensures var r := ApplyAll(parsers, f, specs, allowed); var a := Classify(parsers, s).addr;
      a in r.ips && r.ips[a] == allowed
    decreases |specs|
  {
    var g := ToggleIP(parsers, f, specs[0], allowed).0;
    if specs[0] == s {
      ApplyAllKeepsExact(parsers, g, specs[1..], allowed, Classify(parsers, s).addr);
    } else {
      ApplyAllWritesExact(parsers, g, specs[1..], allowed, s);
    }
  }

  /** An address no spec of the list names keeps its exact entry, or its lack of one. */
  lemma {:induction false} ApplyAllKeepsUnnamed(parsers: Parsers, f: Filter, specs: seq<string>, allowed: bool, a: IP)
    requires forall t | t in specs :: Classify(parsers, t) != ExactRule(a)
    ensures var r := ApplyAll(parsers, f, specs, allowed);
      (a in r.ips <==> a in f.ips) && (a in f.ips ==> r.ips[a] == f.ips[a])
    decreases |specs|
  {
    if specs != [] {
      var g := ToggleIP(parsers, f, specs[0], allowed).0;
      assert (a in g.ips <==> a in f.ips) && (a in f.ips ==> g.ips[a] == f.ips[a]);
      ApplyAllKeepsUnnamed(parsers, g, specs[1..], allowed, a);
    }
  }

  /** A range rule that already holds the verdict being applied keeps its place and its contents. */
  lemma {:induction false} ApplyAllKeepsRange(parsers: Parsers, f: Filter, specs: seq<string>, allowed: bool, i: nat)
    requires i < |f.subnets| && f.subnets[i].allowed == allowed
    ensures var r := ApplyAll(parsers, f, specs, allowed); i < |r.subnets| && r.subnets[i] == f.subnets[i]
    decreases |specs|
  {
    if specs != [] {
      var g := ToggleIP(parsers, f, specs[0], allowed).0;
      assert i < |g.subnets| && g.subnets[i] == f.subnets[i];
      ApplyAllKeepsRange(parsers, g, specs[1..], allowed, i);
    }
  }

  /** Every range spec of the list ends up as a range rule with the list's verdict. */
  lemma {:induction false} ApplyAllWritesRange(parsers: Parsers, f: Filter, specs: seq<string>, allowed: bool, s: string)
    requires Valid(parsers, f) && s in specs && Classify(parsers, s).RangeRule?
    ensures var r := ApplyAll(parsers, f, specs, allowed);
      exists k | 0 <= k < |r.subnets| :: r.subnets[k] == Subnet(s, Classify(parsers, s).network, allowed)
    decreases |specs|
  {
    var g := ToggleIP(parsers, f, specs[0], allowed).0;
    var entry := Subnet(s, Classify(parsers, s).network, allowed);
    var r := ApplyAll(parsers, g, specs[1..], allowed);
    assert r == ApplyAll(parsers, f, specs, allowed);
    if specs[0] == s {
      ToggleRangeShape(parsers, f, s, allowed);
      var k: nat :| WrittenAt(f.subnets, g.subnets, k, entry);
      ApplyAllKeepsRange(parsers, g, specs[1..], allowed, k);
      assert r.subnets[k] == entry;
    } else {
      assert Valid(parsers, g);
      ApplyAllWritesRange(parsers, g, specs[1..], allowed, s);
    }
  }

  /** Applying a list in two parts is applying it whole. */
  lemma {:induction false} ApplyAllConcat(parsers: Parsers, f: Filter, xs: seq<string>, ys: seq<string>, allowed: bool)
    ensures ApplyAll(parsers, f, xs + ys, allowed) == ApplyAll(parsers, ApplyAll(parsers, f, xs, allowed), ys, allowed)
    decreases |xs|
  {
    if xs != [] {
      assert (xs + ys)[0] == xs[0] && (xs + ys)[1..] == xs[1..] + ys;
      ApplyAllConcat(parsers, ToggleIP(parsers, f, xs[0], allowed).0, xs[1..], ys, allowed);
    } else {
      assert xs + ys == ys;
    }
  }

  /** A spec that parses neither as a CIDR nor as an address is skipped wherever it stands. */
  lemma ApplyAllSkipsUnparsable(parsers: Parsers, f: Filter, xs: seq<string>, s: string, ys: seq<string>, allowed: bool)
    requires Classify(parsers, s).NoRule?
    ensures ApplyAll(parsers, f, xs + [s] + ys, allowed) == ApplyAll(parsers, f, xs + ys, allowed)
  {
    var g := ApplyAll(parsers, f, xs, allowed);
    ApplyAllConcat(parsers, f, xs, [s] + ys, allowed);
    assert xs + [s] + ys == xs + ([s] + ys);
    assert ([s] + ys)[0] == s && ([s] + ys)[1..] == ys;
    assert ApplyAll(parsers, g, [s] + ys, allowed) == ApplyAll(parsers, g, ys, allowed);
    ApplyAllConcat(parsers, f, xs, ys, allowed);
  }

  /** `New` ignores an unparsable entry of either list. */
  lemma NewSkipsUnparsable(parsers: Parsers, opts: Options, xs: seq<string>, s: string, ys: seq<string>)
    requires Classify(parsers, s).NoRule?
    ensures New(parsers, opts.(allowedIPs := xs + [s] + ys)) == New(parsers, opts.(allowedIPs := xs + ys))
    ensures New(parsers, opts.(blockedIPs := xs + [s] + ys)) == New(parsers, opts.(blockedIPs := xs + ys))
  {
    var d := !opts.blockByDefault;
    ApplyAllSkipsUnparsable(parsers, ApplyAll(parsers, Empty(d), opts.blockedIPs, false), xs, s, ys, true);
    ApplyAllSkipsUnparsable(parsers, Empty(d), xs, s, ys, false);
  }

  /** An address on the allow list is allowed, whatever the block list says. */
  lemma NewAllowsExact(parsers: Parsers, opts: Options, s: string)
    requires s in opts.allowedIPs && Classify(parsers, s).ExactRule?
    ensures Verdict(New(parsers, opts), Some(Classify(parsers, s).addr))
  {
    var blocked := ApplyAll(parsers, Empty(!opts.blockByDefault), opts.blockedIPs, false);
    ApplyAllWritesExact(parsers, blocked, opts.allowedIPs, true, s);
  }

  /**
   A range on the allow list allows every address it covers that has no
   exact entry, whatever the block list says.
   */
  lemma NewAllowsRange(parsers: Parsers, opts: Options, s: string, a: IP)
    requires s in opts.allowedIPs && Classify(parsers, s).RangeRule?
    requires Contains(Classify(parsers, s).network, a) && a !in New(parsers, opts).ips
    ensures Verdict(New(parsers, opts), Some(a))
  {
    var blocked := ApplyAll(parsers, Empty(!opts.blockByDefault), opts.blockedIPs, false);
    ApplyAllWritesRange(parsers, blocked, opts.allowedIPs, true, s);
    var subs := New(parsers, opts).subnets;
    var k :| 0 <= k < |subs| && subs[k] == Subnet(s, Classify(parsers, s).network, true);
    assert subs[k].allowed && Contains(subs[k].network, a);
  }

  /** An address on the block list that no allow-list entry names exactly is blocked. */
  lemma NewBlocksExact(parsers: Parsers, opts: Options, s: string)
    requires s in opts.blockedIPs && Classify(parsers, s).ExactRule?
    requires forall t | t in opts.allowedIPs :: Classify(parsers, t) != Classify(parsers, s)
    ensures !Verdict(New(parsers, opts), Some(Classify(parsers, s).addr))
  {
    var a := Classify(parsers, s).addr;
    var blocked := ApplyAll(parsers, Empty(!opts.blockByDefault), opts.blockedIPs, false);
    ApplyAllWritesExact(parsers, Empty(!opts.blockByDefault), opts.blockedIPs, false, s);
    ApplyAllKeepsUnnamed(parsers, blocked, opts.allowedIPs, true, a);
  }
}
