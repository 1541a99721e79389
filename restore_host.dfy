/** pkg/backup/engine.go, Restore: the changes made in place to the
    container's HostConfig before it is created. Port bindings whose host
    address is not on this host are dropped, the safe-mode options drop
    devices, capabilities and security options, bind sources that are gone
    are moved under a restore root, and a preferred host IP is pinned on
    every binding. The host's addresses, its interfaces and which paths
    exist are parameters. */
module RestoreHost {
  import opened Wrappers
  import opened Strs
  import opened Lex
  import opened Paths
  import opened DockerTypes
  import opened Options

  /** nat.PortBinding. */
  datatype PortBinding = PortBinding(hostIP: string, hostPort: string)

  // ---------------------------------------------------------------------
  // Port bindings whose host address is gone

  /** What the filter makes of one binding: a binding without a host IP, or
      any binding when DropHostIPs is set, is kept with no host IP; any
      other is kept as it is when its host IP is on this host. */
  function Keep(b: PortBinding, present: set<string>, dropHostIPs: bool): Option<PortBinding> {
    if b.hostIP == "" || dropHostIPs then Some(b.(hostIP := ""))
    else if b.hostIP in present then Some(b)
    else None
  }

  /** The bindings of one port after the filter. */
  function Kept(bs: seq<PortBinding>, present: set<string>, dropHostIPs: bool): seq<PortBinding> {
    if bs == [] then []
    else
      var front := Kept(bs[..|bs| - 1], present, dropHostIPs);
      match Keep(bs[|bs| - 1], present, dropHostIPs)
      case Some(b) => front + [b]
      case None => front
  }

  /** The positions of the bindings the filter keeps, in order. */
  function KeptAt(bs: seq<PortBinding>, present: set<string>, dropHostIPs: bool): seq<nat> {
    if bs == [] then []
    else
      var n := |bs| - 1;
      var front := KeptAt(bs[..n], present, dropHostIPs);
      if Keep(bs[n], present, dropHostIPs).Some? then front + [n] else front
  }

  /** The positions KeptAt gives are increasing, every binding the filter
      admits is among them, and each kept binding is made from the one at
      its position. So the filter keeps an order-preserving subsequence and
      drops only what Keep refuses. */
  lemma {:induction false} KeptAtSpec(bs: seq<PortBinding>, present: set<string>, dropHostIPs: bool)
    ensures |KeptAt(bs, present, dropHostIPs)| == |Kept(bs, present, dropHostIPs)|
    ensures forall i :: 0 <= i < |KeptAt(bs, present, dropHostIPs)| ==>
              KeptAt(bs, present, dropHostIPs)[i] < |bs|
              && Keep(bs[KeptAt(bs, present, dropHostIPs)[i]], present, dropHostIPs) == Some(Kept(bs, present, dropHostIPs)[i])
    ensures Increasing(KeptAt(bs, present, dropHostIPs))
    ensures forall j :: 0 <= j < |bs| && Keep(bs[j], present, dropHostIPs).Some? ==> j in KeptAt(bs, present, dropHostIPs)
    decreases |bs|
  {
    if bs != [] {
      var n := |bs| - 1;
      var p := bs[..n];
      KeptAtSpec(p, present, dropHostIPs);
      KeptAtStep(bs, present, dropHostIPs);
    }
  }

  predicate Increasing(idx: seq<nat>) {
    forall i, j :: 0 <= i < j < |idx| ==> idx[i] < idx[j]
  }

  /** KeptAtSpec for a non-empty sequence, given it for the front. */
  lemma KeptAtStep(bs: seq<PortBinding>, present: set<string>, dropHostIPs: bool)
    requires bs != []
    requires var p := bs[..|bs| - 1];
      && |KeptAt(p, present, dropHostIPs)| == |Kept(p, present, dropHostIPs)|
      && (forall i :: 0 <= i < |KeptAt(p, present, dropHostIPs)| ==>
            KeptAt(p, present, dropHostIPs)[i] < |p|
            && Keep(p[KeptAt(p, present, dropHostIPs)[i]], present, dropHostIPs) == Some(Kept(p, present, dropHostIPs)[i]))
      && Increasing(KeptAt(p, present, dropHostIPs))
      && (forall j :: 0 <= j < |p| && Keep(p[j], present, dropHostIPs).Some? ==> j in KeptAt(p, present, dropHostIPs))
    ensures |KeptAt(bs, present, dropHostIPs)| == |Kept(bs, present, dropHostIPs)|
    ensures forall i :: 0 <= i < |KeptAt(bs, present, dropHostIPs)| ==>
              KeptAt(bs, present, dropHostIPs)[i] < |bs|
              && Keep(bs[KeptAt(bs, present, dropHostIPs)[i]], present, dropHostIPs) == Some(Kept(bs, present, dropHostIPs)[i])
    ensures Increasing(KeptAt(bs, present, dropHostIPs))
    ensures forall j :: 0 <= j < |bs| && Keep(bs[j], present, dropHostIPs).Some? ==> j in KeptAt(bs, present, dropHostIPs)
  {
    var n := |bs| - 1;
    var p := bs[..n];
    var front := KeptAt(p, present, dropHostIPs);
    var kf := Kept(p, present, dropHostIPs);
    assert forall j :: 0 <= j < n ==> p[j] == bs[j];
    match Keep(bs[n], present, dropHostIPs)
    case Some(b) =>
      assert KeptAt(bs, present, dropHostIPs) == front + [n];
      assert Kept(bs, present, dropHostIPs) == kf + [b];
    case None =>
      assert KeptAt(bs, present, dropHostIPs) == front;
      assert Kept(bs, present, dropHostIPs) == kf;
  }

  /** The in-place filter of one port's bindings (`filtered := bindings[:0]`):
      the kept bindings are written over the front of the array, and their
      number is returned. */
  method FilterBindings(a: array<PortBinding>, present: set<string>, dropHostIPs: bool) returns (k: nat)
    modifies a
    ensures k <= a.Length && a[..k] == Kept(old(a[..]), present, dropHostIPs)
  {
    ghost var orig := a[..];
    k := 0;
    for i := 0 to a.Length
      invariant k <= i
      invariant forall j :: i <= j < a.Length ==> a[j] == orig[j]
      invariant a[..k] == Kept(orig[..i], present, dropHostIPs)
    {
      var b := a[i];
      assert b == orig[i];
      ghost var front := a[..k];
      KeptStep(orig, i, present, dropHostIPs);
      if b.hostIP == "" || dropHostIPs {
        b := b.(hostIP := "");
        a[k] := b;
        k := k + 1;
        assert a[..k] == front + [b];
        continue;
      }
      if b.hostIP in present {
        a[k] := b;
        k := k + 1;
        assert a[..k] == front + [b];
      }
    }
    assert orig[..a.Length] == orig;
  }

  lemma KeptStep(bs: seq<PortBinding>, i: nat, present: set<string>, dropHostIPs: bool)
    requires i < |bs|
    ensures Kept(bs[..i + 1], present, dropHostIPs)
            == Kept(bs[..i], present, dropHostIPs) + KeptOne(bs[i], present, dropHostIPs)
  {
    assert bs[..i + 1][..i] == bs[..i];
  }

  /** The binding Keep makes of `b`, as a sequence of at most one. */
  function KeptOne(b: PortBinding, present: set<string>, dropHostIPs: bool): seq<PortBinding> {
    match Keep(b, present, dropHostIPs)
    case Some(c) => [c]
    case None => []
  }

  /** With DropHostIPs every binding stays, without its host IP. */
  lemma {:induction false} DropHostIPsKeepsAll(bs: seq<PortBinding>, present: set<string>)
    ensures |Kept(bs, present, true)| == |bs|
    ensures forall i :: 0 <= i < |bs| ==> Kept(bs, present, true)[i] == bs[i].(hostIP := "")
  {
    if bs != [] {
      DropHostIPsKeepsAll(bs[..|bs| - 1], present);
    }
  }

  /** When every host IP is empty or on this host, nothing changes. */
  lemma {:induction false} AllPresentUnchanged(bs: seq<PortBinding>, present: set<string>)
    requires forall i :: 0 <= i < |bs| ==> bs[i].hostIP == "" || bs[i].hostIP in present
    ensures Kept(bs, present, false) == bs
  {
    if bs != [] {
      AllPresentUnchanged(bs[..|bs| - 1], present);
      assert bs[..|bs| - 1] + [bs[|bs| - 1]] == bs;
    }
  }

  /** Without DropHostIPs a binding survives exactly when its host IP is
      empty or on this host. */
  lemma KeptIff(bs: seq<PortBinding>, present: set<string>, b: PortBinding)
    ensures b in Kept(bs, present, false) <==> b in bs && (b.hostIP == "" || b.hostIP in present)
  {
    var r := Kept(bs, present, false);
    var idx := KeptAt(bs, present, false);
    KeptAtSpec(bs, present, false);
    if b in r {
      var i :| 0 <= i < |r| && r[i] == b;
      assert Keep(bs[idx[i]], present, false) == Some(b);
    }
    if b in bs && (b.hostIP == "" || b.hostIP in present) {
      var j :| 0 <= j < |bs| && bs[j] == b;
      assert Keep(bs[j], present, false) == Some(b);
      var i :| 0 <= i < |idx| && idx[i] == j;
    }
  }

  // ---------------------------------------------------------------------
  // Safe-mode drops

  /** A security option the options ask to drop. */
  predicate DroppedOpt(opt: string, dropSeccomp: bool, dropAppArmor: bool) {
    (dropSeccomp && Contains(opt, "seccomp=")) || (dropAppArmor && Contains(opt, "apparmor="))
  }

  /** The security options that survive, in order. */
  function KeptOpts(opts: seq<string>, dropSeccomp: bool, dropAppArmor: bool): seq<string> {
    if opts == [] then []
    else
      var front := KeptOpts(opts[..|opts| - 1], dropSeccomp, dropAppArmor);
      if DroppedOpt(opts[|opts| - 1], dropSeccomp, dropAppArmor) then front else front + [opts[|opts| - 1]]
  }

  /** The SecurityOpt loop. */
  method FilterSecurityOpt(opts: seq<string>, dropSeccomp: bool, dropAppArmor: bool) returns (filtered: seq<string>)
    ensures filtered == KeptOpts(opts, dropSeccomp, dropAppArmor)
  {
    filtered := [];
    for i := 0 to |opts|
      invariant filtered == KeptOpts(opts[..i], dropSeccomp, dropAppArmor)
    {
      var opt := opts[i];
      assert opts[..i + 1][..i] == opts[..i];
      if dropSeccomp && Contains(opt, "seccomp=") {
        continue;
      }
      if dropAppArmor && Contains(opt, "apparmor=") {
        continue;
      }
      filtered := filtered + [opt];
    }
    assert opts[..|opts|] == opts;
  }

  /** An option survives exactly when it is not one the options drop. */
  lemma {:induction false} KeptOptsIff(opts: seq<string>, dropSeccomp: bool, dropAppArmor: bool, x: string)
    ensures x in KeptOpts(opts, dropSeccomp, dropAppArmor) <==> x in opts && !DroppedOpt(x, dropSeccomp, dropAppArmor)
  {
    if opts != [] {
      var n := |opts| - 1;
      KeptOptsIff(opts[..n], dropSeccomp, dropAppArmor, x);
      assert opts == opts[..n] + [opts[n]];
    }
  }

  /** When no option matches, the list is left as it is. */
  lemma {:induction false} KeptOptsNothingDropped(opts: seq<string>, dropSeccomp: bool, dropAppArmor: bool)
    requires forall i :: 0 <= i < |opts| ==> !DroppedOpt(opts[i], dropSeccomp, dropAppArmor)
    ensures KeptOpts(opts, dropSeccomp, dropAppArmor) == opts
  {
    if opts != [] {
      var n := |opts| - 1;
      KeptOptsNothingDropped(opts[..n], dropSeccomp, dropAppArmor);
      assert opts == opts[..n] + [opts[n]];
    }
  }

  // ---------------------------------------------------------------------
  // Bind relocation

  /** A bind mount whose source does not exist, moved under `root` by its
      base name. */
  function Relocated(m: Mount, root: string, existing: set<string>): Mount {
    if m.kind == "bind" && m.source != "" && m.source !in existing then m.(source := JoinPath(root, Base(m.source)))
    else m
  }

  function RelocatedAll(ms: seq<Mount>, root: string, existing: set<string>): seq<Mount> {
    seq(|ms|, i requires 0 <= i < |ms| => Relocated(ms[i], root, existing))
  }

  /** A plain element parses to itself. */
  lemma ParsePlain(e: string)
    requires Plain(e)
    ensures Parse(e) == Path(false, [e])
  {
    SplitNoSep(e, '/');
    var none: seq<string> := [];
    assert Resolve(none, false, [e]) == Resolve(Step(none, false, e), false, []);
  }

  /** Only missing bind sources move, only their source changes, and a
      moved source lies right below the restore root. */
  lemma RelocatedUnderRoot(m: Mount, root: string, existing: set<string>)
    requires root != "" && Plain(Base(m.source))
    ensures Relocated(m, root, existing) != m ==> m.kind == "bind" && m.source !in existing
    ensures Relocated(m, root, existing) == m.(source := Relocated(m, root, existing).source)
    ensures Relocated(m, root, existing) != m ==>
              Parse(Relocated(m, root, existing).source) == Path(Parse(root).rooted, Parse(root).elems + [Base(m.source)])
              && Within(root, Relocated(m, root, existing).source)
  {
    var base := Base(m.source);
    if Relocated(m, root, existing) != m {
      ParsePlain(base);
      JoinPlain(root, base);
      var p := Parse(JoinPath(root, base));
      assert p.elems[..|Parse(root).elems|] == Parse(root).elems;
    }
  }

  /** One pass of the BindRestoreRoot loop. */
  method RelocateMount(m: Mount, root: string, existing: set<string>) returns (m': Mount)
    ensures m' == Relocated(m, root, existing)
  {
    m' := m;
    if m.kind == "bind" && m.source != "" {
      if m.source !in existing {
        var base := Base(m.source);
        var newSrc := JoinPath(root, base);
        m' := m.(source := newSrc);
      }
    }
  }

  // ---------------------------------------------------------------------
  // Preferred host IP

  /** The host IP to pin: ForceBindIP, else the address of BindInterface
      when its lookup succeeds, else none. `interfaceIPs` holds the
      interfaces whose lookup succeeds. */
  function PreferredIP(forceBindIP: string, bindInterface: string, interfaceIPs: map<string, string>): (ip: string)
    ensures ip == forceBindIP || ip == "" || (bindInterface in interfaceIPs && ip == interfaceIPs[bindInterface])
  {
    if forceBindIP != "" then forceBindIP
    else if bindInterface != "" && bindInterface in interfaceIPs then interfaceIPs[bindInterface]
    else ""
  }

  /** ForceBindIP wins over the interface, whatever its lookup gives. */
  lemma ForceBindIPWins(forceBindIP: string, bindInterface: string, interfaceIPs: map<string, string>)
    requires forceBindIP != ""
    ensures PreferredIP(forceBindIP, bindInterface, interfaceIPs) == forceBindIP
  {
  }

  /** One port's bindings with the host IP set on each. */
  function Pinned(bs: seq<PortBinding>, ip: string): seq<PortBinding> {
    seq(|bs|, i requires 0 <= i < |bs| => bs[i].(hostIP := ip))
  }

  /** Pinning adds and removes no binding and changes only the host IP. */
  lemma PinnedBindings(bs: seq<PortBinding>, ip: string)
    ensures |Pinned(bs, ip)| == |bs|
    ensures forall i :: 0 <= i < |bs| ==> Pinned(bs, ip)[i].hostIP == ip && Pinned(bs, ip)[i].hostPort == bs[i].hostPort
    ensures Pinned(Pinned(bs, ip), ip) == Pinned(bs, ip)
  {
  }

  /** A forced IP is pinned after the host-IP filter has run, so it lands
      on every binding the filter kept whether or not it is on this host. */
  lemma ForcedAfterFilter(bs: seq<PortBinding>, present: set<string>, dropHostIPs: bool, ip: string)
    requires ip != ""
    ensures |Pinned(Kept(bs, present, dropHostIPs), ip)| == |KeptAt(bs, present, dropHostIPs)|
    ensures forall b :: b in Pinned(Kept(bs, present, dropHostIPs), ip) ==> b.hostIP == ip
  {
    KeptAtSpec(bs, present, dropHostIPs);
  }

  /** One port's bindings through the in-place filter. */
  method FilterPort(bindings: seq<PortBinding>, present: set<string>, dropHostIPs: bool) returns (filtered: seq<PortBinding>)
    ensures filtered == Kept(bindings, present, dropHostIPs)
  {
    var a := new PortBinding[|bindings|](i requires 0 <= i < |bindings| => bindings[i]);
    assert a[..] == bindings;
    var k := FilterBindings(a, present, dropHostIPs);
    filtered := a[..k];
  }

  /** The loop that sets the host IP of each of one port's bindings. */
  method PinPort(bindings: seq<PortBinding>, ip: string) returns (r: seq<PortBinding>)
    ensures r == Pinned(bindings, ip)
  {
    r := bindings;
    for i := 0 to |r|
      invariant |r| == |bindings|
      invariant forall j :: 0 <= j < |r| ==> r[j] == if j < i then bindings[j].(hostIP := ip) else bindings[j]
    {
      r := r[i := r[i].(hostIP := ip)];
    }
  }

  /** The set of this host's addresses, built one address at a time. */
  method PresentSet(hostIPs: seq<string>) returns (present: set<string>)
    ensures present == Elements(hostIPs)
  {
    present := {};
    for i := 0 to |hostIPs|
      invariant present == Elements(hostIPs[..i])
    {
      assert hostIPs[..i + 1] == hostIPs[..i] + [hostIPs[i]];
      present := present + {hostIPs[i]};
    }
    assert hostIPs[..|hostIPs|] == hostIPs;
  }

  function KeptFn(present: set<string>, dropHostIPs: bool): seq<PortBinding> -> seq<PortBinding> {
    bs => Kept(bs, present, dropHostIPs)
  }

  function PinFn(ip: string): seq<PortBinding> -> seq<PortBinding> {
    bs => Pinned(bs, ip)
  }

  /** The state of a loop over the ports that applies `f` to each: the ports
      still to do are as they were, the others have been through `f`. */
  ghost predicate PortsSoFar(pb: map<string, seq<PortBinding>>, before: map<string, seq<PortBinding>>, todo: set<string>,
                             f: seq<PortBinding> -> seq<PortBinding>)
  {
    && pb.Keys == before.Keys
    && forall p :: p in pb ==> pb[p] == if p in todo then before[p] else f(before[p])
  }

  lemma PortsStep(pb: map<string, seq<PortBinding>>, before: map<string, seq<PortBinding>>, todo: set<string>,
                  f: seq<PortBinding> -> seq<PortBinding>, port: string)
    requires PortsSoFar(pb, before, todo, f) && port in todo && todo <= before.Keys
    ensures PortsSoFar(pb[port := f(pb[port])], before, todo - {port}, f)
  {
  }

  lemma PortsDone(pb: map<string, seq<PortBinding>>, before: map<string, seq<PortBinding>>,
                  f: seq<PortBinding> -> seq<PortBinding>)
    requires PortsSoFar(pb, before, {}, f)
    ensures pb.Keys == before.Keys && forall p :: p in pb ==> pb[p] == f(before[p])
  {
  }

  // ---------------------------------------------------------------------
  // The HostConfig

  /** container.HostConfig, the fields Restore changes. */
  class HostConfig {
    var portBindings: map<string, seq<PortBinding>>
    var devices: seq<string>
    var capAdd: seq<string>
    var capDrop: seq<string>
    var securityOpt: seq<string>
    var mounts: array<Mount>

    constructor (portBindings: map<string, seq<PortBinding>>, devices: seq<string>, capAdd: seq<string>,
                 capDrop: seq<string>, securityOpt: seq<string>, mounts: seq<Mount>)
      ensures this.portBindings == portBindings && this.devices == devices
      ensures this.capAdd == capAdd && this.capDrop == capDrop && this.securityOpt == securityOpt
      ensures fresh(this.mounts) && this.mounts[..] == mounts
    {
      this.portBindings := portBindings;
      this.devices := devices;
      this.capAdd := capAdd;
      this.capDrop := capDrop;
      this.securityOpt := securityOpt;
      this.mounts := new Mount[|mounts|](i requires 0 <= i < |mounts| => mounts[i]);
    }

    /** Every field but the port bindings is as it was. */
    twostate predicate OnlyPortsChanged()
      reads this
    {
      devices == old(devices) && capAdd == old(capAdd) && capDrop == old(capDrop)
      && securityOpt == old(securityOpt) && mounts == old(mounts)
    }

    /** The host-IP filter over every port. */
    method FilterPortBindings(hostIPs: seq<string>, dropHostIPs: bool)
      modifies this
      ensures portBindings.Keys == old(portBindings).Keys
      ensures forall p :: p in portBindings ==> portBindings[p] == Kept(old(portBindings)[p], Elements(hostIPs), dropHostIPs)
      ensures OnlyPortsChanged()
    {
      var present := PresentSet(hostIPs);
      ghost var before := portBindings;
      var todo := portBindings.Keys;
      while todo != {}
        invariant todo <= before.Keys
        invariant PortsSoFar(portBindings, before, todo, KeptFn(present, dropHostIPs))
        invariant OnlyPortsChanged()
        decreases |todo|
      {
        var port :| port in todo;
        var filtered := FilterPort(portBindings[port], present, dropHostIPs);
        PortsStep(portBindings, before, todo, KeptFn(present, dropHostIPs), port);
        portBindings := portBindings[port := filtered];
        todo := todo - {port};
      }
      PortsDone(portBindings, before, KeptFn(present, dropHostIPs));
    }

    /** DropDevices, DropCaps, DropSeccomp and DropAppArmor. */
    method ApplySafeDrops(opts: RestoreOptions)
      modifies this
      ensures devices == (if opts.dropDevices then [] else old(devices))
      ensures capAdd == (if opts.dropCaps then [] else old(capAdd))
      ensures capDrop == (if opts.dropCaps then [] else old(capDrop))
      ensures securityOpt == KeptOpts(old(securityOpt), opts.dropSeccomp, opts.dropAppArmor)
      ensures portBindings == old(portBindings) && mounts == old(mounts)
    {
      if opts.dropDevices {
        devices := [];
      }
      if opts.dropCaps {
        capAdd := [];
        capDrop := [];
      }
      if opts.dropSeccomp || opts.dropAppArmor {
        securityOpt := FilterSecurityOpt(securityOpt, opts.dropSeccomp, opts.dropAppArmor);
      } else {
        KeptOptsNothingDropped(securityOpt, false, false);
      }
    }

    /** BindRestoreRoot: every bind mount whose source is missing moves under
      the root; `existing` holds the paths os.Stat does not report missing. */
    method RelocateBinds(root: string, existing: set<string>)
      modifies mounts
      ensures mounts[..] == if root == "" then old(mounts[..]) else RelocatedAll(old(mounts[..]), root, existing)
    {
      if root != "" {
        for i := 0 to mounts.Length
          invariant forall j :: 0 <= j < i ==> mounts[j] == Relocated(old(mounts[j]), root, existing)
          invariant forall j :: i <= j < mounts.Length ==> mounts[j] == old(mounts[j])
        {
          var m := RelocateMount(mounts[i], root, existing);
          mounts[i] := m;
        }
      }
    }

    /** Pins `ip` on every binding of every port when it is not empty. */
    method ApplyPreferredIP(ip: string)
      modifies this
      ensures portBindings.Keys == old(portBindings).Keys
      ensures forall p :: p in portBindings ==> portBindings[p] == if ip == "" then old(portBindings)[p] else Pinned(old(portBindings)[p], ip)
      ensures OnlyPortsChanged()
    {
      if ip == "" {
        return;
      }
      ghost var before := portBindings;
      var todo := portBindings.Keys;
      while todo != {}
        invariant todo <= before.Keys
        invariant PortsSoFar(portBindings, before, todo, PinFn(ip))
        invariant OnlyPortsChanged()
        decreases |todo|
      {
        var port :| port in todo;
        var bindings := PinPort(portBindings[port], ip);
        PortsStep(portBindings, before, todo, PinFn(ip), port);
        portBindings := portBindings[port := bindings];
        todo := todo - {port};
      }
      PortsDone(portBindings, before, PinFn(ip));
    }
  }

  /** The HostConfig part of Restore, in the order Restore runs it: host-IP
      filter, safe-mode drops, bind relocation, preferred IP. */
  method PrepareHostConfig(hc: HostConfig, opts: RestoreOptions, hostIPs: seq<string>, existing: set<string>,
                           interfaceIPs: map<string, string>)
    modifies hc, hc.mounts
    ensures hc.mounts == old(hc.mounts)
    ensures hc.portBindings.Keys == old(hc.portBindings).Keys
    ensures forall p :: p in hc.portBindings ==>
              var kept := Kept(old(hc.portBindings)[p], Elements(hostIPs), opts.dropHostIPs);
              var ip := PreferredIP(opts.forceBindIP, opts.bindInterface, interfaceIPs);
              hc.portBindings[p] == if ip == "" then kept else Pinned(kept, ip)
    ensures hc.devices == (if opts.dropDevices then [] else old(hc.devices))
    ensures hc.capAdd == (if opts.dropCaps then [] else old(hc.capAdd))
    ensures hc.capDrop == (if opts.dropCaps then [] else old(hc.capDrop))
    ensures hc.securityOpt == KeptOpts(old(hc.securityOpt), opts.dropSeccomp, opts.dropAppArmor)
    ensures hc.mounts[..] == if opts.bindRestoreRoot == "" then old(hc.mounts[..])
                             else RelocatedAll(old(hc.mounts[..]), opts.bindRestoreRoot, existing)
  {
    hc.FilterPortBindings(hostIPs, opts.dropHostIPs);
    hc.ApplySafeDrops(opts);
    hc.RelocateBinds(opts.bindRestoreRoot, existing);
    hc.ApplyPreferredIP(PreferredIP(opts.forceBindIP, opts.bindInterface, interfaceIPs));
  }
}
