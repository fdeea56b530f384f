/** Network fencing on Azure (lib/azure_fence.py): IP configurations are moved to a closed
    subnet, and back with the help of tags. */
module Azure {
  import opened Ascii
  import opened Wrappers

  const FENCE_SUBNET_NAME := "fence-subnet"
  const IP_TYPE_DYNAMIC := "Dynamic"

  datatype Rule = Rule(
    name: string, access: string, direction: string, sourcePortRange: string, destinationPortRange: string,
    protocol: string, sourcePrefix: string, destinationPrefix: string, state: string, priority: int)

  /** A subnet, with the rules of its network security group. */
  datatype Subnet = Subnet(id: string, name: string, nsg: Option<seq<Rule>>)

  /** A subnet id taken apart: its virtual network and the names of the parts below it. */
  datatype ResourceId = ResourceId(vnet: string, parts: seq<string>)

  /** The virtual networks, and how the texts that are resource ids are read. */
  datatype Network = Network(ids: map<string, ResourceId>, vnets: map<string, seq<Subnet>>)

  /** An IP configuration; subnet is the id of its subnet. */
  datatype IpConfig = IpConfig(name: string, subnet: string, allocation: string, address: string)

  type Tags = map<string, string>

  datatype Nic = Nic(tags: Tags, configs: seq<IpConfig>)

  /** What an attempt on a network interface comes to: a new version of it, the agent leaves,
      or an exception other than the cloud's ends the attempts. */
  datatype Result<+T> = Ok(value: T) | Leaves | Broken

  // ------------------------------------------------------------------ the fence subnet

  predicate Denies(r: Rule, name: string, direction: string) {
    && r.access == "Deny" && r.direction == direction && r.sourcePortRange == "*" && r.destinationPortRange == "*"
    && r.protocol == "*" && r.destinationPrefix == "*" && r.sourcePrefix == "*" && r.state == "Succeeded"
    && r.priority == 100 && r.name == name
  }

  /** get_rule_for_nsg. */
  method GetRule(rules: seq<Rule>, name: string, direction: string) returns (rule: Option<Rule>)
    ensures rule.Some? <==> exists i | 0 <= i < |rules| :: Denies(rules[i], name, direction)
    ensures rule.Some? ==> rule.value in rules && Denies(rule.value, name, direction)
  {
    for i := 0 to |rules|
      invariant forall j | 0 <= j < i :: !Denies(rules[j], name, direction)
    {
      if Denies(rules[i], name, direction) { return Some(rules[i]); }
    }
    return None;
  }

  ghost predicate Closed(subnet: Subnet) {
    && subnet.nsg.Some?
    && (exists i | 0 <= i < |subnet.nsg.value| :: Denies(subnet.nsg.value[i], "FENCE_DENY_ALL_OUTBOUND", "Outbound"))
    && (exists i | 0 <= i < |subnet.nsg.value| :: Denies(subnet.nsg.value[i], "FENCE_DENY_ALL_INBOUND", "Inbound"))
  }

  /** Closed means that both of these rules are there, as they are written here. */
  lemma ClosedMeans(subnet: Subnet)
    ensures Closed(subnet) <==> (
              && subnet.nsg.Some?
              && Rule("FENCE_DENY_ALL_OUTBOUND", "Deny", "Outbound", "*", "*", "*", "*", "*", "Succeeded", 100) in subnet.nsg.value
              && Rule("FENCE_DENY_ALL_INBOUND", "Deny", "Inbound", "*", "*", "*", "*", "*", "Succeeded", 100) in subnet.nsg.value)
  {
  }

  // ------------------------------------------------- what a closed subnet does to packets

  datatype Packet = Packet(
    direction: string, protocol: string, sourcePort: string, destinationPort: string, source: string, destination: string)

  /** What is up to the platform: how a pattern other than "*" matches, and which rules are in
      force without having been provisioned. */
  datatype Platform = Platform(matches: (string, string) -> bool, inForce: Rule -> bool)

  predicate Covers(platform: Platform, pattern: string, value: string) {
    pattern == "*" || platform.matches(pattern, value)
  }

  predicate Applies(platform: Platform, r: Rule, p: Packet) {
    && (r.state == "Succeeded" || platform.inForce(r)) && r.direction == p.direction
    && Covers(platform, r.protocol, p.protocol)
    && Covers(platform, r.sourcePortRange, p.sourcePort) && Covers(platform, r.destinationPortRange, p.destinationPort)
    && Covers(platform, r.sourcePrefix, p.source) && Covers(platform, r.destinationPrefix, p.destination)
  }

  /** The rule that applies and has the lowest priority number decides. */
  ghost predicate Decides(platform: Platform, rules: seq<Rule>, p: Packet, r: Rule) {
    r in rules && Applies(platform, r, p) && forall o | o in rules && Applies(platform, o, p) :: r.priority <= o.priority
  }

  ghost predicate Refused(platform: Platform, rules: seq<Rule>, p: Packet) {
    && (exists r :: Decides(platform, rules, p, r))
    && forall r | Decides(platform, rules, p, r) :: r.access == "Deny"
  }

  /** Priorities are 100 or more, and no two rules for a direction have the same one. */
  ghost predicate Prioritised(rules: seq<Rule>) {
    && (forall r | r in rules :: r.priority >= 100)
    && forall r, o | r in rules && o in rules && r.direction == o.direction && r.priority == o.priority :: r == o
  }

  /** A closed subnet refuses every packet in both directions, whatever its other rules. */
  lemma ClosedRefuses(platform: Platform, subnet: Subnet, p: Packet)
    requires Closed(subnet) && Prioritised(subnet.nsg.value) && p.direction in {"Inbound", "Outbound"}
    ensures Refused(platform, subnet.nsg.value, p)
  {
    var rules := subnet.nsg.value;
    var name := if p.direction == "Inbound" then "FENCE_DENY_ALL_INBOUND" else "FENCE_DENY_ALL_OUTBOUND";
    var i :| 0 <= i < |rules| && Denies(rules[i], name, p.direction);
    var r := rules[i];
    assert r.direction == p.direction && r.priority == 100 && r.protocol == "*" && r.state == "Succeeded";
    assert Decides(platform, rules, p, r);
  }

  /** A subnet named "fence-subnet" that the configuration is in lets nothing through. */
  ghost predicate Isolated(net: Network, c: IpConfig) {
    Located(net, c) && exists s | s in net.vnets[net.ids[c.subnet].vnet] :: LetsNothingThrough(s, c)
  }

  ghost predicate LetsNothingThrough(s: Subnet, c: IpConfig) {
    && Lower(s.name) == "fence-subnet" && Lower(s.id) == Lower(c.subnet) && s.nsg.Some?
    && (Prioritised(s.nsg.value) ==>
          forall platform, p: Packet | p.direction in {"Inbound", "Outbound"} :: Refused(platform, s.nsg.value, p))
  }

  lemma InFenceIsIsolated(net: Network, c: IpConfig)
    requires InFence(net, c)
    ensures Isolated(net, c)
  {
    var s := FenceOf(net, c).value;
    assert Lower(FENCE_SUBNET_NAME) == "fence-subnet";
    if Prioritised(s.nsg.value) {
      forall platform, p: Packet | p.direction in {"Inbound", "Outbound"} ensures Refused(platform, s.nsg.value, p) {
        ClosedRefuses(platform, s, p);
      }
    }
    assert LetsNothingThrough(s, c);
  }

  /** test_fence_subnet. */
  method TestFenceSubnet(subnet: Option<Subnet>) returns (ok: bool)
    ensures ok <==> subnet.Some? && Closed(subnet.value)
  {
    if subnet.None? || subnet.value.nsg.None? { return false; }
    var inbound := GetRule(subnet.value.nsg.value, "FENCE_DENY_ALL_INBOUND", "Inbound");
    var outbound := GetRule(subnet.value.nsg.value, "FENCE_DENY_ALL_OUTBOUND", "Outbound");
    return inbound.Some? && outbound.Some?;
  }

  /** get_subnet: the first subnet of that name, ignoring case. */
  function FindSubnet(subnets: seq<Subnet>, name: string): (r: Option<Subnet>)
    ensures r.None? <==> forall i | 0 <= i < |subnets| :: Lower(subnets[i].name) != Lower(name)
    ensures r.Some? ==> exists i ::
              && 0 <= i < |subnets| && subnets[i] == r.value && Lower(r.value.name) == Lower(name)
              && forall j | 0 <= j < i :: Lower(subnets[j].name) != Lower(name)
  {
    if subnets == [] then None
    else if Lower(subnets[0].name) == Lower(name) then Some(subnets[0])
    else FindSubnet(subnets[1..], name)
  }

  method GetSubnet(subnets: seq<Subnet>, name: string) returns (r: Option<Subnet>)
    ensures r == FindSubnet(subnets, name)
  {
    for i := 0 to |subnets|
      invariant FindSubnet(subnets, name) == FindSubnet(subnets[i..], name)
    {
      if Lower(subnets[i].name) == Lower(name) { return Some(subnets[i]); }
    }
    return None;
  }

  ghost predicate UniqueNames(subnets: seq<Subnet>) {
    forall i, j | 0 <= i < j < |subnets| :: Lower(subnets[i].name) != Lower(subnets[j].name)
  }

  lemma {:induction false} FindUnique(subnets: seq<Subnet>, i: nat)
    requires UniqueNames(subnets) && i < |subnets|
    ensures FindSubnet(subnets, subnets[i].name) == Some(subnets[i])
  {
    if i > 0 {
      assert Lower(subnets[0].name) != Lower(subnets[i].name);
      assert forall k | 0 <= k < |subnets| - 1 :: subnets[1..][k] == subnets[k+1];
      FindUnique(subnets[1..], i - 1);
    }
  }

  // ------------------------------------------------------------------------- the tags

  function SubnetKey(name: string): string { "FENCE_TAG_SUBNET_ID_" + name }
  function TypeKey(name: string): string { "FENCE_TAG_IP_TYPE_" + name }
  function IpKey(name: string): string { "FENCE_TAG_IP_" + name }

  function Keys(name: string): set<string> {
    {SubnetKey(name), TypeKey(name), IpKey(name)}
  }

  function AllKeys(configs: seq<IpConfig>): set<string> {
    if configs == [] then {} else Keys(configs[0].name) + AllKeys(configs[1..])
  }

  /** Which of the keys of two configurations coincide. */
  lemma KeysCollide(a: string, b: string)
    ensures SubnetKey(a) == SubnetKey(b) <==> a == b
    ensures TypeKey(a) == TypeKey(b) <==> a == b
    ensures IpKey(a) == IpKey(b) <==> a == b
    ensures SubnetKey(a) != TypeKey(b) && SubnetKey(a) != IpKey(b)
    ensures TypeKey(a) == IpKey(b) <==> "TYPE_" + a == b
  {
    assert SubnetKey(a)[10] == 'S' && TypeKey(b)[10] == 'I' && IpKey(b)[10] == 'I';
    assert SubnetKey(a)[20..] == a && SubnetKey(b)[20..] == b;
    assert TypeKey(a)[18..] == a && TypeKey(b)[18..] == b;
    assert IpKey(a)[13..] == a && IpKey(b)[13..] == b;
    assert TypeKey(a) == "FENCE_TAG_IP_" + ("TYPE_" + a);
    assert TypeKey(a)[13..] == "TYPE_" + a;
  }

  /** No two configurations share a tag. */
  ghost predicate NamesApart(configs: seq<IpConfig>) {
    forall i, j | 0 <= i < |configs| && 0 <= j < |configs| && i != j ::
      configs[i].name != configs[j].name && "TYPE_" + configs[i].name != configs[j].name
  }

  ghost predicate Disjoint(configs: seq<IpConfig>) {
    forall i, j | 0 <= i < j < |configs| :: Keys(configs[i].name) !! Keys(configs[j].name)
  }

  lemma NamesApartMeans(configs: seq<IpConfig>)
    ensures NamesApart(configs) <==> Disjoint(configs)
  {
    forall i, j | 0 <= i < |configs| && 0 <= j < |configs| {
      KeysCollide(configs[i].name, configs[j].name);
    }
    if Disjoint(configs) {
      forall i, j | 0 <= i < |configs| && 0 <= j < |configs| && i != j
        ensures configs[i].name != configs[j].name && "TYPE_" + configs[i].name != configs[j].name
      {
        var a, b := configs[i].name, configs[j].name;
        assert Keys(a) !! Keys(b);
        assert TypeKey(a) in Keys(a) && IpKey(b) in Keys(b);
      }
    }
  }

  /** Such names: the type tag of "a" is the address tag of "TYPE_a". */
  lemma TypeNameCollides(a: IpConfig, b: IpConfig)
    requires a.name == "a" && b.name == "TYPE_a"
    ensures !NamesApart([a, b]) && TypeKey(a.name) == IpKey(b.name)
  {
    KeysCollide(a.name, b.name);
    assert "TYPE_" + [a, b][0].name == [a, b][1].name;
  }

  // -------------------------------------------------------------------------- blocking

  function SaveOne(tags: Tags, c: IpConfig): Tags {
    tags[SubnetKey(c.name) := c.subnet][TypeKey(c.name) := c.allocation][IpKey(c.name) := c.address]
  }

  function Save(tags: Tags, configs: seq<IpConfig>): Tags
    decreases |configs|
  {
    if configs == [] then tags else Save(SaveOne(tags, configs[0]), configs[1..])
  }

  /** The network the configuration is in can be found. */
  predicate Located(net: Network, c: IpConfig) {
    c.subnet in net.ids && net.ids[c.subnet].vnet in net.vnets
  }

  /** get_fence_subnet_for_config, once the network is found. */
  function FenceOf(net: Network, c: IpConfig): Option<Subnet>
    requires Located(net, c)
  {
    FindSubnet(net.vnets[net.ids[c.subnet].vnet], FENCE_SUBNET_NAME)
  }

  ghost predicate Blockable(net: Network, c: IpConfig) {
    Located(net, c) && FenceOf(net, c).Some? && Closed(FenceOf(net, c).value)
  }

  /** The configuration, moved to the fence subnet of its own virtual network. */
  ghost function Moved(net: Network, c: IpConfig): IpConfig
    requires Blockable(net, c)
  {
    c.(subnet := FenceOf(net, c).value.id, allocation := IP_TYPE_DYNAMIC)
  }

  /** Only the subnet, now that named "fence-subnet", and the allocation method change. */
  ghost predicate MovedTo(net: Network, c: IpConfig, now: IpConfig) {
    && Located(net, c) && now.name == c.name && now.address == c.address && now.allocation == "Dynamic"
    && exists s | s in net.vnets[net.ids[c.subnet].vnet] :: s.id == now.subnet && Lower(s.name) == "fence-subnet" && Closed(s)
  }

  /** get_fence_subnet_for_config, followed by the test. */
  method FenceSubnet(net: Network, c: IpConfig) returns (fence: Option<Subnet>, ok: bool)
    requires Located(net, c)
    ensures fence == FenceOf(net, c) && (ok <==> Blockable(net, c))
  {
    fence := GetSubnet(net.vnets[net.ids[c.subnet].vnet], FENCE_SUBNET_NAME);
    ok := TestFenceSubnet(fence);
  }

  /** The "block" branch for one configuration, but for the tags. */
  method MoveToFence(net: Network, c: IpConfig) returns (r: Result<IpConfig>)
    ensures r.Ok? <==> Blockable(net, c)
    ensures r.Ok? ==> r.value == Moved(net, c) && MovedTo(net, c, r.value)
    ensures r.Broken? <==> c.subnet in net.ids && !Located(net, c)
  {
    if c.subnet !in net.ids { return Leaves; }
    if !Located(net, c) { return Broken; }
    var fence, ok := FenceSubnet(net, c);
    if !ok { return Leaves; }
    assert Lower(FENCE_SUBNET_NAME) == "fence-subnet";
    return Ok(c.(subnet := fence.value.id, allocation := IP_TYPE_DYNAMIC));
  }

  /** What blocking an interface comes to.  The first configuration that cannot be moved
      decides how it fails. */
  ghost predicate Blocks(net: Network, nic: Nic, r: Result<Nic>) {
    && (r.Ok? ==> (
            && (forall i | 0 <= i < |nic.configs| :: Blockable(net, nic.configs[i]))
            && r.value.tags == Save(nic.tags, nic.configs)
            && |r.value.configs| == |nic.configs|
            && forall i | 0 <= i < |nic.configs| :: r.value.configs[i] == Moved(net, nic.configs[i])))
    && (!r.Ok? ==>
          exists i | 0 <= i < |nic.configs| ::
            && !Blockable(net, nic.configs[i]) && (forall j | 0 <= j < i :: Blockable(net, nic.configs[j]))
            && (r.Broken? <==> nic.configs[i].subnet in net.ids && !Located(net, nic.configs[i])))
  }

  /** The "block" branch of set_network_state for one interface. */
  method BlockNic(net: Network, nic: Nic) returns (r: Result<Nic>)
    ensures Blocks(net, nic, r)
  {
    var tags, configs := nic.tags, nic.configs;
    for i := 0 to |nic.configs|
      invariant Save(tags, nic.configs[i..]) == Save(nic.tags, nic.configs)
      invariant |configs| == |nic.configs| && forall j | i <= j < |configs| :: configs[j] == nic.configs[j]
      invariant forall j | 0 <= j < i :: Blockable(net, nic.configs[j]) && configs[j] == Moved(net, nic.configs[j])
    {
      var c := configs[i];
      var moved := MoveToFence(net, c);
      if moved.Leaves? { return Leaves; }
      if moved.Broken? { return Broken; }
      assert nic.configs[i..][0] == c && nic.configs[i..][1..] == nic.configs[i+1..];
      tags := tags[SubnetKey(c.name) := c.subnet];
      tags := tags[TypeKey(c.name) := c.allocation];
      tags := tags[IpKey(c.name) := c.address];
      configs := configs[i := moved.value];
    }
    return Ok(Nic(tags, configs));
  }

  // ------------------------------------------------------------------------ unblocking

  /** The "unblock" branch for one configuration: its tags are popped, a missing one being a
      KeyError, and the old subnet is looked up. */
  function RestoreOne(net: Network, tags: Tags, c: IpConfig): Result<(Tags, IpConfig)> {
    var (sk, tk, ik) := (SubnetKey(c.name), TypeKey(c.name), IpKey(c.name));
    if tags == map[] then Leaves
    else if !(Keys(c.name) <= tags.Keys) then Broken
    else
      var (subnet, ipType, address) := (tags[sk], tags[tk], tags[ik]);
      if subnet == "" || ipType == "" || (address == "" && Lower(ipType) != Lower(IP_TYPE_DYNAMIC)) then Leaves
      else if subnet !in net.ids then Leaves
      else
        var id := net.ids[subnet];
        if id.vnet !in net.vnets || id.parts == [] then Broken
        else
          var former := FindSubnet(net.vnets[id.vnet], id.parts[0]);
          if former.None? then Leaves
          else Ok((tags - Keys(c.name), c.(subnet := former.value.id, allocation := ipType,
                                           address := if address != "" then address else c.address)))
  }

  /** The three tags of a configuration. */
  ghost predicate TagsAre(tags: Tags, name: string, subnet: string, ipType: string, address: string) {
    && "FENCE_TAG_SUBNET_ID_" + name in tags && tags["FENCE_TAG_SUBNET_ID_" + name] == subnet
    && "FENCE_TAG_IP_TYPE_" + name in tags && tags["FENCE_TAG_IP_TYPE_" + name] == ipType
    && "FENCE_TAG_IP_" + name in tags && tags["FENCE_TAG_IP_" + name] == address
  }

  /** They say all that is needed. */
  ghost predicate Enough(subnet: string, ipType: string, address: string) {
    subnet != "" && ipType != "" && (address != "" || Lower(ipType) == "dynamic")
  }

  /** The former subnet can be looked up; named is what it is called. */
  ghost predicate CanLookUp(net: Network, subnet: string, named: string) {
    && subnet in net.ids && net.ids[subnet].vnet in net.vnets
    && net.ids[subnet].parts != [] && net.ids[subnet].parts[0] == named
  }

  /** When a configuration with its three tags is restored: when they say enough and the former
      subnet is still there under its name.  An id that cannot be read, or a subnet that is
      gone, makes the agent leave; a network that is gone is an exception. */
  lemma RestoreOneIff(net: Network, tags: Tags, c: IpConfig, subnet: string, ipType: string, address: string)
    requires TagsAre(tags, c.name, subnet, ipType, address)
    ensures var r := RestoreOne(net, tags, c);
            && (!Enough(subnet, ipType, address) || subnet !in net.ids ==> r == Leaves)
            && (Enough(subnet, ipType, address) && subnet in net.ids && !CanLookUp(net, subnet, if net.ids[subnet].parts == [] then "" else net.ids[subnet].parts[0]) ==> r == Broken)
            && forall named | Enough(subnet, ipType, address) && CanLookUp(net, subnet, named) :: RestoredAs(net, tags, c, subnet, ipType, address, named, r)
  {
    KeysCollide(c.name, c.name);
    assert Lower(IP_TYPE_DYNAMIC) == "dynamic";
    assert Keys(c.name) == {"FENCE_TAG_SUBNET_ID_" + c.name, "FENCE_TAG_IP_TYPE_" + c.name, "FENCE_TAG_IP_" + c.name};
  }

  ghost predicate RestoredAs(net: Network, tags: Tags, c: IpConfig, subnet: string, ipType: string, address: string, named: string,
                             r: Result<(Tags, IpConfig)>)
    requires CanLookUp(net, subnet, named)
  {
    var subnets := net.vnets[net.ids[subnet].vnet];
    && (r == Leaves <==> forall s | s in subnets :: Lower(s.name) != Lower(named)) && !r.Broken?
    && (r.Ok? ==> (
            && r.value.0 == tags - {"FENCE_TAG_SUBNET_ID_" + c.name, "FENCE_TAG_IP_TYPE_" + c.name, "FENCE_TAG_IP_" + c.name}
            && r.value.1.name == c.name && r.value.1.allocation == ipType
            && r.value.1.address == (if address == "" then c.address else address)
            && exists s | s in subnets :: r.value.1.subnet == s.id && Lower(s.name) == Lower(named)))
  }

  /** Without all of its tags a configuration is not restored: with no tags at all the agent
      leaves, otherwise a missing one is an exception. */
  lemma RestoreOneNeedsTags(net: Network, tags: Tags, c: IpConfig)
    requires !(exists subnet, ipType, address :: TagsAre(tags, c.name, subnet, ipType, address))
    ensures RestoreOne(net, tags, c) == if tags == map[] then Leaves else Broken
  {
    if Keys(c.name) <= tags.Keys {
      assert SubnetKey(c.name) in Keys(c.name) && TypeKey(c.name) in Keys(c.name) && IpKey(c.name) in Keys(c.name);
      assert TagsAre(tags, c.name, tags[SubnetKey(c.name)], tags[TypeKey(c.name)], tags[IpKey(c.name)]);
    }
  }

  function RestoreAll(net: Network, tags: Tags, configs: seq<IpConfig>): Result<(Tags, seq<IpConfig>)>
    decreases |configs|
  {
    if configs == [] then Ok((tags, []))
    else match RestoreOne(net, tags, configs[0])
      case Leaves => Leaves
      case Broken => Broken
      case Ok((left, c)) =>
        match RestoreAll(net, left, configs[1..])
        case Leaves => Leaves
        case Broken => Broken
        case Ok((rest, cs)) => Ok((rest, [c] + cs))
  }

  ghost function Unblocked(net: Network, nic: Nic): Result<Nic> {
    match RestoreAll(net, nic.tags, nic.configs)
    case Ok((tags, configs)) => Ok(Nic(tags, configs))
    case Leaves => Leaves
    case Broken => Broken
  }

  /** The "unblock" branch of set_network_state for one interface. */
  method UnblockNic(net: Network, nic: Nic) returns (r: Result<Nic>)
    ensures r == Unblocked(net, nic)
  {
    var tags, configs := nic.tags, [];
    ghost var goal := RestoreAll(net, nic.tags, nic.configs);
    assert nic.configs[0..] == nic.configs;
    ResumesAtFirst(goal);
    for i := 0 to |nic.configs|
      invariant Resumes(goal, configs, RestoreAll(net, tags, nic.configs[i..]))
    {
      assert nic.configs[i..][0] == nic.configs[i] && nic.configs[i..][1..] == nic.configs[i+1..];
      var one := RestoreOne(net, tags, nic.configs[i]);
      if one.Leaves? { return Leaves; }
      if one.Broken? { return Broken; }
      ResumesNext(goal, configs, one.value.1, RestoreAll(net, one.value.0, nic.configs[i+1..]));
      tags := one.value.0;
      configs := configs + [one.value.1];
    }
    assert nic.configs[|nic.configs|..] == [] && configs + [] == configs;
    return Ok(Nic(tags, configs));
  }

  /** goal is what comes of the configurations done so far and the result for the rest. */
  ghost predicate Resumes(goal: Result<(Tags, seq<IpConfig>)>, done: seq<IpConfig>, rest: Result<(Tags, seq<IpConfig>)>) {
    match rest
    case Ok((tags, cs)) => goal == Ok((tags, done + cs))
    case Leaves => goal == Leaves
    case Broken => goal == Broken
  }

  lemma ResumesAtFirst(goal: Result<(Tags, seq<IpConfig>)>)
    ensures Resumes(goal, [], goal)
  {
    if goal.Ok? {
      assert [] + goal.value.1 == goal.value.1;
    }
  }

  lemma ResumesNext(goal: Result<(Tags, seq<IpConfig>)>, done: seq<IpConfig>, c: IpConfig, rest: Result<(Tags, seq<IpConfig>)>)
    requires rest.Ok? ==> Resumes(goal, done, Ok((rest.value.0, [c] + rest.value.1)))
    requires !rest.Ok? ==> Resumes(goal, done, rest)
    ensures Resumes(goal, done + [c], rest)
  {
    if rest.Ok? {
      assert done + ([c] + rest.value.1) == done + [c] + rest.value.1;
    }
  }

  // ------------------------------------------------------------ blocking and unblocking

  /** The tags are those of the configurations on top of the original ones. */
  ghost predicate Saved(tags: Tags, orig: Tags, configs: seq<IpConfig>) {
    && tags.Keys == orig.Keys + AllKeys(configs)
    && (forall k | k in orig :: tags[k] == orig[k])
    && (forall i | 0 <= i < |configs| :: SavedOne(tags, configs[i]))
  }

  ghost predicate SavedOne(tags: Tags, c: IpConfig) {
    && Keys(c.name) <= tags.Keys
    && tags[SubnetKey(c.name)] == c.subnet
    && tags[TypeKey(c.name)] == c.allocation
    && tags[IpKey(c.name)] == c.address
  }

  lemma {:induction false} InAllKeys(configs: seq<IpConfig>, i: nat)
    requires i < |configs|
    ensures Keys(configs[i].name) <= AllKeys(configs)
  {
    if i > 0 {
      InAllKeys(configs[1..], i - 1);
    }
  }

  lemma {:induction false} DisjointFromAll(configs: seq<IpConfig>, ks: set<string>)
    requires forall i | 0 <= i < |configs| :: ks !! Keys(configs[i].name)
    ensures ks !! AllKeys(configs)
  {
    if configs != [] {
      assert forall i | 0 <= i < |configs| - 1 :: configs[1..][i] == configs[i+1];
      DisjointFromAll(configs[1..], ks);
    }
  }

  lemma DisjointTail(configs: seq<IpConfig>)
    requires Disjoint(configs) && configs != []
    ensures Disjoint(configs[1..]) && Keys(configs[0].name) !! AllKeys(configs[1..])
  {
    assert forall i | 0 <= i < |configs| - 1 :: configs[1..][i] == configs[i+1];
    DisjointFromAll(configs[1..], Keys(configs[0].name));
  }

  lemma {:induction false} SaveMeans(tags: Tags, configs: seq<IpConfig>)
    requires Disjoint(configs) && AllKeys(configs) !! tags.Keys
    ensures Saved(Save(tags, configs), tags, configs)
    decreases |configs|
  {
    if configs != [] {
      var c, rest := configs[0], configs[1..];
      DisjointTail(configs);
      KeysCollide(c.name, c.name);
      var next := SaveOne(tags, c);
      assert next.Keys == tags.Keys + Keys(c.name);
      SaveMeans(next, rest);
      var r := Save(tags, configs);
      assert SavedOne(next, c);
      assert SavedOne(r, c);
      forall i | 0 < i < |configs| ensures SavedOne(r, configs[i]) {
        assert configs[i] == rest[i-1];
      }
    }
  }

  /** A configuration unblocking can undo: its subnet still exists, under a name of its own,
      and it had an address or did not need one. */
  ghost predicate Restorable(net: Network, c: IpConfig) {
    && Located(net, c) && net.ids[c.subnet].parts != [] && c.subnet != ""
    && var subnets := net.vnets[net.ids[c.subnet].vnet];
    && UniqueNames(subnets)
    && (exists j | 0 <= j < |subnets| :: subnets[j].id == c.subnet && subnets[j].name == net.ids[c.subnet].parts[0])
    && c.allocation != "" && (c.address != "" || Lower(c.allocation) == Lower(IP_TYPE_DYNAMIC))
  }

  /** As it was, but for an address it never had. */
  function Original(c: IpConfig, now: IpConfig): IpConfig {
    if c.address == "" then c.(address := now.address) else c
  }

  ghost predicate SameNames(a: seq<IpConfig>, b: seq<IpConfig>) {
    |a| == |b| && forall i | 0 <= i < |a| :: a[i].name == b[i].name
  }

  lemma {:induction false} RestoreOneMeans(net: Network, tags: Tags, orig: Tags, configs: seq<IpConfig>, now: IpConfig)
    requires configs != [] && Saved(tags, orig, configs) && Disjoint(configs) && AllKeys(configs) !! orig.Keys
    requires Restorable(net, configs[0]) && now.name == configs[0].name
    ensures var r := RestoreOne(net, tags, now);
            r.Ok? && r.value.1 == Original(configs[0], now) && Saved(r.value.0, orig, configs[1..])
  {
    var c, rest := configs[0], configs[1..];
    DisjointTail(configs);
    InAllKeys(configs, 0);
    var subnets := net.vnets[net.ids[c.subnet].vnet];
    var j :| 0 <= j < |subnets| && subnets[j].id == c.subnet && subnets[j].name == net.ids[c.subnet].parts[0];
    FindUnique(subnets, j);
    assert SavedOne(tags, c);
    var left := tags - Keys(c.name);
    assert left.Keys == orig.Keys + AllKeys(rest);
    forall i | 0 <= i < |rest| ensures SavedOne(left, rest[i]) {
      assert SavedOne(tags, configs[i+1]);
      InAllKeys(rest, i);
    }
  }

  lemma {:induction false} RestoreAllMeans(net: Network, tags: Tags, orig: Tags, configs: seq<IpConfig>, now: seq<IpConfig>)
    requires Saved(tags, orig, configs) && Disjoint(configs) && AllKeys(configs) !! orig.Keys && SameNames(configs, now)
    requires forall i | 0 <= i < |configs| :: Restorable(net, configs[i])
    ensures var r := RestoreAll(net, tags, now);
            && r.Ok? && r.value.0 == orig && |r.value.1| == |configs|
            && forall i | 0 <= i < |configs| :: r.value.1[i] == Original(configs[i], now[i])
    decreases |configs|
  {
    if configs == [] {
      assert tags == orig;
    } else {
      RestoreOneMeans(net, tags, orig, configs, now[0]);
      DisjointTail(configs);
      var left := RestoreOne(net, tags, now[0]).value.0;
      RestoreAllMeans(net, left, orig, configs[1..], now[1..]);
    }
  }

  /** Unblocking can only succeed when no two configurations share a tag: a shared one has
      been popped already when it is wanted again. */
  lemma {:induction false} SuccessNeedsDisjoint(net: Network, tags: Tags, now: seq<IpConfig>)
    requires RestoreAll(net, tags, now).Ok?
    ensures Disjoint(now) && AllKeys(now) <= tags.Keys
    decreases |now|
  {
    if now != [] {
      var left := RestoreOne(net, tags, now[0]).value.0;
      SuccessNeedsDisjoint(net, left, now[1..]);
      forall i, j | 0 <= i < j < |now| ensures Keys(now[i].name) !! Keys(now[j].name) {
        assert now[1..][j-1] == now[j];
        if i == 0 {
          InAllKeys(now[1..], j - 1);
        } else {
          assert now[1..][i-1] == now[i];
        }
      }
    }
  }

  /** Block, then unblock: exactly when no configuration is named like another one or
      "TYPE_" and another one, every configuration gets back its subnet, its allocation
      method and its non-empty address, and the interface its original tags.  (now: the
      configurations when unblocking, whatever the platform has made of their addresses.) */
  lemma BlockThenUnblock(net: Network, nic: Nic, now: seq<IpConfig>)
    requires AllKeys(nic.configs) !! nic.tags.Keys && SameNames(nic.configs, now)
    requires forall i | 0 <= i < |nic.configs| :: Restorable(net, nic.configs[i])
    ensures var r := RestoreAll(net, Save(nic.tags, nic.configs), now);
            && (r.Ok? <==> NamesApart(nic.configs))
            && (r.Ok? ==> r.value.0 == nic.tags && |r.value.1| == |now|
                          && forall i | 0 <= i < |now| :: r.value.1[i] == Original(nic.configs[i], now[i]))
  {
    NamesApartMeans(nic.configs);
    NamesApartMeans(now);
    var tags := Save(nic.tags, nic.configs);
    if Disjoint(nic.configs) {
      SaveMeans(nic.tags, nic.configs);
      RestoreAllMeans(net, tags, nic.tags, nic.configs, now);
    }
    if RestoreAll(net, tags, now).Ok? {
      SuccessNeedsDisjoint(net, tags, now);
    }
  }

  lemma {:induction false} SaveAddsKeys(tags: Tags, configs: seq<IpConfig>)
    ensures Save(tags, configs).Keys == tags.Keys + AllKeys(configs)
    decreases |configs|
  {
    if configs != [] {
      SaveAddsKeys(SaveOne(tags, configs[0]), configs[1..]);
    }
  }

  // ------------------------------------------------------- the virtual machine's state

  const MAX_RETRY := 10

  datatype Operation = Block | Unblock

  /** What becomes of the service calls of one attempt. */
  datatype Fate = Fine | CloudError | OtherError

  /** The attempts get past the calls: cloud errors are retried, ten attempts in all. */
  ghost predicate Reached(fate: (nat, nat) -> Fate, k: nat) {
    exists a: nat | a < MAX_RETRY :: fate(k, a) == Fine && forall b: nat | b < a :: fate(k, b) == CloudError
  }

  lemma TenAttempts(fate: (nat, nat) -> Fate, k: nat)
    ensures Reached(fate, k) <==> exists a: nat | a < 10 :: fate(k, a) == Fine && forall b: nat | b < a :: fate(k, b) == CloudError
  {
  }

  ghost predicate Outcome(net: Network, op: Operation, nic: Nic, r: Result<Nic>) {
    if op.Block? then Blocks(net, nic, r) else r == Unblocked(net, nic)
  }

  /** An interface before and after its turn, and whether the agent leaves there. */
  ghost predicate Turn(net: Network, op: Operation, was: Nic, now: Nic, reached: bool, leaves: bool) {
    if !reached then now == was && !leaves
    else exists r :: Outcome(net, op, was, r) && now == (if r.Ok? then r.value else was) && (leaves <==> r.Leaves?)
  }

  /** The configuration is in the closed fence subnet of its network. */
  ghost predicate InFence(net: Network, c: IpConfig) {
    Blockable(net, c) && Lower(FenceOf(net, c).value.id) == Lower(c.subnet)
  }

  /** A subnet's id names the network it is in. */
  ghost predicate Consistent(net: Network) {
    forall v, i | v in net.vnets && 0 <= i < |net.vnets[v]| ::
      net.vnets[v][i].id in net.ids && net.ids[net.vnets[v][i].id].vnet == v
  }

  lemma MovedIsInFence(net: Network, c: IpConfig)
    requires Consistent(net) && Blockable(net, c)
    ensures InFence(net, Moved(net, c))
  {
    var v := net.ids[c.subnet].vnet;
    assert FenceOf(net, c).value in net.vnets[v];
    assert FenceOf(net, Moved(net, c)) == FenceOf(net, c);
  }

  lemma BlockedIsInFence(net: Network, was: Nic, now: Nic, leaves: bool)
    requires Consistent(net) && forall i | 0 <= i < |was.configs| :: Blockable(net, was.configs[i])
    requires Turn(net, Block, was, now, true, leaves)
    ensures !leaves && now.tags == Save(was.tags, was.configs) && |now.configs| == |was.configs|
    ensures forall i | 0 <= i < |was.configs| ::
              now.configs[i] == Moved(net, was.configs[i]) && InFence(net, now.configs[i])
  {
    forall i | 0 <= i < |was.configs| {
      MovedIsInFence(net, was.configs[i]);
    }
  }

  /** One interface, blocked and then unblocked. */
  lemma UnblockedAgain(net: Network, was: Nic, blocked: Nic, now: Nic, leaves: bool)
    requires AllKeys(was.configs) !! was.tags.Keys
    requires forall i | 0 <= i < |was.configs| :: Blockable(net, was.configs[i]) && Restorable(net, was.configs[i])
    requires blocked.tags == Save(was.tags, was.configs) && |blocked.configs| == |was.configs|
    requires forall i | 0 <= i < |was.configs| :: blocked.configs[i] == Moved(net, was.configs[i])
    requires Turn(net, Unblock, blocked, now, true, leaves)
    ensures NamesApart(was.configs) ==> now == was && !leaves
    ensures !NamesApart(was.configs) ==> now == blocked && now != was
  {
    BlockThenUnblock(net, was, blocked.configs);
    if NamesApart(was.configs) {
      assert now.configs == was.configs;
    } else {
      TagsAppear(was.tags, was.configs);
    }
  }

  lemma TagsAppear(tags: Tags, configs: seq<IpConfig>)
    requires configs != [] && AllKeys(configs) !! tags.Keys
    ensures Save(tags, configs) != tags
  {
    SaveAddsKeys(tags, configs);
    InAllKeys(configs, 0);
    assert SubnetKey(configs[0].name) in Keys(configs[0].name);
  }

  class VirtualMachine {
    const net: Network
    var nics: seq<Nic>

    constructor (net: Network, nics: seq<Nic>)
      ensures this.net == net && this.nics == nics
    {
      this.net, this.nics := net, nics;
    }

    /** get_network_state: off when every configuration of every interface is in its fence
        subnet.  None: the agent leaves. */
    method GetNetworkState() returns (off: Option<bool>)
      ensures off.Some? <==> forall k, i | 0 <= k < |nics| && 0 <= i < |nics[k].configs| :: Located(net, nics[k].configs[i])
      ensures off.Some? ==> (
                off.value <==> forall k, i | 0 <= k < |nics| && 0 <= i < |nics[k].configs| :: InFence(net, nics[k].configs[i]))
      ensures off == Some(true) ==> forall k, i | 0 <= k < |nics| && 0 <= i < |nics[k].configs| :: Isolated(net, nics[k].configs[i])
    {
      var allNicOk := true;
      for k := 0 to |nics|
        invariant forall m, i | 0 <= m < k && 0 <= i < |nics[m].configs| :: Located(net, nics[m].configs[i])
        invariant allNicOk <==> forall m, i | 0 <= m < k && 0 <= i < |nics[m].configs| :: InFence(net, nics[m].configs[i])
      {
        var ok := TestNic(nics[k]);
        if ok.None? { return None; }
        allNicOk := allNicOk && ok.value;
      }
      forall k, i | allNicOk && 0 <= k < |nics| && 0 <= i < |nics[k].configs| ensures Isolated(net, nics[k].configs[i]) {
        InFenceIsIsolated(net, nics[k].configs[i]);
      }
      return Some(allNicOk);
    }

    method TestNic(nic: Nic) returns (ok: Option<bool>)
      ensures ok.Some? <==> forall i | 0 <= i < |nic.configs| :: Located(net, nic.configs[i])
      ensures ok.Some? ==> (ok.value <==> forall i | 0 <= i < |nic.configs| :: InFence(net, nic.configs[i]))
    {
      var allOk := true;
      for i := 0 to |nic.configs|
        invariant forall j | 0 <= j < i :: Located(net, nic.configs[j])
        invariant allOk ==> forall j | 0 <= j < i :: InFence(net, nic.configs[j])
        invariant !allOk ==> exists j | 0 <= j < i :: !InFence(net, nic.configs[j])
      {
        var ok := TestConfig(nic.configs[i]);
        if ok.None? { return None; }
        allOk := allOk && ok.value;
      }
      return Some(allOk);
    }

    method TestConfig(c: IpConfig) returns (ok: Option<bool>)
      ensures ok.Some? <==> Located(net, c)
      ensures ok.Some? ==> (ok.value <==> InFence(net, c))
    {
      if !Located(net, c) { return None; }
      var fence, closed := FenceSubnet(net, c);
      return Some(closed && Lower(fence.value.id) == Lower(c.subnet));
    }

    /** The attempts on interface k.  Each starts from the interface as the cloud has it. */
    method TryNic(op: Operation, k: nat, fate: (nat, nat) -> Fate) returns (leaves: bool)
      requires k < |nics|
      modifies this
      ensures |nics| == |old(nics)| && forall m | 0 <= m < |nics| && m != k :: nics[m] == old(nics)[m]
      ensures Turn(net, op, old(nics)[k], nics[k], Reached(fate, k), leaves)
    {
      for attempt := 0 to MAX_RETRY
        invariant nics == old(nics) && forall b: nat | b < attempt :: fate(k, b) == CloudError
      {
        match fate(k, attempt)
        case CloudError =>
        case OtherError => return false;
        case Fine =>
          assert Reached(fate, k);
          var r: Result<Nic>;
          match op {
            case Block => r := BlockNic(net, nics[k]);
            case Unblock => r := UnblockNic(net, nics[k]);
          }
          assert Outcome(net, op, nics[k], r);
          if r.Ok? { nics := nics[k := r.value]; }
          return r.Leaves?;
      }
      return false;
    }

    /** set_network_state.  left: the interface at which the agent left. */
    method SetNetworkState(op: Operation, fate: (nat, nat) -> Fate) returns (left: Option<nat>)
      modifies this
      ensures |nics| == |old(nics)| && (left.Some? ==> left.value < |nics|)
      ensures forall k: nat | k < |nics| && (left.Some? ==> k <= left.value) ::
                Turn(net, op, old(nics)[k], nics[k], Reached(fate, k), left == Some(k))
      ensures forall k | 0 <= k < |nics| && left.Some? && k > left.value :: nics[k] == old(nics)[k]
    {
      for k := 0 to |nics|
        invariant |nics| == |old(nics)| && forall m | k <= m < |nics| :: nics[m] == old(nics)[m]
        invariant forall m: nat | m < k :: Turn(net, op, old(nics)[m], nics[m], Reached(fate, m), false)
      {
        var leaves := TryNic(op, k, fate);
        if leaves { return Some(k); }
      }
      return None;
    }

    /** The machine can be blocked, and its configurations restored. */
    ghost predicate Ready()
      reads this
    {
      && Consistent(net)
      && (forall k | 0 <= k < |nics| :: AllKeys(nics[k].configs) !! nics[k].tags.Keys)
      && (forall k, i | 0 <= k < |nics| && 0 <= i < |nics[k].configs| ::
            Blockable(net, nics[k].configs[i]) && Restorable(net, nics[k].configs[i]))
    }

    /** Fencing and unfencing a machine, all calls succeeding: in between it counts as off;
        and in the end every interface is what it was exactly when none of them has two
        configurations that share a tag. */
    method BlockAndUnblock(fate: (nat, nat) -> Fate, fate': (nat, nat) -> Fate) returns (off: Option<bool>)
      requires Ready()
      requires forall k: nat | k < |nics| :: Reached(fate, k) && Reached(fate', k)
      modifies this
      ensures off == Some(true)
      ensures nics == old(nics) <==> forall k | 0 <= k < |old(nics)| :: NamesApart(old(nics)[k].configs)
    {
      ghost var was := nics;
      var left := SetNetworkState(Block, fate);
      ghost var blocked := nics;
      if left.Some? {
        BlockedIsInFence(net, was[left.value], nics[left.value], true);
      }
      forall k: nat | k < |nics| {
        BlockedIsInFence(net, was[k], nics[k], false);
      }
      off := GetNetworkState();
      left := SetNetworkState(Unblock, fate');
      forall k: nat | k < |nics| && (left.Some? ==> k <= left.value) {
        UnblockedAgain(net, was[k], blocked[k], nics[k], left == Some(k));
      }
      if left.Some? {
        assert nics[left.value] != was[left.value];
      }
    }
  }
}
