/** The service-discovery wrapper of `naming/naming.go`: each operation checks
    its arguments in a fixed order and either returns the first problem or
    hands a parameter record to the naming client. The client itself is not
    modelled: handing it a record is the outcome `Delegated`. */
module Naming {
  import opened Wrappers

  /** Go's `uint64`. */
  type Uint64 = x: int | 0 <= x < 0x1_0000_0000_0000_0000

  const IpEmpty: string := "ip not be empty"
  const PortIllegal: string := "port is illegal"
  const ServiceNameEmpty: string := "serviceName not be empty"
  const ClustersEmpty: string := "clusters not be empty"
  const CallbackEmpty: string := "callback not be empty"

  /** A validator's `(bool, error)` pair; a nil error is `None`. */
  datatype Check = Check(ok: bool, err: Option<string>)

  /** A rule: whether it is violated, and the message it reports then. */
  type Rule = (bool, string)

  /** The position of the first violated rule, or `|rules|`. */
  function FirstFailed(rules: seq<Rule>): (k: nat)
    ensures k <= |rules|
    ensures forall j | 0 <= j < k :: !rules[j].0
    ensures k < |rules| ==> rules[k].0
  {
    if |rules| == 0 || rules[0].0 then 0 else 1 + FirstFailed(rules[1..])
  }

  /** The reference for every validator: the first violated rule's message
      with `false`, or `(true, nil)` when no rule is violated. */
  function Validate(rules: seq<Rule>): (c: Check)
    ensures c.ok <==> c.err.None?
    ensures c.ok <==> forall j | 0 <= j < |rules| :: !rules[j].0
  {
    var k := FirstFailed(rules);
    if k == |rules| then Check(true, None) else Check(false, Some(rules[k].1))
  }

  /** `checkArgs0`: ip, then port, then service name; the cluster name is
      not looked at. */
  function CheckArgs0(ip: string, port: Uint64, serviceName: string, clusterName: string): (c: Check)
    ensures c.ok <==> c.err.None?
    ensures c.ok <==> ip != "" && port != 0 && serviceName != ""
  {
    if |ip| <= 0 then Check(false, Some(IpEmpty))
    else if port == 0 then Check(false, Some(PortIllegal))
    else if |serviceName| <= 0 then Check(false, Some(ServiceNameEmpty))
    else Check(true, None)
  }

  /** `checkArgs1`: service name, then clusters, then callback (`None` is a
      nil callback). */
  function CheckArgs1<C>(serviceName: string, clusters: seq<string>, callback: Option<C>): (c: Check)
    ensures c.ok <==> c.err.None?
    ensures c.ok <==> serviceName != "" && clusters != [] && callback.Some?
  {
    if |serviceName| <= 0 then Check(false, Some(ServiceNameEmpty))
    else if |clusters| <= 0 then Check(false, Some(ClustersEmpty))
    else if callback.None? then Check(false, Some(CallbackEmpty))
    else Check(true, None)
  }

  /** `checkArgs2`: service name, then clusters. */
  function CheckArgs2(serviceName: string, clusters: seq<string>): (c: Check)
    ensures c.ok <==> c.err.None?
    ensures c.ok <==> serviceName != "" && clusters != []
  {
    if |serviceName| <= 0 then Check(false, Some(ServiceNameEmpty))
    else if |clusters| <= 0 then Check(false, Some(ClustersEmpty))
    else Check(true, None)
  }

  /** The validator's answer when rule `k` is the first one violated. */
  lemma ValidateAt(rules: seq<Rule>, k: nat)
    requires k < |rules| && rules[k].0
    requires forall j | 0 <= j < k :: !rules[j].0
    ensures Validate(rules) == Check(false, Some(rules[k].1))
  {
    var f := FirstFailed(rules);
    assert f <= k;
    assert rules[f].0;
  }

  /** `checkArgs0` reports the first violated rule, in the order ip, port,
      service name. */
  lemma CheckArgs0Order(ip: string, port: Uint64, serviceName: string, clusterName: string)
    ensures CheckArgs0(ip, port, serviceName, clusterName)
         == Validate([(ip == "", IpEmpty), (port == 0, PortIllegal), (serviceName == "", ServiceNameEmpty)])
  {
    var rules := [(ip == "", IpEmpty), (port == 0, PortIllegal), (serviceName == "", ServiceNameEmpty)];
    if ip == "" {
      ValidateAt(rules, 0);
    } else if port == 0 {
      ValidateAt(rules, 1);
    } else if serviceName == "" {
      ValidateAt(rules, 2);
    }
  }

  /** `checkArgs1` reports the first violated rule, in the order service
      name, clusters, callback. */
  lemma CheckArgs1Order<C>(serviceName: string, clusters: seq<string>, callback: Option<C>)
    ensures CheckArgs1(serviceName, clusters, callback)
         == Validate([(serviceName == "", ServiceNameEmpty), (clusters == [], ClustersEmpty),
                      (callback.None?, CallbackEmpty)])
  {
    var rules := [(serviceName == "", ServiceNameEmpty), (clusters == [], ClustersEmpty),
                  (callback.None?, CallbackEmpty)];
    if serviceName == "" {
      ValidateAt(rules, 0);
    } else if clusters == [] {
      ValidateAt(rules, 1);
    } else if callback.None? {
      ValidateAt(rules, 2);
    }
  }

  /** `checkArgs2` reports the first violated rule, in the order service
      name, clusters. */
  lemma CheckArgs2Order(serviceName: string, clusters: seq<string>)
    ensures CheckArgs2(serviceName, clusters)
         == Validate([(serviceName == "", ServiceNameEmpty), (clusters == [], ClustersEmpty)])
  {
    var rules := [(serviceName == "", ServiceNameEmpty), (clusters == [], ClustersEmpty)];
    if serviceName == "" {
      ValidateAt(rules, 0);
    } else if clusters == [] {
      ValidateAt(rules, 1);
    }
  }

  /** The cluster name never changes what `checkArgs0` answers. */
  lemma ClusterNameIgnored(ip: string, port: Uint64, serviceName: string, c1: string, c2: string)
    ensures CheckArgs0(ip, port, serviceName, c1) == CheckArgs0(ip, port, serviceName, c2)
  {
  }

  /** With a callback supplied, `checkArgs1` answers as `checkArgs2` does. */
  lemma CallbackGivenSameAsCheckArgs2<C>(serviceName: string, clusters: seq<string>, callback: C)
    ensures CheckArgs1(serviceName, clusters, Some(callback)) == CheckArgs2(serviceName, clusters)
  {
  }

  // ---------------------------------------------------------------------
  // Parameter records and outcomes
  // ---------------------------------------------------------------------

  datatype RegisterInstanceParam = RegisterInstanceParam(
    ip: string, port: Uint64, serviceName: string, clusterName: string,
    metadata: map<string, string>, weight: real, enable: bool, healthy: bool, ephemeral: bool)

  datatype DeregisterInstanceParam = DeregisterInstanceParam(
    ip: string, port: Uint64, serviceName: string, cluster: string, ephemeral: bool)

  datatype SubscribeParam<C> = SubscribeParam(serviceName: string, clusters: seq<string>, callback: C)

  datatype SelectInstancesParam = SelectInstancesParam(clusters: seq<string>, serviceName: string, healthyOnly: bool)

  datatype SelectAllInstancesParam = SelectAllInstancesParam(clusters: seq<string>, serviceName: string)

  /** What an operation does: return the validator's error without calling
      the client (for the two selections, with a nil instance list), or hand
      the client a parameter record and return whatever it returns. */
  datatype Outcome<P> = Rejected(err: string) | Delegated(param: P)

  /** The outcome the validator's answer dictates. */
  function Guard<P>(c: Check, param: P): (r: Outcome<P>)
    requires c.ok <==> c.err.None?
    ensures r.Rejected? <==> !c.ok
    ensures r.Rejected? ==> c.err == Some(r.err)
    ensures r.Delegated? ==> r.param == param
  {
    if !c.ok then Rejected(c.err.value) else Delegated(param)
  }

  /** `RegisterService`: weight 10, enabled, healthy and ephemeral. */
  function RegisterService(ip: string, port: Uint64, serviceName: string, clusterName: string,
                           metadata: map<string, string>): (r: Outcome<RegisterInstanceParam>)
    ensures r.Rejected? <==> !(ip != "" && port != 0 && serviceName != "")
    ensures r.Rejected? ==> Some(r.err) == CheckArgs0(ip, port, serviceName, clusterName).err
    ensures r.Delegated? ==>
              && r.param.ip == ip && r.param.port == port && r.param.serviceName == serviceName
              && r.param.clusterName == clusterName && r.param.metadata == metadata
              && r.param.weight == 10.0 && r.param.enable && r.param.healthy && r.param.ephemeral
  {
    Guard(CheckArgs0(ip, port, serviceName, clusterName),
          RegisterInstanceParam(ip, port, serviceName, clusterName, metadata, 10.0, true, true, true))
  }

  /** `LogoutService`: the cluster name goes in `Cluster`; not ephemeral. */
  function LogoutService(ip: string, port: Uint64, serviceName: string, clusterName: string)
    : (r: Outcome<DeregisterInstanceParam>)
    ensures r.Rejected? <==> !(ip != "" && port != 0 && serviceName != "")
    ensures r.Rejected? ==> Some(r.err) == CheckArgs0(ip, port, serviceName, clusterName).err
    ensures r.Delegated? ==>
              r.param == DeregisterInstanceParam(ip, port, serviceName, clusterName, false)
  {
    Guard(CheckArgs0(ip, port, serviceName, clusterName),
          DeregisterInstanceParam(ip, port, serviceName, clusterName, false))
  }

  /** `AddListener`. */
  function AddListener<C>(serviceName: string, clusters: seq<string>, callback: Option<C>)
    : (r: Outcome<SubscribeParam<C>>)
    ensures r.Rejected? <==> !(serviceName != "" && clusters != [] && callback.Some?)
    ensures r.Rejected? ==> Some(r.err) == CheckArgs1(serviceName, clusters, callback).err
    ensures r.Delegated? ==> r.param == SubscribeParam(serviceName, clusters, callback.value)
  {
    var c := CheckArgs1(serviceName, clusters, callback);
    if !c.ok then Rejected(c.err.value) else Delegated(SubscribeParam(serviceName, clusters, callback.value))
  }

  /** `SelectServices`. */
  function SelectServices(serviceName: string, clusters: seq<string>, healthy: bool)
    : (r: Outcome<SelectInstancesParam>)
    ensures r.Rejected? <==> !(serviceName != "" && clusters != [])
    ensures r.Rejected? ==> Some(r.err) == CheckArgs2(serviceName, clusters).err
    ensures r.Delegated? ==> r.param == SelectInstancesParam(clusters, serviceName, healthy)
  {
    Guard(CheckArgs2(serviceName, clusters), SelectInstancesParam(clusters, serviceName, healthy))
  }

  /** `SelectAllServices`. */
  function SelectAllServices(serviceName: string, clusters: seq<string>)
    : (r: Outcome<SelectAllInstancesParam>)
    ensures r.Rejected? <==> !(serviceName != "" && clusters != [])
    ensures r.Rejected? ==> Some(r.err) == CheckArgs2(serviceName, clusters).err
    ensures r.Delegated? ==> r.param == SelectAllInstancesParam(clusters, serviceName)
  {
    Guard(CheckArgs2(serviceName, clusters), SelectAllInstancesParam(clusters, serviceName))
  }

  /** Registering and deregistering accept and reject the same arguments,
      with the same error. */
  lemma RegisterLogoutAgree(ip: string, port: Uint64, serviceName: string, clusterName: string,
                            metadata: map<string, string>)
    ensures RegisterService(ip, port, serviceName, clusterName, metadata).Rejected?
        <==> LogoutService(ip, port, serviceName, clusterName).Rejected?
    ensures RegisterService(ip, port, serviceName, clusterName, metadata).Rejected? ==>
              RegisterService(ip, port, serviceName, clusterName, metadata).err
              == LogoutService(ip, port, serviceName, clusterName).err
  {
  }

  /** The two selections validate alike. */
  lemma SelectionsAgree(serviceName: string, clusters: seq<string>, healthy: bool)
    ensures SelectServices(serviceName, clusters, healthy).Rejected?
        <==> SelectAllServices(serviceName, clusters).Rejected?
    ensures SelectServices(serviceName, clusters, healthy).Rejected? ==>
              SelectServices(serviceName, clusters, healthy).err == SelectAllServices(serviceName, clusters).err
  {
  }

  /** Registering `localhost:8080` as `test` with an empty cluster name is
      handed to the client. */
  lemma EmptyClusterRegisters()
    ensures RegisterService("localhost", 8080, "test", "", map[])
         == Delegated(RegisterInstanceParam("localhost", 8080, "test", "", map[], 10.0, true, true, true))
  {
  }

  /** An empty ip is reported before a zero port and an empty name. */
  lemma IpCheckedFirst(port: Uint64, serviceName: string, clusterName: string)
    ensures LogoutService("", port, serviceName, clusterName) == Rejected(IpEmpty)
  {
  }
}
