/** Two structs off the path from a cluster to its hosts: the virtual addresses (models/api_vip.go,
    models/ingress_vip.go) and the host networks (models/host_network.go). */
module ClusterParts {
  import opened Wrappers
  import opened Numerals
  import opened Validation
  import opened Reporting
  import opened Cluster
  import IPPattern

  const IP_FIELD: FieldName := "ip"
  const VERIFICATION: FieldName := "verification"
  const HOST_IDS: FieldName := "host_ids"

  const VIP_VERIFICATIONS := ["unverified", "failed", "succeeded"]

  /** APIVip and IngressVip. */
  datatype Vip = Vip(clusterID: string, ip: string, verification: Option<string>)

  function VipNode(v: Vip): Node {
    Node([
      Leaf(CLUSTER_ID, Optional(NonZero(v.clusterID), UUID)),
      Leaf(IP_FIELD, Typed(NonZero(v.ip), Address)),
      Leaf(VERIFICATION, Typed(v.verification, Enum(VIP_VERIFICATIONS)))])
  }

  lemma VipExact(v: Vip, formats: Formats)
    ensures Holds(VipNode(v), formats) <==>
            && IsUuid(NonZero(v.clusterID), formats)
            && IPPattern.ValidIP(v.ip)
            && NilOrIn(v.verification, VIP_VERIFICATIONS)
  {
    IPPattern.ValidIPMeaning("");
    hide IPPattern.ValidIP, VIP_VERIFICATIONS, CLUSTER_ID, IP_FIELD, VERIFICATION;
    var fs := VipNode(v).fields;
    assert Holds(VipNode(v), formats) <==>
           FieldHolds(fs[0], formats) && FieldHolds(fs[1], formats) && FieldHolds(fs[2], formats);
  }

  datatype HostNetwork = HostNetwork(hostIds: seq<string>)

  function HostNetworkNode(n: HostNetwork): Node {
    Node([Scalars(HOST_IDS, n.hostIds, UUID)])
  }

  lemma HostNetworkExact(n: HostNetwork, formats: Formats)
    ensures Holds(HostNetworkNode(n), formats) <==>
            forall i :: 0 <= i < |n.hostIds| ==> formats("uuid", n.hostIds[i])
  {
    hide HOST_IDS;
    var fs := HostNetworkNode(n).fields;
    assert Holds(HostNetworkNode(n), formats) <==> FieldHolds(fs[0], formats);
  }

  /** A host id is reported under "host_ids" and its index exactly when it is the first that is not
      a uuid. */
  lemma HostIdReported(n: HostNetwork, i: nat, formats: Formats)
    ensures Reported(NodeError(HostNetworkNode(n), formats), "host_ids" + "." + FormatDec(i), InvalidType) <==>
            && i < |n.hostIds| && !formats("uuid", n.hostIds[i])
            && forall j :: 0 <= j < i ==> formats("uuid", n.hostIds[j])
  {
    hide FormatDec, NodeError, Reports;
    var node, p: seq<string> := HostNetworkNode(n), ["host_ids", FormatDec(i)];
    IndexIsGood(i);
    assert p[1..] == [FormatDec(i)] && Dots([FormatDec(i)]) == FormatDec(i);
    PathReported(node, p, InvalidType, formats);
    var f := node.fields[0];
    assert Visible(node, p, InvalidType, formats) <==> VisibleField(f, p, InvalidType, formats);
    forall k: nat
      ensures FormatDec(i) == FormatDec(k) <==> i == k
    {
      FormatDecInjective(i, k);
    }
  }
}
