/** The order in which the fields of the structs are checked. With ReportsFollowFields it is the order
    of what they report. */
module FieldOrder {
  import opened Validation
  import opened Cluster
  import opened ClusterParts
  import opened KernelArguments

  // ---------------------------------------------------------------- the order of the fields

  function FieldNames(fs: seq<Field>): (names: seq<string>)
    ensures |names| == |fs|
  {
    seq(|fs|, i requires 0 <= i < |fs| => fs[i].name)
  }

  lemma FieldNamesAppend(a: seq<Field>, b: seq<Field>)
    ensures FieldNames(a + b) == FieldNames(a) + FieldNames(b)
  {
  }

  /** The fields of the smaller structs stand in this order. */
  lemma SmallFieldNames(p: HostProgressInfo, v: Vip, n: HostNetwork, a: KernelArgument)
    ensures FieldNames(ProgressNode(p).fields) == ["current_stage", "stage_started_at", "stage_updated_at"]
    ensures FieldNames(VipNode(v).fields) == ["cluster_id", "ip", "verification"]
    ensures FieldNames(HostNetworkNode(n).fields) == ["host_ids"]
    ensures FieldNames(ArgumentNode(a).fields) == ["operation", "value"]
  {
  }

  lemma NamesOfFieldsBeforeProgress(h: Host)
    ensures FieldNames(FieldsBeforeProgress(h)) == [
              "checked_in_at", "cluster_id", "created_at", "href", "id", "infra_env_id", "kind",
              "logs_collected_at", "logs_info", "logs_started_at", "media_status"]
  {
  }

  lemma NamesOfFieldsAfterProgress(h: Host)
    ensures FieldNames(FieldsAfterProgress(h)) == [
              "progress_stages", "registered_at", "role", "stage_started_at", "stage_updated_at", "status",
              "status_info", "status_updated_at", "suggested_role", "updated_at"]
  {
  }

  lemma NamesOfFieldsBeforeHosts(c: Cluster)
    ensures FieldNames(FieldsBeforeHosts(c)) == [
              "ams_subscription_id", "api_vips", "cluster_network_cidr", "cluster_network_host_prefix",
              "cluster_networks", "controller_logs_collected_at", "controller_logs_started_at",
              "cpu_architecture", "created_at", "disk_encryption", "high_availability_mode", "host_networks"]
  {
  }

  lemma NamesOfFieldsAfterHosts(c: Cluster)
    ensures FieldNames(FieldsAfterHosts(c)) == [
              "href", "hyperthreading", "id", "ignition_endpoint", "image_info", "ingress_vips",
              "install_completed_at", "install_started_at"]
  {
  }

  lemma NamesOfMiddleFields(c: Cluster)
    ensures FieldNames(MiddleFields(c)) == [
              "kind", "last-installation-preparation", "load_balancer", "logs_info", "machine_network_cidr",
              "machine_networks", "monitored_operators", "network_type"]
  {
  }

  lemma NamesOfLastFields(c: Cluster)
    ensures FieldNames(LastFields(c)) == [
              "openshift_cluster_id", "operator_bundles", "platform", "progress", "service_network_cidr",
              "service_networks", "status", "status_info", "status_updated_at", "updated_at"]
  {
  }

  /** The fields of a host stand in this order. */
  lemma HostFieldNames(h: Host)
    ensures FieldNames(HostNode(h).fields) ==
            [
              "checked_in_at", "cluster_id", "created_at", "href", "id", "infra_env_id", "kind",
              "logs_collected_at", "logs_info", "logs_started_at", "media_status"]
            + ["progress"] + [
              "progress_stages", "registered_at", "role", "stage_started_at", "stage_updated_at", "status",
              "status_info", "status_updated_at", "suggested_role", "updated_at"]
  {
    NamesOfFieldsBeforeProgress(h);
    NamesOfFieldsAfterProgress(h);
    hide FieldsBeforeProgress, FieldsAfterProgress;
    var a, f, b := FieldsBeforeProgress(h), ProgressField(h), FieldsAfterProgress(h);
    FieldNamesAppend(a + [f], b);
    FieldNamesAppend(a, [f]);
    assert FieldNames([f]) == ["progress"];
    hide FieldNames, ProgressField;
    assert HostNode(h).fields == a + [f] + b;
  }

  /** The fields of a cluster stand in this order. */
  lemma ClusterFieldNames(c: Cluster)
    ensures FieldNames(ClusterNode(c).fields) ==
            [
              "ams_subscription_id", "api_vips", "cluster_network_cidr", "cluster_network_host_prefix",
              "cluster_networks", "controller_logs_collected_at", "controller_logs_started_at",
              "cpu_architecture", "created_at", "disk_encryption", "high_availability_mode", "host_networks"]
            + ["hosts"] + [
              "href", "hyperthreading", "id", "ignition_endpoint", "image_info", "ingress_vips",
              "install_completed_at", "install_started_at"]
            + [
              "kind", "last-installation-preparation", "load_balancer", "logs_info", "machine_network_cidr",
              "machine_networks", "monitored_operators", "network_type"]
            + [
              "openshift_cluster_id", "operator_bundles", "platform", "progress", "service_network_cidr",
              "service_networks", "status", "status_info", "status_updated_at", "updated_at"]
  {
    NamesOfFieldsBeforeHosts(c);
    NamesOfFieldsAfterHosts(c);
    NamesOfMiddleFields(c);
    NamesOfLastFields(c);
    hide FieldsBeforeHosts, FieldsAfterHosts, MiddleFields, LastFields;
    var a, f, b, d, e := FieldsBeforeHosts(c), HostsField(c), FieldsAfterHosts(c), MiddleFields(c), LastFields(c);
    FieldNamesAppend(a + [f] + b + d, e);
    FieldNamesAppend(a + [f] + b, d);
    FieldNamesAppend(a + [f], b);
    FieldNamesAppend(a, [f]);
    assert FieldNames([f]) == ["hosts"];
    hide FieldNames, HostsField;
    assert ClusterNode(c).fields == a + [f] + b + d + e;
  }
}
